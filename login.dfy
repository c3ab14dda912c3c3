/** Login resolution: the local part, domain part and search address derived from the
    login name (ldapAliasSync.php, lines 142-171). */
module Login {
  import opened Php
  import opened AliasSyncTypes

  /** `$login`, `$local_part`, `$domain_part` and `$login_email` after line 171. */
  datatype LoginContext = LoginContext(login: string, local: string, domain: string, email: string)

  /** The login holds an `@` (the test `strstr($login, '@')`). */
  predicate HasAt(login: string) {
    StrStrTruthy(login, "@")
  }

  /** `$domain_part` after lines 142-155; "" where PHP leaves it unset. */
  function DomainPart(login: string, mail: MailConfig): string {
    if HasAt(login) then
      if mail.replaceDomain && Truthy(mail.searchDomain) then mail.searchDomain
      else ExplodeSecond(login, "@")
    else if Truthy(mail.searchDomain) then mail.searchDomain
    else ""
  }

  /** `$local_part` before the impersonation check (lines 144 and 151). */
  function RawLocalPart(login: string): string {
    if HasAt(login) then ExplodeFirst(login, "@") else login
  }

  /** The Dovecot master-user separator is seen in the WHOLE login (line 158). */
  predicate Impersonated(login: string, mail: MailConfig) {
    StrStrTruthy(login, mail.separator)
  }

  /** `$local_part` after line 163: cut at the first separator when impersonated. */
  function LocalPart(login: string, mail: MailConfig): string {
    var local := RawLocalPart(login);
    if Impersonated(login, mail) then ExplodeFirst(local, mail.separator) else local
  }

  /** The whole resolution. The domain is never the falsy "0", and the search address is
      local@domain exactly when there is a domain. */
  function Resolve(login: string, mail: MailConfig): (ctx: LoginContext)
    ensures ctx.login == login && ctx.local == LocalPart(login, mail)
    ensures ctx.domain == "" || Truthy(ctx.domain)
    ensures ctx.domain != "" ==> ctx.email == ctx.local + "@" + ctx.domain
    ensures ctx.domain == "" ==> ctx.email == ""
  {
    var local := LocalPart(login, mail);
    var domain := DomainPart(login, mail);
    if Truthy(domain) then LoginContext(login, local, domain, local + "@" + domain)
    else LoginContext(login, local, "", "")
  }

  // ---------------------------------------------------------------- lemmas

  /** A login without `@` takes `search_domain` as its domain; with no usable
      `search_domain` both the domain and the search address are empty. */
  lemma ResolveWithoutAt(login: string, mail: MailConfig)
    requires '@' !in login
    ensures var ctx := Resolve(login, mail);
      (Truthy(mail.searchDomain) ==>
         ctx.domain == mail.searchDomain && ctx.email == ctx.local + "@" + mail.searchDomain) &&
      (!Truthy(mail.searchDomain) ==> ctx.domain == "" && ctx.email == "")
    ensures RawLocalPart(login) == login
  {
    StrStrChar(login, '@');
  }

  /** A login with `@` keeps its SECOND `@`-piece as the domain (reset to "" when falsy),
      unless `replace_domain` and `search_domain` are both set. */
  lemma ResolveWithAt(login: string, mail: MailConfig)
    requires '@' in login
    ensures Resolve(login, mail).domain ==
      if mail.replaceDomain && Truthy(mail.searchDomain) then mail.searchDomain
      else OrEmpty(ExplodeSecond(login, "@"))
    ensures RawLocalPart(login) == ExplodeFirst(login, "@")
  {
    StrStrChar(login, '@');
  }

  /** The second `@`-piece is the text between the first `@` and the next one (or the
      end); the local part is the text before the first `@`. */
  lemma AtPieces(login: string)
    requires '@' in login
    ensures var local := ExplodeFirst(login, "@");
      var rest := AfterFirst(login, "@");
      var second := ExplodeSecond(login, "@");
      login == local + "@" + rest && '@' !in local && '@' !in second &&
      (rest == second || rest == second + "@" + AfterFirst(rest, "@"))
  {
    ContainsChar(login, '@');
    ExplodeFirstSpec(login, "@");
    var rest := AfterFirst(login, "@");
    ExplodeFirstSpec(rest, "@");
    ContainsChar(ExplodeFirst(login, "@"), '@');
    ContainsChar(ExplodeFirst(rest, "@"), '@');
  }

  /** With the separator in the login, the local part is cut before the first separator
      in it: what is kept holds no separator and is followed by one. Without the
      separator the local part is left as it was. */
  lemma ImpersonationStripped(login: string, mail: MailConfig)
    ensures var raw := RawLocalPart(login);
      var local := Resolve(login, mail).local;
      (Impersonated(login, mail) && Contains(raw, mail.separator) ==>
         !Contains(local, mail.separator) &&
         raw == local + mail.separator + AfterFirst(raw, mail.separator)) &&
      (Impersonated(login, mail) && !Contains(raw, mail.separator) ==> local == raw) &&
      (!Impersonated(login, mail) ==> local == raw)
  {
    if Impersonated(login, mail) {
      ExplodeFirstSpec(RawLocalPart(login), mail.separator);
    }
  }

  /** An address `local@domain` (no second `@`) with `replace_domain` off resolves to its
      own parts when the separator, a single character, is not in it; for instance
      `bob@example.com` with separator `*` gives bob and example.com. */
  lemma ResolvePlainAddress(local: string, domain: string, sep: char, mail: MailConfig)
    requires '@' !in local && '@' !in domain && Truthy(domain)
    requires !mail.replaceDomain && mail.separator == [sep] && sep != '0'
    requires sep !in local + "@" + domain
    ensures Resolve(local + "@" + domain, mail) ==
      LoginContext(local + "@" + domain, local, domain, local + "@" + domain)
  {
    var login := local + "@" + domain;
    assert login == local + ['@'] + domain;
    FirstCharAfterPrefix(local, '@', domain);
    StrStrChar(login, '@');
    StrStrChar(login, sep);
    assert ExplodeFirst(login, "@") == local;
    assert AfterFirst(login, "@") == domain;
    ContainsChar(domain, '@');
    ExplodeFirstSpec(domain, "@");
  }

  /** A master-user login `user*master` without `@` resolves to `user` at
      `search_domain`; for instance `bob*admin` gives bob at the search domain. */
  lemma ResolveMasterUser(user: string, master: string, sep: char, mail: MailConfig)
    requires sep != '@' && sep != '0' && mail.separator == [sep]
    requires sep !in user && '@' !in user + [sep] + master
    requires Truthy(mail.searchDomain)
    ensures Resolve(user + [sep] + master, mail) ==
      LoginContext(user + [sep] + master, user, mail.searchDomain, user + "@" + mail.searchDomain)
  {
    var login := user + [sep] + master;
    StrStrChar(login, '@');
    FirstCharAfterPrefix(user, sep, master);
    StrStrChar(login, sep);
    assert ExplodeFirst(login, [sep]) == user;
  }
}
