/** Filter expansion: the four placeholders of the configured LDAP filter replaced by
    the resolved login (ldapAliasSync.php, lines 173-179). */
module Filter {
  import opened Php
  import opened Login

  /** Four `str_replace` calls, one after the other: text put in by an earlier call is
      seen by the later ones. */
  function ExpandFilter(template: string, ctx: LoginContext): string {
    var withLogin := ReplaceAll(template, "%login", ctx.login);
    var withLocal := ReplaceAll(withLogin, "%local", ctx.local);
    var withDomain := ReplaceAll(withLocal, "%domain", ctx.domain);
    ReplaceAll(withDomain, "%email", ctx.email)
  }

  /** A template holding none of the placeholders is passed on unchanged. */
  lemma ExpandWithoutPlaceholders(template: string, ctx: LoginContext)
    requires !Contains(template, "%login") && !Contains(template, "%local")
    requires !Contains(template, "%domain") && !Contains(template, "%email")
    ensures ExpandFilter(template, ctx) == template
  {
    ReplaceAllNoMatch(template, "%login", ctx.login);
    ReplaceAllNoMatch(template, "%local", ctx.local);
    ReplaceAllNoMatch(template, "%domain", ctx.domain);
    ReplaceAllNoMatch(template, "%email", ctx.email);
  }

  /** Every `%local` of a template whose other text holds no `%` is replaced by the
      local part, provided the local part holds no `%` either. */
  lemma ExpandLocalPlaceholder(parts: seq<string>, ctx: LoginContext)
    requires forall k :: 0 <= k < |parts| ==> '%' !in parts[k]
    requires '%' !in ctx.local
    ensures ExpandFilter(Join(parts, "%local"), ctx) == Join(parts, ctx.local)
  {
    ReplaceAllJoinOther(parts, "%local", "%login", ctx.login, 3);
    ReplaceAllJoin(parts, "%local", ctx.local);
    JoinFree(parts, ctx.local, '%');
    ReplaceAllFree(Join(parts, ctx.local), "%domain", ctx.domain);
    ReplaceAllFree(Join(parts, ctx.local), "%email", ctx.email);
  }

  /** Every `%login` of a template whose other text holds no `%` is replaced by the
      login, provided the login holds no `%` either. */
  lemma ExpandLoginPlaceholder(parts: seq<string>, ctx: LoginContext)
    requires forall k :: 0 <= k < |parts| ==> '%' !in parts[k]
    requires '%' !in ctx.login
    ensures ExpandFilter(Join(parts, "%login"), ctx) == Join(parts, ctx.login)
  {
    ReplaceAllJoin(parts, "%login", ctx.login);
    JoinFree(parts, ctx.login, '%');
    ReplaceAllFree(Join(parts, ctx.login), "%local", ctx.local);
    ReplaceAllFree(Join(parts, ctx.login), "%domain", ctx.domain);
    ReplaceAllFree(Join(parts, ctx.login), "%email", ctx.email);
  }

  /** Every `%domain` of a template whose other text holds no `%` is replaced by the
      domain part, provided the domain holds no `%` either. */
  lemma ExpandDomainPlaceholder(parts: seq<string>, ctx: LoginContext)
    requires forall k :: 0 <= k < |parts| ==> '%' !in parts[k]
    requires '%' !in ctx.domain
    ensures ExpandFilter(Join(parts, "%domain"), ctx) == Join(parts, ctx.domain)
  {
    ReplaceAllJoinOther(parts, "%domain", "%login", ctx.login, 1);
    ReplaceAllJoinOther(parts, "%domain", "%local", ctx.local, 1);
    ReplaceAllJoin(parts, "%domain", ctx.domain);
    JoinFree(parts, ctx.domain, '%');
    ReplaceAllFree(Join(parts, ctx.domain), "%email", ctx.email);
  }

  /** A template with one `%local` and one `%email`, such as
      `(&(uid=%local)(mail=%email))`, gets the local part and the search address in
      their places, provided the surrounding text and the local part hold no `%`. */
  lemma {:induction false} ExpandLocalAndEmail(a: string, b: string, c: string, ctx: LoginContext)
    requires '%' !in a && '%' !in b && '%' !in c && '%' !in ctx.local
    ensures ExpandFilter(a + "%local" + b + "%email" + c, ctx) == a + ctx.local + b + ctx.email + c
  {
    var t := a + "%local" + b + "%email" + c;
    var lt := a + ctx.local + b + "%email" + c;
    assert '%' !in "local" && '%' !in "email";
    ReplaceAllPassesTwo(a, "%local", b, "%email", c, "%login", ctx.login, 3, 1);
    assert ReplaceAll(t, "%login", ctx.login) == t;
    ReplaceAllFirstOfTwo(a, b, "%email", c, "%local", ctx.local, 1);
    assert ReplaceAll(t, "%local", ctx.local) == lt;
    assert a + ctx.local + b + "%email" + c == (a + ctx.local + b) + "%email" + c;
    ReplaceAllPassesOne(a + ctx.local + b, "%email", c, "%domain", ctx.domain, 1);
    ReplaceAllOne(a + ctx.local + b, c, "%email", ctx.email);
  }

  /** `(&(uid=%local)(mail=%email))` becomes a search on both the local part and the
      search address. */
  lemma ExpandUidAndMail(ctx: LoginContext)
    requires '%' !in ctx.local
    ensures ExpandFilter("(&(uid=%local)(mail=%email))", ctx) ==
      "(&(uid=" + ctx.local + ")(mail=" + ctx.email + "))"
  {
    assert "(&(uid=%local)(mail=%email))" == "(&(uid=" + "%local" + ")(mail=" + "%email" + "))";
    ExpandLocalAndEmail("(&(uid=", ")(mail=", "))", ctx);
  }

  /** The default filter `(uid=%local)` becomes `(uid=` + local part + `)`. The local
      part is asked to hold no `%`, a simple way to say that it brings in no `%domain`
      or `%email` for the later calls to expand; `ExpandRescansInsertedText` shows what
      happens when it does. */
  lemma ExpandDefaultFilter(ctx: LoginContext)
    requires '%' !in ctx.local
    ensures ExpandFilter("(uid=%local)", ctx) == "(uid=" + ctx.local + ")"
  {
    var parts := ["(uid=", ")"];
    assert Join(parts, "%local") == "(uid=%local)";
    assert Join(parts, ctx.local) == "(uid=" + ctx.local + ")";
    ExpandLocalPlaceholder(parts, ctx);
  }

  /** `%email` is replaced last, so the search address goes in verbatim whatever it
      holds: every `%email` of the template is replaced by it. */
  lemma ExpandEmailPlaceholder(parts: seq<string>, ctx: LoginContext)
    requires forall k :: 0 <= k < |parts| ==> '%' !in parts[k]
    ensures ExpandFilter(Join(parts, "%email"), ctx) == Join(parts, ctx.email)
  {
    ReplaceAllJoinOther(parts, "%email", "%login", ctx.login, 1);
    ReplaceAllJoinOther(parts, "%email", "%local", ctx.local, 1);
    ReplaceAllJoinOther(parts, "%email", "%domain", ctx.domain, 1);
    ReplaceAllJoin(parts, "%email", ctx.email);
  }

  /** The expansion is NOT a single pass: a local part that itself reads `%domain` is
      expanded once more, so `(uid=%local)` can end up as `(uid=` + domain + `)`. */
  lemma ExpandRescansInsertedText(ctx: LoginContext)
    requires ctx.local == "%domain" && '%' !in ctx.domain
    ensures ExpandFilter("(uid=%local)", ctx) == "(uid=" + ctx.domain + ")"
  {
    var parts := ["(uid=", ")"];
    assert Join(parts, "%local") == "(uid=%local)";
    ReplaceAllJoinOther(parts, "%local", "%login", ctx.login, 3);
    ReplaceAllJoin(parts, "%local", ctx.local);
    assert Join(parts, "%domain") == "(uid=%domain)";
    ReplaceAllJoin(parts, "%domain", ctx.domain);
    assert Join(parts, ctx.domain) == "(uid=" + ctx.domain + ")";
    JoinFree(parts, ctx.domain, '%');
    ReplaceAllFree(Join(parts, ctx.domain), "%email", ctx.email);
  }
}
