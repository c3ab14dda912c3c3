/** Identity extraction: the candidate identities read from the directory entries
    (ldapAliasSync.php, lines 191-268). */
module Extraction {
  import opened Php
  import opened AliasSyncTypes

  /** `$ldapID[$attr][0]`: the first value, or "" (PHP null) when the attribute is
      missing or has no values. */
  function FirstValue(entry: Entry, attr: string): string {
    if attr in entry && |entry[attr]| > 0 then entry[attr][0] else ""
  }

  /** A single-valued field: read only when its attribute is configured, and reset to ""
      when falsy (lines 206-225 and 239-243). It is either "" or the attribute's first
      value, and it is that value whenever the value is truthy. */
  function ScalarField(entry: Entry, attr: string): (r: string)
    ensures r == "" || (Truthy(attr) && attr in entry && |entry[attr]| > 0 &&
                        r == entry[attr][0] && Truthy(r))
    ensures Truthy(attr) && attr in entry && |entry[attr]| > 0 && Truthy(entry[attr][0]) ==>
              r == entry[attr][0]
  {
    if Truthy(attr) then OrEmpty(FirstValue(entry, attr)) else ""
  }

  /** Name, organisation, reply-to, bcc and signature of one entry. */
  datatype Scalars = Scalars(name: string, organization: string, replyTo: string,
                             bcc: string, signature: string)

  function EntryScalars(entry: Entry, ldap: LdapConfig): Scalars {
    Scalars(ScalarField(entry, ldap.attrName), ScalarField(entry, ldap.attrOrg),
            ScalarField(entry, ldap.attrReply), ScalarField(entry, ldap.attrBcc),
            ScalarField(entry, ldap.attrSig))
  }

  /** All values of the mail attribute (none when it is missing). */
  function MailValues(entry: Entry, ldap: LdapConfig): seq<string> {
    if ldap.attrMail in entry then entry[ldap.attrMail] else []
  }

  // ----------------------------------------------------- HTML signature sniff

  /** PCRE's `\s`: space, tab, line feed, vertical tab, form feed, carriage return. */
  predicate IsSpace(c: char) {
    c == ' ' || c == '\t' || c == '\n' || c == '\U{000B}' || c == '\U{000C}' || c == '\r'
  }

  predicate IsAsciiLetter(c: char) {
    ('a' <= c <= 'z') || ('A' <= c <= 'Z')
  }

  function TrimLeadingSpace(s: string): string
    decreases |s|
  {
    if |s| > 0 && IsSpace(s[0]) then TrimLeadingSpace(s[1..]) else s
  }

  /** The signature, after its leading white space, starts with `<` and a letter. */
  predicate LooksLikeHtml(signature: string) {
    var t := TrimLeadingSpace(signature);
    |t| >= 2 && t[0] == '<' && IsAsciiLetter(t[1])
  }

  /** `/^\s*<[a-zA-Z]+/` matches with its `\s*` taking the first `k` characters. */
  predicate PatternMatchesAt(signature: string, k: nat) {
    k + 1 < |signature| &&
    (forall j :: 0 <= j < k ==> IsSpace(signature[j])) &&
    signature[k] == '<' && IsAsciiLetter(signature[k + 1])
  }

  /** `html_signature` as stored: 1 or 0 (lines 246-250). */
  function HtmlFlag(signature: string): (r: int)
    ensures r == 1 || r == 0
  {
    if LooksLikeHtml(signature) then 1 else 0
  }

  // ------------------------------------------------------- candidate records

  /** Line 231: a bare local part gets `@find_domain` appended when both are truthy.
      The test `strstr($email, '@')` is written as membership of `@` throughout this
      module; `Php.StrStrChar` shows the two agree. */
  function CompleteMail(value: string, findDomain: string): string {
    if Truthy(value) && '@' !in value && Truthy(findDomain)
    then value + "@" + findDomain else value
  }

  /** Every emitted record has an `@` and a second `@`-piece that is not ignored. */
  predicate Acceptable(c: Identity, cfg: Config) {
    '@' in c.email && ExplodeSecond(c.email, "@") !in cfg.ldap.mailIgnore
  }

  /** The record carries the entry's fields and the HTML flag of its signature. */
  predicate SharesScalars(c: Identity, sc: Scalars) {
    c.name == sc.name && c.organization == sc.organization && c.replyTo == sc.replyTo &&
    c.bcc == sc.bcc && c.signature == sc.signature && c.htmlSignature == HtmlFlag(sc.signature)
  }

  /** Lines 229-262 for one mail value: None when it is dropped. */
  function MailCandidate(value: string, sc: Scalars, cfg: Config): (r: Option<Identity>)
    ensures r.Some? ==> Acceptable(r.value, cfg) && SharesScalars(r.value, sc)
  {
    var email := CompleteMail(value, cfg.mail.findDomain);
    if '@' !in email then None
    else if ExplodeSecond(email, "@") in cfg.ldap.mailIgnore then None
    else Some(Identity(email, sc.name, sc.organization, sc.replyTo, sc.bcc, sc.signature,
                       HtmlFlag(sc.signature)))
  }

  /** The record list contributed by one mail value: empty when it is dropped. */
  function Kept(r: Option<Identity>): seq<Identity> {
    if r.Some? then [r.value] else []
  }

  /** The records of a run of mail values, in value order. */
  function ValueCandidates(values: seq<string>, sc: Scalars, cfg: Config): (r: seq<Identity>)
    ensures |r| <= |values|
    decreases |values|
  {
    if values == [] then []
    else ValueCandidates(values[..|values| - 1], sc, cfg) + Kept(MailCandidate(values[|values| - 1], sc, cfg))
  }

  /** The records of one entry. */
  function EntryCandidates(entry: Entry, cfg: Config): seq<Identity> {
    ValueCandidates(MailValues(entry, cfg.ldap), EntryScalars(entry, cfg.ldap), cfg)
  }

  /** The records of all entries, in entry order. */
  function Candidates(entries: seq<Entry>, cfg: Config): seq<Identity>
    decreases |entries|
  {
    if entries == [] then []
    else Candidates(entries[..|entries| - 1], cfg) + EntryCandidates(entries[|entries| - 1], cfg)
  }

  /** Lines 191-268: the outer loop over the entries; each entry's records are pushed
      after those of the entries before it. */
  method Extract(entries: seq<Entry>, cfg: Config) returns (identities: seq<Identity>)
    ensures identities == Candidates(entries, cfg)
  {
    identities := [];
    var i := 0;
    while i < |entries|
      invariant 0 <= i <= |entries|
      invariant identities == Candidates(entries[..i], cfg)
    {
      var found := EntryIdentities(entries[i], cfg);
      assert entries[..i + 1][..i] == entries[..i];
      identities := identities + found;
      i := i + 1;
    }
    assert entries[..|entries|] == entries;
  }

  /** Lines 196-267 for one entry: the scalar fields, then the inner loop over the
      values of the mail attribute. */
  method EntryIdentities(entry: Entry, cfg: Config) returns (found: seq<Identity>)
    ensures found == EntryCandidates(entry, cfg)
  {
    var name, organisation, reply, bcc, signature := "", "", "", "", "";
    if Truthy(cfg.ldap.attrName) { name := FirstValue(entry, cfg.ldap.attrName); }
    if Truthy(cfg.ldap.attrOrg) { organisation := FirstValue(entry, cfg.ldap.attrOrg); }
    if Truthy(cfg.ldap.attrReply) { reply := FirstValue(entry, cfg.ldap.attrReply); }
    if Truthy(cfg.ldap.attrBcc) { bcc := FirstValue(entry, cfg.ldap.attrBcc); }
    if Truthy(cfg.ldap.attrSig) { signature := FirstValue(entry, cfg.ldap.attrSig); }
    ghost var sc := EntryScalars(entry, cfg.ldap);
    assert sc == Scalars(OrEmpty(name), OrEmpty(organisation), OrEmpty(reply), OrEmpty(bcc),
                         OrEmpty(signature));

    found := [];
    var values := MailValues(entry, cfg.ldap);
    var mi := 0;
    while mi < |values|
      invariant 0 <= mi <= |values|
      invariant found == ValueCandidates(values[..mi], sc, cfg)
    {
      ValueCandidatesPrefix(values, mi, sc, cfg);
      var identity := MailIdentity(values[mi], name, organisation, reply, bcc, signature, cfg);
      if identity.Some? {
        found := found + [identity.value];
      }
      mi := mi + 1;
    }
    assert values[..|values|] == values;
  }

  /** Lines 229-262 for one mail value, given the entry's scalar fields as read at lines
      206-225: complete a bare local part, drop a value without `@` or with an ignored
      domain, otherwise build the record with falsy fields reset to "". The resets of
      lines 239-243 persist into later iterations in PHP; applying them again is a no-op,
      so doing them here for each value changes nothing. */
  method MailIdentity(value: string, name: string, organisation: string, reply: string,
                      bcc: string, signature: string, cfg: Config) returns (identity: Option<Identity>)
    ensures identity == MailCandidate(value, Scalars(OrEmpty(name), OrEmpty(organisation),
                                      OrEmpty(reply), OrEmpty(bcc), OrEmpty(signature)), cfg)
  {
    var email := value;
    if Truthy(email) && '@' !in email && Truthy(cfg.mail.findDomain) {
      email := email + "@" + cfg.mail.findDomain;
    }
    if '@' !in email {
      return None;
    }
    var domain := ExplodeSecond(email, "@");
    if domain in cfg.ldap.mailIgnore {
      return None;
    }
    var sig := OrEmpty(signature);
    var isHtml := if LooksLikeHtml(sig) then 1 else 0;
    identity := Some(Identity(email, OrEmpty(name), OrEmpty(organisation), OrEmpty(reply),
                              OrEmpty(bcc), sig, isHtml));
  }

  // ---------------------------------------------------------------- lemmas

  /** The sniff agrees with the regular expression `^\s*<[a-zA-Z]+`. */
  lemma {:induction false} LooksLikeHtmlIff(signature: string)
    ensures LooksLikeHtml(signature) <==> exists k: nat :: PatternMatchesAt(signature, k)
    decreases |signature|
  {
    if |signature| > 0 && IsSpace(signature[0]) {
      var rest := signature[1..];
      LooksLikeHtmlIff(rest);
      if exists k: nat :: PatternMatchesAt(rest, k) {
        var k: nat :| PatternMatchesAt(rest, k);
        assert PatternMatchesAt(signature, k + 1);
      }
      if exists k: nat :: PatternMatchesAt(signature, k) {
        var k: nat :| PatternMatchesAt(signature, k);
        assert k != 0;
        assert PatternMatchesAt(rest, k - 1);
      }
    } else {
      if exists k: nat :: PatternMatchesAt(signature, k) {
        var k: nat :| PatternMatchesAt(signature, k);
        if k > 0 {
          assert false;
        }
      }
      if LooksLikeHtml(signature) {
        assert PatternMatchesAt(signature, 0);
      }
    }
  }

  /** Value order: the records of two runs of values are the two runs' records. */
  lemma {:induction false} ValueCandidatesAppend(v1: seq<string>, v2: seq<string>, sc: Scalars, cfg: Config)
    ensures ValueCandidates(v1 + v2, sc, cfg) == ValueCandidates(v1, sc, cfg) + ValueCandidates(v2, sc, cfg)
    decreases |v2|
  {
    if v2 == [] {
      assert v1 + v2 == v1;
    } else {
      var v2' := v2[..|v2| - 1];
      assert (v1 + v2)[..|v1 + v2| - 1] == v1 + v2';
      assert (v1 + v2)[|v1 + v2| - 1] == v2[|v2| - 1];
      ValueCandidatesAppend(v1, v2', sc, cfg);
    }
  }

  /** Entry order: the records of two runs of entries are the two runs' records. */
  lemma {:induction false} CandidatesAppend(e1: seq<Entry>, e2: seq<Entry>, cfg: Config)
    ensures Candidates(e1 + e2, cfg) == Candidates(e1, cfg) + Candidates(e2, cfg)
    decreases |e2|
  {
    if e2 == [] {
      assert e1 + e2 == e1;
    } else {
      var e2' := e2[..|e2| - 1];
      assert (e1 + e2)[..|e1 + e2| - 1] == e1 + e2';
      assert (e1 + e2)[|e1 + e2| - 1] == e2[|e2| - 1];
      CandidatesAppend(e1, e2', cfg);
    }
  }

  /** The records of the first `mi + 1` values are those of the first `mi` and what
      value `mi` contributes. */
  lemma ValueCandidatesPrefix(values: seq<string>, mi: nat, sc: Scalars, cfg: Config)
    requires mi < |values|
    ensures ValueCandidates(values[..mi + 1], sc, cfg) ==
      ValueCandidates(values[..mi], sc, cfg) + Kept(MailCandidate(values[mi], sc, cfg))
  {
    assert values[..mi + 1][..mi] == values[..mi];
  }

  /** Every record of a run of values carries the entry's fields and passes the `@` and
      ignore tests. */
  lemma {:induction false} ValueCandidatesAcceptable(values: seq<string>, sc: Scalars, cfg: Config)
    ensures forall c :: c in ValueCandidates(values, sc, cfg) ==> Acceptable(c, cfg) && SharesScalars(c, sc)
    decreases |values|
  {
    if values != [] {
      ValueCandidatesAcceptable(values[..|values| - 1], sc, cfg);
    }
  }

  /** No extracted record lacks an `@` or has an ignored domain. */
  lemma {:induction false} CandidatesAcceptable(entries: seq<Entry>, cfg: Config)
    ensures forall c :: c in Candidates(entries, cfg) ==> Acceptable(c, cfg)
    decreases |entries|
  {
    if entries != [] {
      var e := entries[|entries| - 1];
      CandidatesAcceptable(entries[..|entries| - 1], cfg);
      ValueCandidatesAcceptable(MailValues(e, cfg.ldap), EntryScalars(e, cfg.ldap), cfg);
    }
  }

  /** A mail value that produces a record. */
  predicate Produces(values: seq<string>, j: int, sc: Scalars, cfg: Config, c: Identity) {
    0 <= j < |values| && MailCandidate(values[j], sc, cfg) == Some(c)
  }

  /** Every record of a run of values is produced by one of its values. */
  lemma {:induction false} ValueCandidatesFrom(values: seq<string>, sc: Scalars, cfg: Config, c: Identity)
    requires c in ValueCandidates(values, sc, cfg)
    ensures exists j :: Produces(values, j, sc, cfg, c)
    decreases |values|
  {
    var n := |values| - 1;
    var init := values[..n];
    if c in ValueCandidates(init, sc, cfg) {
      ValueCandidatesFrom(init, sc, cfg, c);
      var j :| Produces(init, j, sc, cfg, c);
      assert Produces(values, j, sc, cfg, c);
    } else {
      assert Produces(values, n, sc, cfg, c);
    }
  }

  /** Every record a value produces is among the records of its run. */
  lemma {:induction false} ValueCandidatesHas(values: seq<string>, j: int, sc: Scalars, cfg: Config, c: Identity)
    requires Produces(values, j, sc, cfg, c)
    ensures c in ValueCandidates(values, sc, cfg)
    decreases |values|
  {
    var n := |values| - 1;
    var init := values[..n];
    var last := MailCandidate(values[n], sc, cfg);
    assert ValueCandidates(values, sc, cfg) == ValueCandidates(init, sc, cfg) + Kept(last);
    if j < n {
      assert Produces(init, j, sc, cfg, c);
      ValueCandidatesHas(init, j, sc, cfg, c);
    } else {
      assert j == n;
      assert last == Some(c);
    }
  }

  /** An entry that produces a record. */
  predicate EntryProduces(entries: seq<Entry>, i: int, cfg: Config, c: Identity) {
    0 <= i < |entries| && c in EntryCandidates(entries[i], cfg)
  }

  /** Every extracted record comes from one of the entries. */
  lemma {:induction false} CandidatesFrom(entries: seq<Entry>, cfg: Config, c: Identity)
    requires c in Candidates(entries, cfg)
    ensures exists i :: EntryProduces(entries, i, cfg, c)
    decreases |entries|
  {
    var n := |entries| - 1;
    var init := entries[..n];
    if c in Candidates(init, cfg) {
      CandidatesFrom(init, cfg, c);
      var i :| EntryProduces(init, i, cfg, c);
      assert EntryProduces(entries, i, cfg, c);
    } else {
      assert EntryProduces(entries, n, cfg, c);
    }
  }

  /** Every record an entry produces is extracted. */
  lemma {:induction false} CandidatesHas(entries: seq<Entry>, i: int, cfg: Config, c: Identity)
    requires EntryProduces(entries, i, cfg, c)
    ensures c in Candidates(entries, cfg)
    decreases |entries|
  {
    var n := |entries| - 1;
    var init := entries[..n];
    assert Candidates(entries, cfg) == Candidates(init, cfg) + EntryCandidates(entries[n], cfg);
    if i < n {
      assert EntryProduces(init, i, cfg, c);
      CandidatesHas(init, i, cfg, c);
    } else {
      assert i == n;
    }
  }

  /** A mail value without `@` is kept, as `value@find_domain`, exactly when both are
      truthy and the first `@`-piece of `find_domain` is not ignored. */
  lemma BareValue(value: string, sc: Scalars, cfg: Config)
    requires '@' !in value
    ensures var r := MailCandidate(value, sc, cfg);
      (r.Some? <==> Truthy(value) && Truthy(cfg.mail.findDomain) &&
                    ExplodeFirst(cfg.mail.findDomain, "@") !in cfg.ldap.mailIgnore) &&
      (r.Some? ==> r.value.email == value + "@" + cfg.mail.findDomain)
  {
    StrStrChar(value, '@');
    var find := cfg.mail.findDomain;
    if Truthy(value) && Truthy(find) {
      assert value + "@" + find == value + ['@'] + find;
      ExplodeSecondOfJoined(value, '@', find);
      StrStrChar(value + "@" + find, '@');
    }
  }

  /** A mail value with `@` is kept as it is exactly when its second `@`-piece is not
      ignored. */
  lemma AddressValue(value: string, sc: Scalars, cfg: Config)
    requires '@' in value
    ensures var r := MailCandidate(value, sc, cfg);
      (r.Some? <==> ExplodeSecond(value, "@") !in cfg.ldap.mailIgnore) &&
      (r.Some? ==> r.value.email == value)
  {
    StrStrChar(value, '@');
  }

  /** An entry whose mail values are a bare `local` and `local@other`, with `other`
      ignored and `find_domain` usable, yields the one record `local@find_domain`;
      for instance `sales` and `sales@other.org` give only `sales@example.com`. */
  lemma CompletedAndIgnored(entry: Entry, cfg: Config, local: string, other: string)
    requires cfg.ldap.attrMail in entry && entry[cfg.ldap.attrMail] == [local, local + "@" + other]
    requires '@' !in local && Truthy(local) && '@' !in other && other in cfg.ldap.mailIgnore
    requires '@' !in cfg.mail.findDomain && Truthy(cfg.mail.findDomain)
    requires cfg.mail.findDomain !in cfg.ldap.mailIgnore
    ensures var sc := EntryScalars(entry, cfg.ldap);
      Candidates([entry], cfg) ==
        [Identity(local + "@" + cfg.mail.findDomain, sc.name, sc.organization, sc.replyTo,
                  sc.bcc, sc.signature, HtmlFlag(sc.signature))]
  {
    var sc := EntryScalars(entry, cfg.ldap);
    var find := cfg.mail.findDomain;
    var address := local + "@" + other;
    var values := [local, address];
    var kept := Identity(local + "@" + find, sc.name, sc.organization, sc.replyTo,
                         sc.bcc, sc.signature, HtmlFlag(sc.signature));
    // the bare value is completed and kept
    ContainsChar(find, '@');
    ExplodeFirstSpec(find, "@");
    BareValue(local, sc, cfg);
    assert MailCandidate(local, sc, cfg) == Some(kept);
    // the address is dropped: its domain is ignored
    assert address == local + ['@'] + other;
    ExplodeSecondOfJoined(local, '@', other);
    ContainsChar(other, '@');
    ExplodeFirstSpec(other, "@");
    AddressValue(address, sc, cfg);
    assert MailCandidate(address, sc, cfg) == None;
    // put together
    assert values[..1] == [local] && values[..1][..0] == [];
    assert ValueCandidates([local], sc, cfg) == [kept];
    assert ValueCandidates(values, sc, cfg) == ValueCandidates([local], sc, cfg);
    assert [entry][..0] == [];
    assert Candidates([entry], cfg) == Candidates([], cfg) + EntryCandidates(entry, cfg);
  }
}
