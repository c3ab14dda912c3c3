# ldapAliasSync login hook, modelled in Dafny

The Roundcube plugin ldapAliasSync runs a hook, `login_after`, each time a user logs in.
The hook looks the user up in an LDAP directory and reads the mail aliases stored there.
It then makes the user's Roundcube identities match those aliases. This project models
that hook as a pipeline of four parts and proves what each part guarantees.

- **Login resolution** (`login.dfy`, module `Login`). The login name is split into a local
  part and a domain part. `search_domain` is used as a fallback domain, or as an override
  when `replace_domain` is set. A Dovecot master-user suffix is stripped after the
  separator. The search address `local@domain` is then composed.
- **Filter expansion** (`filter.dfy`, module `Filter`). The placeholders `%login`, `%local`,
  `%domain` and `%email` of the configured LDAP filter are replaced by four `str_replace`
  calls, one after the other.
- **Identity extraction** (`extraction.dfy`, module `Extraction`). Every directory entry
  gives one candidate identity per acceptable mail value. A bare local part is completed
  with `find_domain`. A value without `@`, or whose domain is on the ignore list, is
  dropped. Name, organisation, reply-to, bcc and signature are the first value of their
  attribute. An HTML flag is sniffed from the signature. The loops are methods proved
  against specification functions.
- **Reconciliation** (`reconcile.dfy`, module `Reconciliation`). The identity store is a
  class holding rows and the next id. Candidates whose email is in no stored row are
  inserted. Then stored rows whose email no candidate has are deleted. The two nested
  loops are methods proved against `Sync`, a function on store states.
- The pipeline (`pipeline.dfy`, module `AliasSync`) chains the four parts. The PHP built-ins
  the hook relies on (`strstr`, `explode`, `str_replace`, `implode` and string truthiness)
  are in `php.dfy` (module `Php`). The configuration, entry and identity types are in
  `types.dfy` (module `AliasSyncTypes`).

Where the code's behaviour is easy to misread, the model follows the code:

- The `str_replace` calls run in sequence, so text inserted by one call is rescanned by the
  later ones (`Filter.ExpandRescansInsertedText`).
- Reconciliation is skipped when the stored identity list is empty, because an empty PHP
  array is falsy in the guard of line 270.
- Inserts are not deduplicated. Repeated candidate emails are each inserted, because every
  test is made against the listing taken before the first insert.
- The domain is the second `@`-piece of `explode('@', …)`, not everything after the first
  `@` (`Login.AtPieces`). The same holds for the ignore check on mail values.
- The separator test is made on the whole login, but the cut is applied to the local part.
- `"0"` is falsy wherever PHP tests a string.

## Model

| member | source | states |
|---|---|---|
| Php.OrEmpty | sources/plugins/ldapAliasSync/ldapAliasSync.php:239-243 | a truthy value is kept; a falsy one ("" or "0") becomes "" |
| Php.IndexFromSpec | sources/plugins/ldapAliasSync/ldapAliasSync.php:142-145 | the search used for `strstr`/`explode` finds the first occurrence of the needle: none before the offset it returns, and none at all when it returns nothing |
| Php.ContainsChar | sources/plugins/ldapAliasSync/ldapAliasSync.php:142 | for a one-character needle, "occurs in" is plain character membership |
| Php.StrStrChar | sources/plugins/ldapAliasSync/ldapAliasSync.php:231-234 | `strstr($s, '@')` as a condition is true exactly when `$s` holds an `@` (the tail it returns starts with `@`, so it is never falsy) |
| Php.ExplodeFirstSpec | sources/plugins/ldapAliasSync/ldapAliasSync.php:143-144 | `explode($sep, $s)[0]` holds no separator; with a separator present, `s` is that piece, the separator and the rest; with none, the piece is all of `s` |
| Php.ExplodeSecondOfJoined | sources/plugins/ldapAliasSync/ldapAliasSync.php:231-236 | for `$v.'@'.$d` with no `@` in `v`, the second `@`-piece is the first `@`-piece of `d` |
| Php.ReplaceAllNoMatch | sources/plugins/ldapAliasSync/ldapAliasSync.php:176-179 | `str_replace` returns a subject in which the needle does not occur unchanged |
| Php.ReplaceAllHead | sources/plugins/ldapAliasSync/ldapAliasSync.php:176-179 | an occurrence at the front is replaced and scanning resumes after it (the replacement is not rescanned by the same call) |
| Php.ReplaceAllSkips | sources/plugins/ldapAliasSync/ldapAliasSync.php:176-179 | a prefix without the needle's first character passes through `str_replace` untouched |
| Php.ReplaceAllFree | sources/plugins/ldapAliasSync/ldapAliasSync.php:176-179 | a subject without the needle's first character is unchanged |
| Php.ReplaceAllJoin | sources/plugins/ldapAliasSync/ldapAliasSync.php:176-179 | `str_replace($p, $r, implode($p, $parts)) == implode($r, $parts)` when no part holds `p`'s first character: every occurrence is replaced |
| Php.ReplaceAllJoinOther | sources/plugins/ldapAliasSync/ldapAliasSync.php:176-179 | replacing one placeholder leaves the occurrences of a different placeholder (differing at some position) untouched |
| Php.JoinFree | sources/plugins/ldapAliasSync/ldapAliasSync.php:176-179 | a character in neither the parts nor the glue is not in their `implode` |
| Php.ReplaceAllOtherHead | sources/plugins/ldapAliasSync/ldapAliasSync.php:176-179 | a different placeholder at the front (differing at some offset, holding the needle's first character only at its front) is passed over and scanning goes on after it |
| Php.ReplaceAllPassesOne | sources/plugins/ldapAliasSync/ldapAliasSync.php:176-179 | a text whose only needle-initial character opens one other placeholder comes back unchanged |
| Php.ReplaceAllPassesTwo | sources/plugins/ldapAliasSync/ldapAliasSync.php:176-179 | a text whose only needle-initial characters open two other placeholders comes back unchanged |
| Php.ReplaceAllFirstOfTwo | sources/plugins/ldapAliasSync/ldapAliasSync.php:176-179 | in a text holding the needle once and one other placeholder, only the needle is replaced |
| Php.ReplaceAllOne | sources/plugins/ldapAliasSync/ldapAliasSync.php:176-179 | in a text otherwise free of the needle's first character, its one occurrence is replaced |
| Login.Resolve | sources/plugins/ldapAliasSync/ldapAliasSync.php:142-171 | the domain is "" or truthy; the search address is `local@domain` when there is a domain and "" (with the domain "") otherwise |
| Login.ResolveWithoutAt | sources/plugins/ldapAliasSync/ldapAliasSync.php:150-171 | a login without `@` is its own local part; it gets `search_domain` as domain when that is truthy, and domain "" and address "" otherwise |
| Login.ResolveWithAt | sources/plugins/ldapAliasSync/ldapAliasSync.php:142-149 | a login with `@` gets `search_domain` when `replace_domain` and `search_domain` are both set, else its second `@`-piece (falsy reset to ""); the local part is the first piece |
| Login.AtPieces | sources/plugins/ldapAliasSync/ldapAliasSync.php:143-145 | the local part is the text before the first `@`; the domain is the text after it up to the next `@` (not everything after the first `@`) |
| Login.ImpersonationStripped | sources/plugins/ldapAliasSync/ldapAliasSync.php:158-163 | with the separator in the login, the local part is cut before its first separator (no separator is left, and the cut text is followed by one); otherwise it is unchanged |
| Login.ResolvePlainAddress | sources/plugins/ldapAliasSync/ldapAliasSync.php:142-171 | `local@domain` without a second `@` or separator and with `replace_domain` off resolves to its own parts and address |
| Login.ResolveMasterUser | sources/plugins/ldapAliasSync/ldapAliasSync.php:150-171 | a master-user login `user*master` without `@` resolves to `user` at `search_domain` |
| Filter.ExpandWithoutPlaceholders | sources/plugins/ldapAliasSync/ldapAliasSync.php:176-179 | a template holding none of `%login`, `%local`, `%domain`, `%email` is returned unchanged |
| Filter.ExpandLoginPlaceholder | sources/plugins/ldapAliasSync/ldapAliasSync.php:176 | every `%login` is replaced by the login (template text and login free of `%`) |
| Filter.ExpandLocalPlaceholder | sources/plugins/ldapAliasSync/ldapAliasSync.php:177 | every `%local` is replaced by the local part (template text and local part free of `%`) |
| Filter.ExpandDomainPlaceholder | sources/plugins/ldapAliasSync/ldapAliasSync.php:178 | every `%domain` is replaced by the domain part (template text and domain free of `%`) |
| Filter.ExpandLocalAndEmail | sources/plugins/ldapAliasSync/ldapAliasSync.php:176-179 | a template mixing one `%local` and one `%email` gets the local part and the search address in their places (surrounding text and local part free of `%`) |
| Filter.ExpandUidAndMail | sources/plugins/ldapAliasSync/ldapAliasSync.php:173-179 | `(&(uid=%local)(mail=%email))` becomes `(&(uid=` + local + `)(mail=` + address + `))` |
| Filter.ExpandDefaultFilter | sources/plugins/ldapAliasSync/ldapAliasSync.php:173-179 | the default `(uid=%local)` becomes `(uid=` + local part + `)` |
| Filter.ExpandEmailPlaceholder | sources/plugins/ldapAliasSync/ldapAliasSync.php:179 | every `%email` is replaced by the search address, whatever that address holds, since it is replaced last |
| Filter.ExpandRescansInsertedText | sources/plugins/ldapAliasSync/ldapAliasSync.php:176-179 | the calls run in order and rescan inserted text: a local part reading `%domain` is itself expanded to the domain |
| Extraction.ScalarField | sources/plugins/ldapAliasSync/ldapAliasSync.php:206-225 | a scalar field is "" or the truthy first value of its configured, present attribute, and is that value whenever it exists and is truthy |
| Extraction.LooksLikeHtmlIff | sources/plugins/ldapAliasSync/ldapAliasSync.php:246 | the sniff that sets the HTML flag to 1 (else 0) holds exactly when `/^\s*<[a-zA-Z]+/` matches, for some length of the leading white space |
| Extraction.MailCandidate | sources/plugins/ldapAliasSync/ldapAliasSync.php:229-262 | a record is only produced for an address with `@` whose second `@`-piece is not ignored, and carries the entry's fields and the signature's HTML flag |
| Extraction.ValueCandidates | sources/plugins/ldapAliasSync/ldapAliasSync.php:228-267 | at most one record per mail value |
| Extraction.MailIdentity | sources/plugins/ldapAliasSync/ldapAliasSync.php:229-262 | one mail value, with the early `continue`s and the falsy-to-"" resets, yields exactly the record (or nothing) the specification function gives |
| Extraction.EntryIdentities | sources/plugins/ldapAliasSync/ldapAliasSync.php:196-267 | the loop over one entry's mail values pushes exactly that entry's records, in value order |
| Extraction.Extract | sources/plugins/ldapAliasSync/ldapAliasSync.php:191-268 | the loop over the entries collects exactly the records of all entries, in entry order |
| Extraction.ValueCandidatesAppend | sources/plugins/ldapAliasSync/ldapAliasSync.php:228-267 | value order: the records of two runs of values are the first run's records followed by the second's |
| Extraction.CandidatesAppend | sources/plugins/ldapAliasSync/ldapAliasSync.php:194-268 | entry order: the records of two runs of entries are the first run's records followed by the second's |
| Extraction.ValueCandidatesAcceptable | sources/plugins/ldapAliasSync/ldapAliasSync.php:234-262 | every record of an entry has an `@`, a non-ignored domain, and the entry's name, organisation, reply-to, bcc, signature and HTML flag |
| Extraction.CandidatesAcceptable | sources/plugins/ldapAliasSync/ldapAliasSync.php:234-237 | no extracted record lacks an `@` or has an ignored domain |
| Extraction.ValueCandidatesFrom | sources/plugins/ldapAliasSync/ldapAliasSync.php:228-262 | every record of an entry comes from one of its mail values |
| Extraction.ValueCandidatesHas | sources/plugins/ldapAliasSync/ldapAliasSync.php:228-262 | every record a mail value produces is among the entry's records |
| Extraction.CandidatesFrom | sources/plugins/ldapAliasSync/ldapAliasSync.php:194-268 | every extracted record comes from one of the entries |
| Extraction.CandidatesHas | sources/plugins/ldapAliasSync/ldapAliasSync.php:194-268 | every record an entry produces is extracted |
| Extraction.BareValue | sources/plugins/ldapAliasSync/ldapAliasSync.php:231-237 | a value without `@` is kept, as `value@find_domain`, exactly when both are truthy and the first `@`-piece of `find_domain` is not ignored; otherwise it is dropped |
| Extraction.AddressValue | sources/plugins/ldapAliasSync/ldapAliasSync.php:234-237 | a value with `@` is kept unchanged exactly when its second `@`-piece is not ignored |
| Extraction.CompletedAndIgnored | sources/plugins/ldapAliasSync/ldapAliasSync.php:227-262 | values `[local, local@other]` with `other` ignored yield only `local@find_domain` |
| Reconciliation.IdentityStore.List | sources/plugins/ldapAliasSync/ldapAliasSync.php:270 | `list_identities()` returns the rows as they are |
| Reconciliation.IdentityStore.Insert | sources/plugins/ldapAliasSync/ldapAliasSync.php:283 | `insert_identity()` appends a row with the next id and keeps ids distinct and below the next id |
| Reconciliation.IdentityStore.Delete | sources/plugins/ldapAliasSync/ldapAliasSync.php:303 | `delete_identity()` removes the row with that id, changes nothing else and keeps the ids valid |
| Reconciliation.Without | sources/plugins/ldapAliasSync/ldapAliasSync.php:303 | the rows left are exactly the rows whose id differs |
| Reconciliation.InDb | sources/plugins/ldapAliasSync/ldapAliasSync.php:273-281 | `$in_db` is true exactly when some listed row has the candidate's email |
| Reconciliation.InLdap | sources/plugins/ldapAliasSync/ldapAliasSync.php:291-299 | `$in_ldap` is true exactly when some candidate has the row's email |
| Reconciliation.InsertIfMissing | sources/plugins/ldapAliasSync/ldapAliasSync.php:273-286 | one candidate is inserted exactly when no listed row has its email, and the store is otherwise untouched |
| Reconciliation.InsertMissing | sources/plugins/ldapAliasSync/ldapAliasSync.php:272-287 | the insert loop appends, under consecutive new ids, exactly the queued candidates against the snapshot |
| Reconciliation.DeleteUnlisted | sources/plugins/ldapAliasSync/ldapAliasSync.php:290-307 | the delete loop keeps, from the snapshot, exactly the rows some candidate's email matches, and leaves the rows inserted since |
| Reconciliation.Reconcile | sources/plugins/ldapAliasSync/ldapAliasSync.php:270-307 | the store after both loops is the specified outcome: unchanged without candidates or with an empty listing, else surviving rows followed by new ones; ids stay valid |
| Reconciliation.ToInsertCount | sources/plugins/ldapAliasSync/ldapAliasSync.php:272-287 | each candidate is inserted as often as it occurs, repeats included, when its email is in no listed row, and never otherwise |
| Reconciliation.ListedIff | sources/plugins/ldapAliasSync/ldapAliasSync.php:290-307 | a listed row survives exactly when some candidate has its email |
| Reconciliation.ToInsertNone | sources/plugins/ldapAliasSync/ldapAliasSync.php:272-287 | when every candidate's email is already stored nothing is inserted |
| Reconciliation.ListedAll | sources/plugins/ldapAliasSync/ldapAliasSync.php:290-307 | when every stored email is a candidate's nothing is deleted |
| Reconciliation.NumberedAt | sources/plugins/ldapAliasSync/ldapAliasSync.php:283 | the k-th inserted row has id `next + k` and holds the k-th queued candidate |
| Reconciliation.NumberedRow | sources/plugins/ldapAliasSync/ldapAliasSync.php:283 | an inserted row holds a queued candidate and an id in `[next, next + count)` |
| Reconciliation.WithoutUnique | sources/plugins/ldapAliasSync/ldapAliasSync.php:303 | with distinct ids, deleting a row's id removes that row and no other |
| Reconciliation.SyncValid | sources/plugins/ldapAliasSync/ldapAliasSync.php:270-307 | a run keeps ids distinct and below the next id |
| Reconciliation.SyncEmails | sources/plugins/ldapAliasSync/ldapAliasSync.php:270-307 | after a run that is not skipped, the set of stored emails equals the set of candidate emails |
| Reconciliation.SyncIdempotent | sources/plugins/ldapAliasSync/ldapAliasSync.php:270-307 | a second run with the same candidates inserts and deletes nothing |
| Reconciliation.SyncKeeps | sources/plugins/ldapAliasSync/ldapAliasSync.php:290-307 | a stored row is still there after a run exactly when some candidate has its email; no other stored row changes |
| Reconciliation.SyncAdds | sources/plugins/ldapAliasSync/ldapAliasSync.php:272-287 | every row a run adds is a candidate whose email was not stored, under an id at or above the old next id |
| Reconciliation.SyncExample | sources/plugins/ldapAliasSync/ldapAliasSync.php:270-307 | stored a and b, candidates b (another name) and c: a is deleted, b's row stays as stored, c is added under the next id |
| AliasSync.LoginAfter | sources/plugins/ldapAliasSync/ldapAliasSync.php:136-323 | the hook returns the expanded filter for the resolved login; the store changes only when the search succeeds with at least one entry, and then as reconciliation with the extracted records |
| AliasSync.AfterIdempotent | sources/plugins/ldapAliasSync/ldapAliasSync.php:182-307 | logging in twice against an unchanged directory leaves the store as the first login left it |
| AliasSync.AfterEmails | sources/plugins/ldapAliasSync/ldapAliasSync.php:182-307 | after a login that found entries yielding records, with identities stored, the stored emails are exactly the directory's acceptable addresses, each with `@` and a non-ignored domain |

## Left out

- `init()` (configuration loading, `ldap_connect`, `ldap_bind`, hook registration) is not
  modelled. The configuration is an immutable input value.
- `ldap_search`, `ldap_get_entries` and `ldap_close` are not modelled. `AliasSync.LoginAfter`
  takes the search as a function from the filter to `None` (the search failed) or to the
  entries it returned. The base DN and the attribute list are fixed inside that function.
- AliasSync.LoginAfter: the PHP hook returns its `$args` unchanged (line 322), and that
  pass-through is not modelled. The method returns the expanded filter instead. This lets
  its contract name the filter the search is called with.
- `write_log`, the `echo` in the `catch` block and exception handling are diagnostics and
  are not modelled. This includes the delete log message, which formats an undefined
  variable.
- The host calls `get_username`, `list_identities`, `insert_identity` and `delete_identity`
  act on an in-memory store. Roundcube's own rules are not modelled: its storage, soft
  deletion, and its refusal to delete a user's last identity.
- Equality is not PHP's loose `==` or `in_array`. Email comparisons and the ignore-list test
  use exact string equality, so numeric-looking strings that PHP would equate are treated
  as different.
- An empty Dovecot separator is treated as absent: the impersonation test is false and the
  local part is kept. This is what PHP 5 and 7 do, where `strstr` with an empty needle warns
  and returns false, so the test at line 158 fails. PHP 8 behaves differently and is not
  modelled. There `strstr($login, '')` returns the login, so the test passes, and
  `explode('', …)` at line 162 throws a `ValueError`. `catch (Exception $e)` at line 319 does
  not catch that error, so the hook aborts.
- `$organization` (reset per entry) and `$organisation` (read and written) are one field.
  It is reassigned for every entry when the organisation attribute is configured, and stays
  `""` otherwise, so the spelling difference has no visible effect.
- Strings are sequences of characters. Byte encodings and multibyte behaviour of the PHP
  string functions are not modelled. PCRE's `\s` is the six ASCII white-space characters.
- Reconciliation.IdentityStore.List: returns the rows in insertion order; the order in
  which the host lists identities is not modelled.
