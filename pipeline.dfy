/** The whole `login_after` hook (ldapAliasSync.php, lines 136-323): resolve the login,
    expand the filter, search the directory, extract the candidate identities and
    reconcile the store with them. The directory search is a parameter. */
module AliasSync {
  import opened AliasSyncTypes
  import opened Php
  import Login
  import Filter
  import Extraction
  import Reconciliation

  /** The store after the hook, given what the directory returns for the filter:
      `None` when the search fails (line 184), entries otherwise. With no entry
      (line 187) the store is left alone. */
  function After(st: Reconciliation.StoreState, found: Option<seq<Entry>>, cfg: Config): Reconciliation.StoreState {
    if found.Some? && |found.value| >= 1 then
      Reconciliation.Sync(st, Extraction.Candidates(found.value, cfg))
    else st
  }

  /** Lines 136-323. `search` stands for `ldap_search` followed by `ldap_get_entries`
      under the configured base DN and attributes. The hook itself hands back its
      `$args` untouched (line 322); the method returns the expanded filter instead, so
      that its contract can name what the directory is searched with. */
  method LoginAfter(login: string, cfg: Config, search: string -> Option<seq<Entry>>,
                    store: Reconciliation.IdentityStore) returns (ldapFilter: string)
    requires store.Valid()
    modifies store
    ensures ldapFilter == Filter.ExpandFilter(cfg.ldap.filter, Login.Resolve(login, cfg.mail))
    ensures store.Valid()
    ensures store.State() == After(old(store.State()), search(ldapFilter), cfg)
  {
    var ctx := Login.Resolve(login, cfg.mail);
    ldapFilter := Filter.ExpandFilter(cfg.ldap.filter, ctx);
    var result := search(ldapFilter);
    if result.Some? {
      var info := result.value;
      if |info| >= 1 {
        var identities := Extraction.Extract(info, cfg);
        Reconciliation.Reconcile(store, identities);
      }
    }
  }

  /** A second login against an unchanged directory leaves the store as the first left it. */
  lemma AfterIdempotent(st: Reconciliation.StoreState, found: Option<seq<Entry>>, cfg: Config)
    ensures After(After(st, found, cfg), found, cfg) == After(st, found, cfg)
  {
    if found.Some? && |found.value| >= 1 {
      Reconciliation.SyncIdempotent(st, Extraction.Candidates(found.value, cfg));
    }
  }

  /** After a login that found entries yielding candidates, with identities already
      stored, the stored emails are exactly the directory's acceptable addresses; every
      one of them contains `@` and has a domain outside the ignore list. */
  lemma AfterEmails(st: Reconciliation.StoreState, entries: seq<Entry>, cfg: Config)
    requires |entries| >= 1 && |st.rows| > 0 && |Extraction.Candidates(entries, cfg)| > 0
    ensures Reconciliation.StoredEmails(After(st, Some(entries), cfg).rows) ==
      Reconciliation.CandidateEmails(Extraction.Candidates(entries, cfg))
    ensures forall e :: e in Reconciliation.StoredEmails(After(st, Some(entries), cfg).rows) ==>
      '@' in e && ExplodeSecond(e, "@") !in cfg.ldap.mailIgnore
  {
    var cands := Extraction.Candidates(entries, cfg);
    Reconciliation.SyncEmails(st, cands);
    Extraction.CandidatesAcceptable(entries, cfg);
    forall e | e in Reconciliation.StoredEmails(After(st, Some(entries), cfg).rows)
      ensures '@' in e && ExplodeSecond(e, "@") !in cfg.ldap.mailIgnore
    {
      var c :| c in cands && c.email == e;
    }
  }
}
