/** Reconciliation: the stored identities brought in line with the extracted ones,
    keyed by email (ldapAliasSync.php, lines 270-307). The host's identity store
    (`list_identities`, `insert_identity`, `delete_identity`) is an in-memory class. */
module Reconciliation {
  import opened AliasSyncTypes

  /** One row of the store: its `identity_id` and the identity. */
  datatype StoredIdentity = StoredIdentity(id: nat, identity: Identity)

  /** The whole store: its rows, in listing order, and the id the next insert gets. */
  datatype StoreState = StoreState(rows: seq<StoredIdentity>, nextId: nat)

  function Ids(rows: seq<StoredIdentity>): set<nat> {
    set r | r in rows :: r.id
  }

  /** No id occurs twice: each row's id is absent from the rows after it. */
  predicate DistinctIds(rows: seq<StoredIdentity>)
    decreases |rows|
  {
    rows == [] || (rows[0].id !in Ids(rows[1..]) && DistinctIds(rows[1..]))
  }

  /** Every row's id is below `bound`. */
  predicate IdsBelow(rows: seq<StoredIdentity>, bound: nat)
    decreases |rows|
  {
    rows == [] || (rows[0].id < bound && IdsBelow(rows[1..], bound))
  }

  /** Ids are unique and all below the next id to hand out. */
  predicate ValidState(st: StoreState) {
    DistinctIds(st.rows) && IdsBelow(st.rows, st.nextId)
  }

  function CandidateEmails(cands: seq<Identity>): set<string> {
    set c | c in cands :: c.email
  }

  function StoredEmails(rows: seq<StoredIdentity>): set<string> {
    set r | r in rows :: r.identity.email
  }

  // ------------------------------------------------------------ specification

  /** Lines 272-287: the candidates whose email is in no listed row, in candidate order
      and with repeats (the listing is the snapshot taken before any insert). */
  function ToInsert(cands: seq<Identity>, listing: seq<StoredIdentity>): seq<Identity>
    decreases |cands|
  {
    if cands == [] then []
    else
      var last := cands[|cands| - 1];
      ToInsert(cands[..|cands| - 1], listing) +
        (if last.email in StoredEmails(listing) then [] else [last])
  }

  /** Lines 290-307: the listed rows that survive, those whose email some candidate has. */
  function Listed(rows: seq<StoredIdentity>, cands: seq<Identity>): seq<StoredIdentity>
    decreases |rows|
  {
    if rows == [] then []
    else
      var last := rows[|rows| - 1];
      Listed(rows[..|rows| - 1], cands) +
        (if last.identity.email in CandidateEmails(cands) then [last] else [])
  }

  /** The rows that inserting `ins` one by one appends, numbered from `base`. */
  function Numbered(ins: seq<Identity>, base: nat): (r: seq<StoredIdentity>)
    ensures |r| == |ins|
    decreases |ins|
  {
    if ins == [] then []
    else Numbered(ins[..|ins| - 1], base) + [StoredIdentity(base + |ins| - 1, ins[|ins| - 1])]
  }

  /** The store after lines 270-307. Nothing happens unless there are candidates AND the
      listing is non-empty: an empty PHP array is falsy in the guard of line 270. */
  function Sync(st: StoreState, cands: seq<Identity>): StoreState {
    if |cands| > 0 && |st.rows| > 0 then
      var ins := ToInsert(cands, st.rows);
      StoreState(Listed(st.rows, cands) + Numbered(ins, st.nextId), st.nextId + |ins|)
    else st
  }

  /** `$rows` without the row whose id is `id`. */
  function Without(rows: seq<StoredIdentity>, id: nat): (r: seq<StoredIdentity>)
    ensures forall x :: x in r <==> x in rows && x.id != id
    decreases |rows|
  {
    if rows == [] then []
    else (if rows[0].id == id then [] else [rows[0]]) + Without(rows[1..], id)
  }

  // ------------------------------------------------------------------ store

  /** The host's identity store. */
  class IdentityStore {
    var rows: seq<StoredIdentity>
    var nextId: nat

    function State(): StoreState
      reads this
    {
      StoreState(rows, nextId)
    }

    ghost predicate Valid()
      reads this
    {
      ValidState(State())
    }

    constructor ()
      ensures Valid() && State() == StoreState([], 0)
    {
      rows := [];
      nextId := 0;
    }

    /** `list_identities()`: every row, in store order. */
    method List() returns (listing: seq<StoredIdentity>)
      ensures listing == rows
    {
      listing := rows;
    }

    /** `insert_identity($identity)`: a new row with a fresh id, appended. */
    method Insert(identity: Identity)
      requires Valid()
      modifies this
      ensures Valid()
      ensures rows == old(rows) + [StoredIdentity(old(nextId), identity)]
      ensures nextId == old(nextId) + 1
    {
      BelowSnoc(rows, StoredIdentity(nextId, identity));
      rows := rows + [StoredIdentity(nextId, identity)];
      nextId := nextId + 1;
    }

    /** `delete_identity($id)`: the row with that id is removed. */
    method Delete(id: nat)
      requires Valid()
      modifies this
      ensures Valid()
      ensures rows == Without(old(rows), id)
      ensures nextId == old(nextId)
    {
      WithoutDistinct(rows, id);
      WithoutBelow(rows, id, nextId);
      rows := Without(rows, id);
    }
  }

  // ------------------------------------------------------------- operations

  /** Lines 273-281: does a listed row carry this identity's email? */
  method InDb(identity: Identity, dbIdentities: seq<StoredIdentity>) returns (inDb: bool)
    ensures inDb <==> identity.email in StoredEmails(dbIdentities)
  {
    inDb := false;
    var k := 0;
    while k < |dbIdentities|
      invariant 0 <= k <= |dbIdentities|
      invariant forall l :: 0 <= l < k ==> dbIdentities[l].identity.email != identity.email
    {
      if dbIdentities[k].identity.email == identity.email {
        inDb := true;
        break;
      }
      k := k + 1;
    }
  }

  /** Lines 291-299: does some candidate carry this row's email? */
  method InLdap(dbIdentity: StoredIdentity, identities: seq<Identity>) returns (inLdap: bool)
    ensures inLdap <==> dbIdentity.identity.email in CandidateEmails(identities)
  {
    inLdap := false;
    var k := 0;
    while k < |identities|
      invariant 0 <= k <= |identities|
      invariant forall l :: 0 <= l < k ==> identities[l].email != dbIdentity.identity.email
    {
      if dbIdentity.identity.email == identities[k].email {
        inLdap := true;
        break;
      }
      k := k + 1;
    }
  }

  /** Lines 270-307: the guard, the insert loop over the candidates against the listing
      taken before it, then the delete loop over that listing. */
  method Reconcile(store: IdentityStore, identities: seq<Identity>)
    requires store.Valid()
    modifies store
    ensures store.Valid()
    ensures store.State() == Sync(old(store.State()), identities)
  {
    if |identities| == 0 {
      return;
    }
    var dbIdentities := store.List();
    if |dbIdentities| == 0 {
      return;
    }
    InsertMissing(store, identities, dbIdentities);
    DeleteUnlisted(store, identities, dbIdentities);
  }

  /** Lines 272-287: every candidate whose email is in no row of the listing is
      inserted, repeats included. */
  method InsertMissing(store: IdentityStore, identities: seq<Identity>, dbIdentities: seq<StoredIdentity>)
    requires store.Valid() && store.rows == dbIdentities
    modifies store
    ensures store.Valid()
    ensures store.rows == dbIdentities + Numbered(ToInsert(identities, dbIdentities), old(store.nextId))
    ensures store.nextId == old(store.nextId) + |ToInsert(identities, dbIdentities)|
  {
    ghost var base := store.nextId;
    ghost var queued: seq<Identity> := [];
    var i := 0;
    while i < |identities|
      invariant 0 <= i <= |identities|
      invariant queued == ToInsert(identities[..i], dbIdentities)
      invariant store.Valid()
      invariant store.rows == dbIdentities + Numbered(queued, base)
      invariant store.nextId == base + |queued|
    {
      InsertStep(identities, dbIdentities, i);
      AppendNumbered(dbIdentities, queued, identities[i], base);
      var inserted := InsertIfMissing(store, identities[i], dbIdentities);
      if inserted {
        queued := queued + [identities[i]];
      }
      i := i + 1;
    }
    assert identities[..i] == identities;
  }

  /** Lines 273-286, one candidate: inserted when no row of the listing has its email. */
  method InsertIfMissing(store: IdentityStore, identity: Identity, dbIdentities: seq<StoredIdentity>)
    returns (inserted: bool)
    requires store.Valid()
    modifies store
    ensures store.Valid()
    ensures inserted <==> identity.email !in StoredEmails(dbIdentities)
    ensures inserted ==> store.rows == old(store.rows) + [StoredIdentity(old(store.nextId), identity)]
    ensures inserted ==> store.nextId == old(store.nextId) + 1
    ensures !inserted ==> store.rows == old(store.rows) && store.nextId == old(store.nextId)
  {
    var inDb := InDb(identity, dbIdentities);
    inserted := !inDb;
    if inserted {
      store.Insert(identity);
    }
  }

  /** Lines 290-307: every row of the listing whose email no candidate has is deleted;
      the rows inserted since stay. */
  method DeleteUnlisted(store: IdentityStore, identities: seq<Identity>, dbIdentities: seq<StoredIdentity>)
    requires store.Valid()
    requires |dbIdentities| <= |store.rows| && store.rows[..|dbIdentities|] == dbIdentities
    modifies store
    ensures store.Valid()
    ensures store.rows == Listed(dbIdentities, identities) + old(store.rows)[|dbIdentities|..]
    ensures store.nextId == old(store.nextId)
  {
    ghost var rows0 := store.rows;
    var j := 0;
    while j < |dbIdentities|
      invariant 0 <= j <= |dbIdentities|
      invariant store.Valid() && store.nextId == old(store.nextId)
      invariant store.rows == Listed(dbIdentities[..j], identities) + rows0[j..]
    {
      var row := dbIdentities[j];
      DeleteStep(dbIdentities, identities, rows0, j);
      var inLdap := InLdap(row, identities);
      if !inLdap {
        store.Delete(row.id);
      }
      j := j + 1;
    }
    assert dbIdentities[..j] == dbIdentities;
  }

  // ---------------------------------------------------------------- lemmas

  /** One round of the insert loop: the next candidate is queued iff its email is new. */
  lemma InsertStep(cands: seq<Identity>, listing: seq<StoredIdentity>, i: nat)
    requires i < |cands|
    ensures cands[i].email in StoredEmails(listing) ==>
      ToInsert(cands[..i + 1], listing) == ToInsert(cands[..i], listing)
    ensures cands[i].email !in StoredEmails(listing) ==>
      ToInsert(cands[..i + 1], listing) == ToInsert(cands[..i], listing) + [cands[i]]
  {
    assert cands[..i + 1][..i] == cands[..i];
  }

  /** Inserting one more queued candidate appends its numbered row. */
  lemma AppendNumbered(db: seq<StoredIdentity>, queued: seq<Identity>, c: Identity, base: nat)
    ensures (db + Numbered(queued, base)) + [StoredIdentity(base + |queued|, c)] ==
      db + Numbered(queued + [c], base)
  {
    assert (queued + [c])[..|queued|] == queued;
  }

  /** One round of the delete loop, on the rows: the next listed row stays when a
      candidate has its email and is the one row `Without` removes otherwise. */
  lemma DeleteStep(db: seq<StoredIdentity>, cands: seq<Identity>, rows0: seq<StoredIdentity>, j: nat)
    requires j < |db| <= |rows0| && rows0[..|db|] == db
    requires DistinctIds(Listed(db[..j], cands) + rows0[j..])
    ensures var kept := Listed(db[..j], cands);
      var after := Listed(db[..j + 1], cands) + rows0[j + 1..];
      if db[j].identity.email in CandidateEmails(cands) then after == kept + rows0[j..]
      else after == Without(kept + rows0[j..], db[j].id)
  {
    var kept := Listed(db[..j], cands);
    assert db[..j + 1][..j] == db[..j];
    assert rows0[..|db|][j] == rows0[j];
    var row := db[j];
    assert rows0[j..] == [row] + rows0[j + 1..];
    if row.identity.email in CandidateEmails(cands) {
      assert kept + ([row] + rows0[j + 1..]) == (kept + [row]) + rows0[j + 1..];
    } else {
      WithoutUnique(kept, row, rows0[j + 1..]);
    }
  }

  /** A row numbered at the bound can be appended: ids stay distinct and below the
      bound raised by one. */
  lemma {:induction false} BelowSnoc(rows: seq<StoredIdentity>, x: StoredIdentity)
    requires DistinctIds(rows) && IdsBelow(rows, x.id)
    ensures DistinctIds(rows + [x]) && IdsBelow(rows + [x], x.id + 1)
    decreases |rows|
  {
    if rows != [] {
      assert (rows + [x])[1..] == rows[1..] + [x];
      BelowSnoc(rows[1..], x);
      BelowIds(rows, x.id);
    }
    DistinctSnoc(rows, x);
  }

  /** Ids below a bound do not include it. */
  lemma {:induction false} BelowIds(rows: seq<StoredIdentity>, bound: nat)
    requires IdsBelow(rows, bound)
    ensures bound !in Ids(rows)
    decreases |rows|
  {
    if rows != [] {
      BelowIds(rows[1..], bound);
      forall r | r in rows
        ensures r.id != bound
      {
        if r != rows[0] {
          assert r in rows[1..];
        }
      }
    }
  }

  /** Removing rows keeps the ids below the bound. */
  lemma {:induction false} WithoutBelow(rows: seq<StoredIdentity>, id: nat, bound: nat)
    requires IdsBelow(rows, bound)
    ensures IdsBelow(Without(rows, id), bound)
    decreases |rows|
  {
    if rows != [] {
      WithoutBelow(rows[1..], id, bound);
      var tail := Without(rows[1..], id);
      if rows[0].id == id {
        assert Without(rows, id) == tail;
      } else {
        var w := Without(rows, id);
        assert w == [rows[0]] + tail;
        assert w[0] == rows[0] && w[1..] == tail;
      }
    }
  }

  /** A row whose id is new may be appended to distinct rows. */
  lemma {:induction false} DistinctSnoc(rows: seq<StoredIdentity>, x: StoredIdentity)
    requires DistinctIds(rows) && x.id !in Ids(rows)
    ensures DistinctIds(rows + [x])
    decreases |rows|
  {
    if rows != [] {
      assert (rows + [x])[1..] == rows[1..] + [x];
      DistinctSnoc(rows[1..], x);
    }
  }

  /** Removing an id keeps the remaining ids distinct. */
  lemma {:induction false} WithoutDistinct(rows: seq<StoredIdentity>, id: nat)
    requires DistinctIds(rows)
    ensures DistinctIds(Without(rows, id))
    decreases |rows|
  {
    if rows != [] {
      WithoutDistinct(rows[1..], id);
      var tail := Without(rows[1..], id);
      assert Ids(tail) <= Ids(rows[1..]) by {
        forall i | i in Ids(tail) ensures i in Ids(rows[1..]) {
          var r :| r in tail && r.id == i;
          assert r in rows[1..];
        }
      }
      if rows[0].id == id {
        assert Without(rows, id) == tail;
      } else {
        var w := Without(rows, id);
        assert w == [rows[0]] + tail;
        assert w[0] == rows[0] && w[1..] == tail;
      }
    }
  }

  /** A row whose id occurs nowhere else is the only one `Without` removes. */
  lemma {:induction false} WithoutUnique(a: seq<StoredIdentity>, x: StoredIdentity, b: seq<StoredIdentity>)
    requires DistinctIds(a + ([x] + b))
    ensures Without(a + ([x] + b), x.id) == a + b
    decreases |a|
  {
    var s := a + ([x] + b);
    if a == [] {
      assert s == [x] + b && s[1..] == b;
      WithoutAbsent(b, x.id);
    } else {
      assert s[0] == a[0] && s[1..] == a[1..] + ([x] + b);
      assert x in s[1..];
      WithoutUnique(a[1..], x, b);
      assert a + b == [a[0]] + (a[1..] + b);
    }
  }

  /** `Without` leaves rows alone when none has the id. */
  lemma {:induction false} WithoutAbsent(b: seq<StoredIdentity>, id: nat)
    requires id !in Ids(b)
    ensures Without(b, id) == b
    decreases |b|
  {
    if b != [] {
      assert b[0] in b;
      assert Ids(b[1..]) <= Ids(b) by {
        forall i | i in Ids(b[1..]) ensures i in Ids(b) {
          var r :| r in b[1..] && r.id == i;
          assert r in b;
        }
      }
      WithoutAbsent(b[1..], id);
      assert [b[0]] + b[1..] == b;
    }
  }

  // ------------------------------------------------------ properties of Sync

  /** The rows `Numbered` appends hold the queued identities in order, ids counting up from `base`. */
  lemma {:induction false} NumberedAt(ins: seq<Identity>, base: nat, k: nat)
    requires k < |ins|
    ensures Numbered(ins, base)[k] == StoredIdentity(base + k, ins[k])
    decreases |ins|
  {
    var init := ins[..|ins| - 1];
    if k < |init| {
      NumberedAt(init, base, k);
    }
  }

  /** A numbered row holds a queued identity and an id in `[base, base + |ins|)`. */
  lemma NumberedRow(ins: seq<Identity>, base: nat, r: StoredIdentity)
    requires r in Numbered(ins, base)
    ensures r.identity in ins && base <= r.id < base + |ins|
  {
    var k :| 0 <= k < |Numbered(ins, base)| && Numbered(ins, base)[k] == r;
    NumberedAt(ins, base, k);
  }

  /** Each queued identity gets a numbered row. */
  lemma NumberedHas(ins: seq<Identity>, base: nat, c: Identity)
    requires c in ins
    ensures exists r :: r in Numbered(ins, base) && r.identity == c
  {
    var k :| 0 <= k < |ins| && ins[k] == c;
    NumberedAt(ins, base, k);
    assert Numbered(ins, base)[k] in Numbered(ins, base);
  }

  /** Lines 272-287 insert each candidate as often as it occurs, unless a listed row
      already has its email. */
  lemma {:induction false} ToInsertCount(cands: seq<Identity>, listing: seq<StoredIdentity>, c: Identity)
    ensures multiset(ToInsert(cands, listing))[c] ==
      if c.email in StoredEmails(listing) then 0 else multiset(cands)[c]
    decreases |cands|
  {
    if cands != [] {
      var init := cands[..|cands| - 1];
      ToInsertCount(init, listing, c);
      assert cands == init + [cands[|cands| - 1]];
    }
  }

  /** Lines 290-307 keep a listed row exactly when some candidate has its email. */
  lemma {:induction false} ListedIff(rows: seq<StoredIdentity>, cands: seq<Identity>, r: StoredIdentity)
    ensures r in Listed(rows, cands) <==> r in rows && r.identity.email in CandidateEmails(cands)
    decreases |rows|
  {
    if rows != [] {
      var init := rows[..|rows| - 1];
      ListedIff(init, cands, r);
      assert rows == init + [rows[|rows| - 1]];
    }
  }

  /** When every candidate's email is already stored, nothing is inserted. */
  lemma {:induction false} ToInsertNone(cands: seq<Identity>, listing: seq<StoredIdentity>)
    requires forall c :: c in cands ==> c.email in StoredEmails(listing)
    ensures ToInsert(cands, listing) == []
    decreases |cands|
  {
    if cands != [] {
      var init := cands[..|cands| - 1];
      assert cands[|cands| - 1] in cands;
      forall c | c in init ensures c.email in StoredEmails(listing) {
        assert c in cands;
      }
      ToInsertNone(init, listing);
    }
  }

  /** When every row's email is a candidate's, nothing is deleted. */
  lemma {:induction false} ListedAll(rows: seq<StoredIdentity>, cands: seq<Identity>)
    requires forall r :: r in rows ==> r.identity.email in CandidateEmails(cands)
    ensures Listed(rows, cands) == rows
    decreases |rows|
  {
    if rows != [] {
      var init := rows[..|rows| - 1];
      assert rows[|rows| - 1] in rows;
      forall r | r in init ensures r.identity.email in CandidateEmails(cands) {
        assert r in rows;
      }
      ListedAll(init, cands);
      assert rows == init + [rows[|rows| - 1]];
    }
  }

  /** After a run that is not skipped, the stored emails are exactly the candidates' emails. */
  lemma SyncEmails(st: StoreState, cands: seq<Identity>)
    requires |cands| > 0 && |st.rows| > 0
    ensures StoredEmails(Sync(st, cands).rows) == CandidateEmails(cands)
  {
    var ins := ToInsert(cands, st.rows);
    var kept := Listed(st.rows, cands);
    var added := Numbered(ins, st.nextId);
    var rows := Sync(st, cands).rows;
    assert rows == kept + added;
    forall e | e in StoredEmails(rows) ensures e in CandidateEmails(cands) {
      var r :| r in rows && r.identity.email == e;
      if r in kept {
        ListedIff(st.rows, cands, r);
      } else {
        NumberedRow(ins, st.nextId, r);
        ToInsertCount(cands, st.rows, r.identity);
        assert r.identity in cands;
      }
    }
    forall e | e in CandidateEmails(cands) ensures e in StoredEmails(rows) {
      var c :| c in cands && c.email == e;
      if e in StoredEmails(st.rows) {
        var r :| r in st.rows && r.identity.email == e;
        ListedIff(st.rows, cands, r);
        assert r in rows;
      } else {
        ToInsertCount(cands, st.rows, c);
        assert c in ins;
        NumberedHas(ins, st.nextId, c);
        var r :| r in added && r.identity == c;
        assert r in rows;
      }
    }
  }

  /** A second run with the same candidates changes nothing. */
  lemma SyncIdempotent(st: StoreState, cands: seq<Identity>)
    ensures Sync(Sync(st, cands), cands) == Sync(st, cands)
  {
    var once := Sync(st, cands);
    if |cands| > 0 && |st.rows| > 0 && |once.rows| > 0 {
      SyncEmails(st, cands);
      forall c | c in cands ensures c.email in StoredEmails(once.rows) {
      }
      ToInsertNone(cands, once.rows);
      forall r | r in once.rows ensures r.identity.email in CandidateEmails(cands) {
      }
      ListedAll(once.rows, cands);
      assert Numbered([], once.nextId) == [];
      assert once.rows + [] == once.rows;
    }
  }

  lemma IdsConcat(a: seq<StoredIdentity>, b: seq<StoredIdentity>)
    ensures Ids(a + b) == Ids(a) + Ids(b)
  {
    forall i | i in Ids(a + b) ensures i in Ids(a) + Ids(b) {
      var r :| r in a + b && r.id == i;
    }
    forall i | i in Ids(a) + Ids(b) ensures i in Ids(a + b) {
      if i in Ids(a) {
        var r :| r in a && r.id == i;
        assert r in a + b;
      } else {
        var r :| r in b && r.id == i;
        assert r in a + b;
      }
    }
  }

  /** Two runs of distinct ids with no id in common concatenate to distinct ids. */
  lemma {:induction false} DistinctConcat(a: seq<StoredIdentity>, b: seq<StoredIdentity>)
    requires DistinctIds(a) && DistinctIds(b) && Ids(a) !! Ids(b)
    ensures DistinctIds(a + b)
    decreases |a|
  {
    if a != [] {
      assert (a + b)[1..] == a[1..] + b;
      IdsConcat(a[1..], b);
      assert a[0] in a;
      IdsConcat([a[0]], a[1..]);
      assert a == [a[0]] + a[1..];
      DistinctConcat(a[1..], b);
    } else {
      assert a + b == b;
    }
  }

  /** The rows before the last one of distinct rows are distinct and lack its id. */
  lemma {:induction false} DistinctInit(a: seq<StoredIdentity>, x: StoredIdentity)
    requires DistinctIds(a + [x])
    ensures DistinctIds(a) && x.id !in Ids(a)
    decreases |a|
  {
    if a != [] {
      assert (a + [x])[1..] == a[1..] + [x];
      DistinctInit(a[1..], x);
      assert x in a[1..] + [x];
      IdsConcat(a[1..], [x]);
      IdsConcat([a[0]], a[1..]);
      assert a == [a[0]] + a[1..];
    }
  }

  /** The surviving rows keep distinct ids, all taken from the listing. */
  lemma {:induction false} ListedDistinct(rows: seq<StoredIdentity>, cands: seq<Identity>)
    requires DistinctIds(rows)
    ensures DistinctIds(Listed(rows, cands)) && Ids(Listed(rows, cands)) <= Ids(rows)
    decreases |rows|
  {
    if rows != [] {
      var init := rows[..|rows| - 1];
      var last := rows[|rows| - 1];
      assert rows == init + [last];
      DistinctInit(init, last);
      ListedDistinct(init, cands);
      IdsConcat(init, [last]);
      var kept := Listed(init, cands);
      if last.identity.email in CandidateEmails(cands) {
        DistinctSnoc(kept, last);
        IdsConcat(kept, [last]);
      } else {
        assert Listed(rows, cands) == kept + [] == kept;
      }
    }
  }

  /** Numbered rows have distinct ids. */
  lemma {:induction false} NumberedDistinct(ins: seq<Identity>, base: nat)
    ensures DistinctIds(Numbered(ins, base))
    decreases |ins|
  {
    if ins != [] {
      var init := ins[..|ins| - 1];
      var x := StoredIdentity(base + |init|, ins[|ins| - 1]);
      NumberedDistinct(init, base);
      if x.id in Ids(Numbered(init, base)) {
        var r :| r in Numbered(init, base) && r.id == x.id;
        NumberedRow(init, base, r);
      }
      DistinctSnoc(Numbered(init, base), x);
    }
  }

  /** `IdsBelow` says that every row's id is below the bound. */
  lemma {:induction false} BelowIff(rows: seq<StoredIdentity>, bound: nat)
    ensures IdsBelow(rows, bound) <==> forall r :: r in rows ==> r.id < bound
    decreases |rows|
  {
    if rows != [] {
      BelowIff(rows[1..], bound);
      assert rows == [rows[0]] + rows[1..];
    }
  }

  /** A run keeps the store's ids distinct and below the next id. */
  lemma SyncValid(st: StoreState, cands: seq<Identity>)
    requires ValidState(st)
    ensures ValidState(Sync(st, cands))
  {
    if |cands| > 0 && |st.rows| > 0 {
      var ins := ToInsert(cands, st.rows);
      var kept := Listed(st.rows, cands);
      var added := Numbered(ins, st.nextId);
      var after := Sync(st, cands);
      ListedDistinct(st.rows, cands);
      NumberedDistinct(ins, st.nextId);
      BelowIff(st.rows, st.nextId);
      forall r | r in kept ensures r.id < st.nextId {
        ListedIff(st.rows, cands, r);
      }
      forall r | r in added ensures st.nextId <= r.id < after.nextId {
        NumberedRow(ins, st.nextId, r);
      }
      assert Ids(kept) !! Ids(added);
      DistinctConcat(kept, added);
      BelowIff(after.rows, after.nextId);
    }
  }

  /** A stored row survives a run exactly when some candidate has its email. */
  lemma SyncKeeps(st: StoreState, cands: seq<Identity>, r: StoredIdentity)
    requires ValidState(st) && |cands| > 0 && |st.rows| > 0 && r in st.rows
    ensures r in Sync(st, cands).rows <==> r.identity.email in CandidateEmails(cands)
  {
    var ins := ToInsert(cands, st.rows);
    ListedIff(st.rows, cands, r);
    BelowIff(st.rows, st.nextId);
    if r in Numbered(ins, st.nextId) {
      NumberedRow(ins, st.nextId, r);
    }
  }

  /** A row a run adds is a candidate whose email was not stored, under a new id. */
  lemma SyncAdds(st: StoreState, cands: seq<Identity>, r: StoredIdentity)
    requires |cands| > 0 && |st.rows| > 0
    requires r in Sync(st, cands).rows && r !in st.rows
    ensures st.nextId <= r.id < Sync(st, cands).nextId
    ensures r.identity in cands && r.identity.email !in StoredEmails(st.rows)
  {
    var ins := ToInsert(cands, st.rows);
    ListedIff(st.rows, cands, r);
    NumberedRow(ins, st.nextId, r);
    ToInsertCount(cands, st.rows, r.identity);
  }

  /** Two stored aliases, a and b; the directory now lists b (possibly under another
      name) and c. The row for a goes, the row for b stays as stored, c is added under
      the next id. */
  lemma SyncExample(a: Identity, b: Identity, b2: Identity, c: Identity, id1: nat, id2: nat, next: nat)
    requires b2.email == b.email
    requires a.email != b.email && a.email != c.email && b.email != c.email
    ensures Sync(StoreState([StoredIdentity(id1, a), StoredIdentity(id2, b)], next), [b2, c]) ==
      StoreState([StoredIdentity(id2, b), StoredIdentity(next, c)], next + 1)
  {
    var rows := [StoredIdentity(id1, a), StoredIdentity(id2, b)];
    var cands := [b2, c];
    assert ToInsert(cands, rows) == [c] by {
      assert rows[1] in rows;
      assert b2.email in StoredEmails(rows);
      forall r | r in rows ensures r.identity.email != c.email {
        assert r == rows[0] || r == rows[1];
      }
      assert cands[..1] == [b2] && [b2][..0] == [];
      assert ToInsert([b2], rows) == [];
    }
    assert Listed(rows, cands) == [StoredIdentity(id2, b)] by {
      assert cands[0] in cands;
      assert b.email in CandidateEmails(cands);
      forall x | x in cands ensures x.email != a.email {
        assert x == cands[0] || x == cands[1];
      }
      assert rows[..1] == [StoredIdentity(id1, a)] && rows[..1][..0] == [];
      assert Listed(rows[..1], cands) == [];
    }
  }
}
