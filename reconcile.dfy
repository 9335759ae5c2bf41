/** The decision the engine takes for each pair of the full outer join of
    the downstream records (left) with the Proxmox entities (right), and
    what the resulting calls do to the downstream table. */
module Reconcile {
  import opened Common
  import opened Inventory

  /** The calls for one join pair: a downstream record without a Proxmox
      counterpart is deleted, a Proxmox entity without a record is created,
      a matched record is overwritten with the entity's fields. The
      (absent, absent) pair is never produced by the join. */
  function Decide<F, P>(pair: JoinPair<Row<F>, P>, build: P -> F): seq<Action<F>>
  {
    match pair
    case (Some(r), None) => [Delete(r.id)]
    case (None, Some(p)) => [Create(build(p))]
    case (Some(r), Some(p)) => [Update(r.id, build(p))]
    case (None, None) => []
  }

  /** The calls for the pairs, in pair order. */
  function Plan<F, P>(pairs: seq<JoinPair<Row<F>, P>>, build: P -> F): seq<Action<F>>
    decreases |pairs|
  {
    if pairs == [] then [] else Decide(pairs[0], build) + Plan(pairs[1..], build)
  }

  /** The table after reconciling the records that sel picks against items. */
  function Reconciled<F, P(==)>(t: TableValue<F>, sel: F -> bool, items: seq<P>,
                                eq: (Row<F>, P) -> bool, build: P -> F): TableValue<F>
  {
    ApplyAll(t, Plan(JoinSpec(Listing(t, sel), items, eq), build))
  }

  /** Record id is present and picked by sel. */
  ghost predicate Selected<F>(t: TableValue<F>, sel: F -> bool, id: nat)
  {
    id in t.rows && sel(t.rows[id])
  }

  /** Some item matches the record with this id. */
  ghost predicate Claimed<F, P>(t: TableValue<F>, items: seq<P>, eq: (Row<F>, P) -> bool, id: nat)
    requires id in t.rows
  {
    exists p :: p in items && eq(Row(id, t.rows[id]), p)
  }

  /** No selected record matches p. */
  ghost predicate Orphan<F, P>(t: TableValue<F>, sel: F -> bool, eq: (Row<F>, P) -> bool, p: P)
  {
    forall id :: Selected(t, sel, id) ==> !eq(Row(id, t.rows[id]), p)
  }

  lemma {:induction false} ApplyAllConcat<F>(t: TableValue<F>, a: seq<Action<F>>, b: seq<Action<F>>)
    ensures ApplyAll(t, a + b) == ApplyAll(ApplyAll(t, a), b)
    decreases |a|
  {
    if a != [] {
      assert (a + b)[0] == a[0];
      assert (a + b)[1..] == a[1..] + b;
      ApplyAllConcat(Apply(t, a[0]).0, a[1..], b);
      assert ApplyAll(t, a + b) == ApplyAll(Apply(t, a[0]).0, a[1..] + b);
    } else {
      assert a + b == b;
    }
  }

  /** The calls of one pair, performed on t. */
  lemma ApplyDecide<F, P>(t: TableValue<F>, pair: JoinPair<Row<F>, P>, build: P -> F)
    ensures pair.0.Some? && pair.1.None? ==> ApplyAll(t, Decide(pair, build)) == DeleteV(t, pair.0.value.id)
    ensures pair.0.None? && pair.1.Some? ==> ApplyAll(t, Decide(pair, build)) == CreateV(t, build(pair.1.value))
    ensures pair.0.Some? && pair.1.Some? ==>
      ApplyAll(t, Decide(pair, build)) == UpdateV(t, pair.0.value.id, build(pair.1.value))
    ensures pair.0.None? && pair.1.None? ==> ApplyAll(t, Decide(pair, build)) == t
  {
    var d := Decide(pair, build);
    if d != [] {
      assert d[1..] == [];
    }
  }

  /** Performing the plan of pairs[k..] is performing pair k's calls, then
      the plan of the rest. */
  lemma PlanStep<F, P>(t: TableValue<F>, pairs: seq<JoinPair<Row<F>, P>>, k: nat, build: P -> F)
    requires k < |pairs|
    ensures ApplyAll(t, Plan(pairs[k..], build))
      == ApplyAll(ApplyAll(t, Decide(pairs[k], build)), Plan(pairs[k + 1..], build))
  {
    assert pairs[k..][0] == pairs[k] && pairs[k..][1..] == pairs[k + 1..];
    ApplyAllConcat(t, Decide(pairs[k], build), Plan(pairs[k + 1..], build));
  }

  /** A call is planned exactly when some pair decides it. */
  lemma {:induction false} PlanMembers<F, P>(pairs: seq<JoinPair<Row<F>, P>>, build: P -> F, a: Action<F>)
    ensures a in Plan(pairs, build) <==> exists q :: q in pairs && a in Decide(q, build)
    decreases |pairs|
  {
    if pairs != [] {
      PlanMembers(pairs[1..], build, a);
      assert pairs == [pairs[0]] + pairs[1..];
      if a in Plan(pairs[1..], build) {
        var q :| q in pairs[1..] && a in Decide(q, build);
        assert q in pairs;
      }
    }
  }

  /** What each planned call is, in terms of the table before the run. */
  lemma PlanCalls<F, P>(t: TableValue<F>, sel: F -> bool, items: seq<P>,
                         eq: (Row<F>, P) -> bool, build: P -> F, a: Action<F>)
    requires ValidTable(t)
    requires a in Plan(JoinSpec(Listing(t, sel), items, eq), build)
    ensures a.Delete? ==> Selected(t, sel, a.id) && !Claimed(t, items, eq, a.id)
    ensures a.Update? ==>
      Selected(t, sel, a.id) && exists p :: p in items && eq(Row(a.id, t.rows[a.id]), p) && a.fields == build(p)
    ensures a.Create? ==> exists p :: p in items && Orphan(t, sel, eq, p) && a.fields == build(p)
  {
    var L := Listing(t, sel);
    var J := JoinSpec(L, items, eq);
    ListingShape(t, sel);
    PlanMembers(J, build, a);
    var q :| q in J && a in Decide(q, build);
    JoinPairsWellFormed(L, items, eq);
    match q
    case (Some(r), None) =>
      JoinLeftOnlyIff(L, items, eq, r);
      assert r == Row(r.id, t.rows[r.id]);
    case (None, Some(p)) =>
      JoinRightOnlyIff(L, items, eq, p);
      forall id | Selected(t, sel, id) ensures !eq(Row(id, t.rows[id]), p) {
        assert Row(id, t.rows[id]) in L;
      }
    case (Some(r), Some(p)) =>
      JoinBothIff(L, items, eq, r, p);
      assert r == Row(r.id, t.rows[r.id]);
  }

  /** Which calls are planned, in terms of the table before the run. */
  lemma PlannedCalls<F, P>(t: TableValue<F>, sel: F -> bool, items: seq<P>,
                            eq: (Row<F>, P) -> bool, build: P -> F)
    requires ValidTable(t)
    ensures forall id :: Selected(t, sel, id) && !Claimed(t, items, eq, id) ==>
      Delete(id) in Plan(JoinSpec(Listing(t, sel), items, eq), build)
    ensures forall id, p :: Selected(t, sel, id) && p in items && eq(Row(id, t.rows[id]), p) ==>
      Update(id, build(p)) in Plan(JoinSpec(Listing(t, sel), items, eq), build)
    ensures forall p :: p in items && Orphan(t, sel, eq, p) ==>
      Create(build(p)) in Plan(JoinSpec(Listing(t, sel), items, eq), build)
  {
    var L := Listing(t, sel);
    var J := JoinSpec(L, items, eq);
    var acts := Plan(J, build);
    ListingShape(t, sel);
    forall id | Selected(t, sel, id) && !Claimed(t, items, eq, id) ensures Delete(id) in acts {
      var r := Row(id, t.rows[id]);
      JoinLeftOnlyIff(L, items, eq, r);
      PlanMembers(J, build, Delete(id));
      assert Delete(id) in Decide((Some(r), None), build);
    }
    forall id, p | Selected(t, sel, id) && p in items && eq(Row(id, t.rows[id]), p)
      ensures Update(id, build(p)) in acts
    {
      var r := Row(id, t.rows[id]);
      JoinBothIff(L, items, eq, r, p);
      PlanMembers(J, build, Update(id, build(p)));
      assert Update(id, build(p)) in Decide((Some(r), Some(p)), build);
    }
    forall p | p in items && Orphan(t, sel, eq, p) ensures Create(build(p)) in acts {
      JoinRightOnlyIff(L, items, eq, p);
      forall i | i in L ensures !eq(i, p) {
        assert Selected(t, sel, i.id) && i == Row(i.id, t.rows[i.id]);
      }
      PlanMembers(J, build, Create(build(p)));
      assert Create(build(p)) in Decide((None, Some(p)), build);
    }
  }

  /** The planned updates and deletes only target selected records. */
  lemma PlanTargetsBelow<F, P>(t: TableValue<F>, sel: F -> bool, items: seq<P>,
                                eq: (Row<F>, P) -> bool, build: P -> F)
    requires ValidTable(t)
    ensures TargetsBelow(Plan(JoinSpec(Listing(t, sel), items, eq), build), t.next)
  {
    var acts := Plan(JoinSpec(Listing(t, sel), items, eq), build);
    forall k | 0 <= k < |acts| && !acts[k].Create? ensures acts[k].id < t.next {
      PlanCalls(t, sel, items, eq, build, acts[k]);
    }
  }

  /** Effect on the existing records: records sel does not pick are left
      alone, picked records that no item matches are deleted, and picked
      records that some item matches are overwritten with the fields of a
      matching item. No record comes back that was not there before. */
  lemma ReconcileExisting<F, P>(t: TableValue<F>, sel: F -> bool, items: seq<P>,
                                 eq: (Row<F>, P) -> bool, build: P -> F, id: nat)
    requires ValidTable(t) && id < t.next
    ensures ValidTable(Reconciled(t, sel, items, eq, build))
    ensures id !in t.rows ==> id !in Reconciled(t, sel, items, eq, build).rows
    ensures id in t.rows && !sel(t.rows[id]) ==>
      id in Reconciled(t, sel, items, eq, build).rows
      && Reconciled(t, sel, items, eq, build).rows[id] == t.rows[id]
    ensures Selected(t, sel, id) && !Claimed(t, items, eq, id) ==>
      id !in Reconciled(t, sel, items, eq, build).rows
    ensures Selected(t, sel, id) && Claimed(t, items, eq, id) ==>
      id in Reconciled(t, sel, items, eq, build).rows
      && (exists p :: p in items && eq(Row(id, t.rows[id]), p)
            && Reconciled(t, sel, items, eq, build).rows[id] == build(p))
  {
    var acts := Plan(JoinSpec(Listing(t, sel), items, eq), build);
    var A := Reconciled(t, sel, items, eq, build);
    ApplyAllOld(t, acts, id);
    PlannedCalls(t, sel, items, eq, build);
    if Delete(id) in acts {
      PlanCalls(t, sel, items, eq, build, Delete(id));
    }
    if id in A.rows && Update(id, A.rows[id]) in acts {
      PlanCalls(t, sel, items, eq, build, Update(id, A.rows[id]));
    }
    if Selected(t, sel, id) && Claimed(t, items, eq, id) {
      var p :| p in items && eq(Row(id, t.rows[id]), p);
      var k :| 0 <= k < |acts| && acts[k] == Update(id, build(p));
      assert !NotUpdated(acts, id);
    }
  }

  /** Effect on new records: every item that matches no selected record gets
      a new record with its fields, and every new record is such an item's. */
  lemma ReconcileCreated<F, P>(t: TableValue<F>, sel: F -> bool, items: seq<P>,
                                eq: (Row<F>, P) -> bool, build: P -> F)
    requires ValidTable(t)
    ensures forall p :: p in items && Orphan(t, sel, eq, p) ==>
      exists id :: t.next <= id && id in Reconciled(t, sel, items, eq, build).rows
        && Reconciled(t, sel, items, eq, build).rows[id] == build(p)
    ensures forall id :: id in Reconciled(t, sel, items, eq, build).rows && id >= t.next ==>
      exists p :: p in items && Orphan(t, sel, eq, p)
        && Reconciled(t, sel, items, eq, build).rows[id] == build(p)
  {
    var acts := Plan(JoinSpec(Listing(t, sel), items, eq), build);
    var A := Reconciled(t, sel, items, eq, build);
    PlanTargetsBelow(t, sel, items, eq, build);
    PlannedCalls(t, sel, items, eq, build);
    forall p | p in items && Orphan(t, sel, eq, p)
      ensures exists id :: t.next <= id && id in A.rows && A.rows[id] == build(p)
    {
      var k :| 0 <= k < |acts| && acts[k] == Create(build(p));
      ApplyAllCreated(t, acts, k);
    }
    ApplyAllNewOnlyCreated(t, acts);
    forall id | id in A.rows && id >= t.next
      ensures exists p :: p in items && Orphan(t, sel, eq, p) && A.rows[id] == build(p)
    {
      PlanCalls(t, sel, items, eq, build, Create(A.rows[id]));
    }
  }

  /** The records build gives for the items are picked by sel and carry the
      item's key. */
  ghost predicate BuildKeeps<F, P, K>(sel: F -> bool, items: seq<P>, build: P -> F,
                                      recordKey: F -> K, itemKey: P -> K)
  {
    forall p :: p in items ==> sel(build(p)) && recordKey(build(p)) == itemKey(p)
  }

  /** A record whose key is the item's matches it. */
  lemma KeyMatch<F, P, K>(eq: (Row<F>, P) -> bool, recordKey: F -> K, itemKey: P -> K, id: nat, f: F, p: P)
    requires forall r, p {:trigger eq(r, p)} :: eq(r, p) == (recordKey(r.fields) == itemKey(p))
    requires recordKey(f) == itemKey(p)
    ensures eq(Row(id, f), p)
  {
  }

  /** After one run every selected record is matched by some item. */
  lemma ReconciledAllClaimed<F, P, K>(t: TableValue<F>, sel: F -> bool, items: seq<P>,
                                      eq: (Row<F>, P) -> bool, build: P -> F,
                                      recordKey: F -> K, itemKey: P -> K, id: nat)
    requires ValidTable(t) && BuildKeeps(sel, items, build, recordKey, itemKey)
    requires forall r, p {:trigger eq(r, p)} :: eq(r, p) == (recordKey(r.fields) == itemKey(p))
    requires Selected(Reconciled(t, sel, items, eq, build), sel, id)
    ensures Claimed(Reconciled(t, sel, items, eq, build), items, eq, id)
  {
    if id < t.next {
      ReconciledOldClaimed(t, sel, items, eq, build, recordKey, itemKey, id);
    } else {
      ReconciledNewClaimed(t, sel, items, eq, build, recordKey, itemKey, id);
    }
  }

  lemma ReconciledOldClaimed<F, P, K>(t: TableValue<F>, sel: F -> bool, items: seq<P>,
                                      eq: (Row<F>, P) -> bool, build: P -> F,
                                      recordKey: F -> K, itemKey: P -> K, id: nat)
    requires ValidTable(t) && BuildKeeps(sel, items, build, recordKey, itemKey)
    requires forall r, p {:trigger eq(r, p)} :: eq(r, p) == (recordKey(r.fields) == itemKey(p))
    requires Selected(Reconciled(t, sel, items, eq, build), sel, id) && id < t.next
    ensures Claimed(Reconciled(t, sel, items, eq, build), items, eq, id)
  {
    var A := Reconciled(t, sel, items, eq, build);
    ReconcileExisting(t, sel, items, eq, build, id);
    var p :| p in items && eq(Row(id, t.rows[id]), p) && A.rows[id] == build(p);
    KeyMatch(eq, recordKey, itemKey, id, A.rows[id], p);
  }

  lemma ReconciledNewClaimed<F, P, K>(t: TableValue<F>, sel: F -> bool, items: seq<P>,
                                      eq: (Row<F>, P) -> bool, build: P -> F,
                                      recordKey: F -> K, itemKey: P -> K, id: nat)
    requires ValidTable(t) && BuildKeeps(sel, items, build, recordKey, itemKey)
    requires forall r, p {:trigger eq(r, p)} :: eq(r, p) == (recordKey(r.fields) == itemKey(p))
    requires Selected(Reconciled(t, sel, items, eq, build), sel, id) && id >= t.next
    ensures Claimed(Reconciled(t, sel, items, eq, build), items, eq, id)
  {
    var A := Reconciled(t, sel, items, eq, build);
    ReconcileCreated(t, sel, items, eq, build);
    var p :| p in items && Orphan(t, sel, eq, p) && A.rows[id] == build(p);
    KeyMatch(eq, recordKey, itemKey, id, A.rows[id], p);
  }

  /** After one run no item is an orphan. */
  lemma ReconciledNoOrphan<F, P, K>(t: TableValue<F>, sel: F -> bool, items: seq<P>,
                                    eq: (Row<F>, P) -> bool, build: P -> F,
                                    recordKey: F -> K, itemKey: P -> K, p: P)
    requires ValidTable(t) && BuildKeeps(sel, items, build, recordKey, itemKey)
    requires forall r, p {:trigger eq(r, p)} :: eq(r, p) == (recordKey(r.fields) == itemKey(p))
    requires p in items
    ensures !Orphan(Reconciled(t, sel, items, eq, build), sel, eq, p)
  {
    var A := Reconciled(t, sel, items, eq, build);
    var id: nat, q: P;
    if Orphan(t, sel, eq, p) {
      ReconcileCreated(t, sel, items, eq, build);
      id :| t.next <= id && id in A.rows && A.rows[id] == build(p);
      q := p;
    } else {
      id :| Selected(t, sel, id) && eq(Row(id, t.rows[id]), p);
      ReconcileExisting(t, sel, items, eq, build, id);
      assert Claimed(t, items, eq, id);
      q :| q in items && eq(Row(id, t.rows[id]), q) && A.rows[id] == build(q);
    }
    KeptKeyMatches(A, sel, items, build, recordKey, itemKey, eq, id, q, p);
  }

  /** A record holding build(q), for an item q with p's key, is a selected
      record that matches p. */
  lemma KeptKeyMatches<F, P, K>(A: TableValue<F>, sel: F -> bool, items: seq<P>, build: P -> F,
                                recordKey: F -> K, itemKey: P -> K, eq: (Row<F>, P) -> bool, id: nat, q: P, p: P)
    requires BuildKeeps(sel, items, build, recordKey, itemKey)
    requires forall r, p {:trigger eq(r, p)} :: eq(r, p) == (recordKey(r.fields) == itemKey(p))
    requires q in items && id in A.rows && A.rows[id] == build(q) && itemKey(q) == itemKey(p)
    ensures !Orphan(A, sel, eq, p)
  {
    assert Selected(A, sel, id) && eq(Row(id, A.rows[id]), p);
  }

  /** Idempotence: when records are matched by key and the fields written
      keep the item's key, a second run against the same items plans no
      create and no delete, only updates. */
  lemma ReconcileIdempotent<F, P, K>(t: TableValue<F>, sel: F -> bool, items: seq<P>,
                                     eq: (Row<F>, P) -> bool, build: P -> F,
                                     recordKey: F -> K, itemKey: P -> K)
    requires ValidTable(t) && BuildKeeps(sel, items, build, recordKey, itemKey)
    requires forall r, p {:trigger eq(r, p)} :: eq(r, p) == (recordKey(r.fields) == itemKey(p))
    ensures forall a :: a in Plan(JoinSpec(Listing(Reconciled(t, sel, items, eq, build), sel), items, eq), build) ==>
      a.Update?
  {
    var A := Reconciled(t, sel, items, eq, build);
    var acts := Plan(JoinSpec(Listing(t, sel), items, eq), build);
    ApplyAllValid(t, acts);
    forall a | a in Plan(JoinSpec(Listing(A, sel), items, eq), build) ensures a.Update? {
      PlanCalls(A, sel, items, eq, build, a);
      if a.Delete? {
        ReconciledAllClaimed(t, sel, items, eq, build, recordKey, itemKey, a.id);
      } else if a.Create? {
        var p :| p in items && Orphan(A, sel, eq, p) && a.fields == build(p);
        ReconciledNoOrphan(t, sel, items, eq, build, recordKey, itemKey, p);
      }
    }
  }
}
