/** The downstream inventory as the reconciliation code sees it through its
    API client: per record type, a table of records keyed by an opaque id,
    which can be listed under a filter, looked up, created, updated and
    deleted. The pure functions on TableValue describe each call; the class
    Table is the mutable store whose methods perform them. */
module Inventory {
  import opened Common

  /** A downstream record: its id and the fields the engine manages. */
  datatype Row<F> = Row(id: nat, fields: F)

  /** The abstract value of one table: the records by id, and the id the
      next created record receives. */
  datatype TableValue<F> = TableValue(rows: map<nat, F>, next: nat)

  /** Every record id is below the next id to be allocated. */
  ghost predicate ValidTable<F>(t: TableValue<F>)
  {
    forall id :: id in t.rows ==> id < t.next
  }

  /** `create(**fields)`: a new record under a fresh id. */
  function CreateV<F>(t: TableValue<F>, f: F): TableValue<F>
  {
    TableValue(t.rows[t.next := f], t.next + 1)
  }

  /** `record.update(fields)`: every managed field overwritten; a record that
      no longer exists is left alone. */
  function UpdateV<F>(t: TableValue<F>, id: nat, f: F): TableValue<F>
  {
    if id in t.rows then TableValue(t.rows[id := f], t.next) else t
  }

  /** `record.delete()`. */
  function DeleteV<F>(t: TableValue<F>, id: nat): TableValue<F>
  {
    TableValue(t.rows - {id}, t.next)
  }

  lemma WritesKeepValid<F>(t: TableValue<F>, id: nat, f: F)
    requires ValidTable(t)
    ensures ValidTable(CreateV(t, f)) && ValidTable(UpdateV(t, id, f)) && ValidTable(DeleteV(t, id))
  {
  }

  /** The records with id below n that satisfy sel, in ascending id order. */
  function ListBelow<F>(rows: map<nat, F>, n: nat, sel: F -> bool): seq<Row<F>>
  {
    if n == 0 then []
    else ListBelow(rows, n - 1, sel)
         + (if n - 1 in rows && sel(rows[n - 1]) then [Row(n - 1, rows[n - 1])] else [])
  }

  /** `filter(...)`: the records that satisfy sel, in ascending id order. */
  function Listing<F>(t: TableValue<F>, sel: F -> bool): seq<Row<F>>
  {
    ListBelow(t.rows, t.next, sel)
  }

  lemma {:induction false} ListBelowShape<F>(rows: map<nat, F>, n: nat, sel: F -> bool)
    ensures forall p :: 0 <= p < |ListBelow(rows, n, sel)| ==>
      var r := ListBelow(rows, n, sel)[p]; r.id < n && r.id in rows && rows[r.id] == r.fields && sel(r.fields)
    ensures forall id :: id < n && id in rows && sel(rows[id]) ==> Row(id, rows[id]) in ListBelow(rows, n, sel)
    ensures forall p, q :: 0 <= p < q < |ListBelow(rows, n, sel)| ==>
      ListBelow(rows, n, sel)[p].id < ListBelow(rows, n, sel)[q].id
  {
    if n > 0 {
      ListBelowShape(rows, n - 1, sel);
      var front := ListBelow(rows, n - 1, sel);
      var all := ListBelow(rows, n, sel);
      forall p, q | 0 <= p < q < |all| ensures all[p].id < all[q].id {
        if q < |front| {
          assert all[p] == front[p] && all[q] == front[q];
        } else {
          assert all[p] == front[p];
        }
      }
    }
  }

  /** The listing holds exactly the selected records, each once, in
      ascending id order. */
  lemma ListingShape<F>(t: TableValue<F>, sel: F -> bool)
    requires ValidTable(t)
    ensures forall r :: r in Listing(t, sel) <==> r.id in t.rows && t.rows[r.id] == r.fields && sel(r.fields)
    ensures forall p :: 0 <= p < |Listing(t, sel)| ==>
      var r := Listing(t, sel)[p]; r.id in t.rows && t.rows[r.id] == r.fields && sel(r.fields)
    ensures forall p, q :: 0 <= p < q < |Listing(t, sel)| ==> Listing(t, sel)[p].id < Listing(t, sel)[q].id
  {
    var L := Listing(t, sel);
    ListBelowShape(t.rows, t.next, sel);
    forall r | r in L ensures r.id in t.rows && t.rows[r.id] == r.fields && sel(r.fields) {
      var p :| 0 <= p < |L| && L[p] == r;
    }
    forall r: Row<F> | r.id in t.rows && t.rows[r.id] == r.fields && sel(r.fields) ensures r in L {
      assert r == Row(r.id, t.rows[r.id]);
    }
  }

  /** What `get(**filters)` returns: nothing, the single record, or, when
      several records match, the ValueError it raises. */
  datatype Lookup<F> = NotFound | Found(row: Row<F>) | Ambiguous

  function Get<F>(listed: seq<Row<F>>): Lookup<F>
  {
    if |listed| == 0 then NotFound else if |listed| == 1 then Found(listed[0]) else Ambiguous
  }

  /** The ValueError `get(...)` raises when several records match. */
  const MoreThanOne: Exception := ValueError("get() returned more than one result")

  /** The listing is empty exactly when no record satisfies sel. */
  lemma ListingEmptyIff<F>(t: TableValue<F>, sel: F -> bool)
    requires ValidTable(t)
    ensures Listing(t, sel) == [] <==> forall id :: id in t.rows ==> !sel(t.rows[id])
  {
    var L := Listing(t, sel);
    ListingShape(t, sel);
    if exists id :: id in t.rows && sel(t.rows[id]) {
      var id :| id in t.rows && sel(t.rows[id]);
      assert Row(id, t.rows[id]) in L;
    }
    if L != [] {
      var r := L[0];
      assert r.id in t.rows && sel(t.rows[r.id]);
    }
  }

  /** Strictly ascending ids grow by at least one per position. */
  lemma {:induction false} AscendingSpread<F>(L: seq<Row<F>>, p: nat)
    requires forall i, j :: 0 <= i < j < |L| ==> L[i].id < L[j].id
    requires p < |L|
    ensures L[p].id >= L[0].id + p
  {
    if p > 0 {
      AscendingSpread(L, p - 1);
    }
  }

  /** When at most one record satisfies sel, the listing has at most one entry. */
  lemma ListingAtMostOne<F>(t: TableValue<F>, sel: F -> bool)
    requires ValidTable(t)
    requires forall a, b :: a in t.rows && b in t.rows && sel(t.rows[a]) && sel(t.rows[b]) ==> a == b
    ensures |Listing(t, sel)| <= 1
  {
    var L := Listing(t, sel);
    ListingShape(t, sel);
    if L != [] {
      var x, y := L[|L| - 1], L[0];
      assert x.id in t.rows && sel(t.rows[x.id]);
      assert y.id in t.rows && sel(t.rows[y.id]);
      AscendingSpread(L, |L| - 1);
    }
  }

  /** A lookup finds nothing exactly when no record is selected, finds a
      selected record otherwise, and is never ambiguous when at most one
      record satisfies sel. */
  lemma GetUnique<F>(t: TableValue<F>, sel: F -> bool)
    requires ValidTable(t)
    requires forall a, b :: a in t.rows && b in t.rows && sel(t.rows[a]) && sel(t.rows[b]) ==> a == b
    ensures Get(Listing(t, sel)).NotFound? <==> forall id :: id in t.rows ==> !sel(t.rows[id])
    ensures !Get(Listing(t, sel)).Ambiguous?
    ensures Get(Listing(t, sel)).Found? ==>
      var r := Get(Listing(t, sel)).row; r.id in t.rows && t.rows[r.id] == r.fields && sel(r.fields)
  {
    ListingShape(t, sel);
    ListingEmptyIff(t, sel);
    ListingAtMostOne(t, sel);
  }

  /** One write call of the engine. */
  datatype Action<F> = Create(fields: F) | Update(id: nat, fields: F) | Delete(id: nat)

  /** Performs one call; gives the record created or updated. */
  function Apply<F>(t: TableValue<F>, a: Action<F>): (TableValue<F>, Option<Row<F>>)
  {
    match a
    case Create(f) => (CreateV(t, f), Some(Row(t.next, f)))
    case Update(id, f) => (UpdateV(t, id, f), Some(Row(id, f)))
    case Delete(id) => (DeleteV(t, id), None)
  }

  /** Performs the calls in order. */
  function ApplyAll<F>(t: TableValue<F>, acts: seq<Action<F>>): TableValue<F>
    decreases |acts|
  {
    if acts == [] then t else ApplyAll(Apply(t, acts[0]).0, acts[1..])
  }

  lemma {:induction false} ApplyAllAppend<F>(t: TableValue<F>, acts: seq<Action<F>>, a: Action<F>)
    ensures ApplyAll(t, acts + [a]) == Apply(ApplyAll(t, acts), a).0
    decreases |acts|
  {
    if acts != [] {
      assert (acts + [a])[1..] == acts[1..] + [a];
      ApplyAllAppend(Apply(t, acts[0]).0, acts[1..], a);
    }
  }

  /** The calls never touch ids at or above the table's next id, except by
      creating them. */
  ghost predicate TargetsBelow<F>(acts: seq<Action<F>>, n: nat)
  {
    forall k :: 0 <= k < |acts| && !acts[k].Create? ==> acts[k].id < n
  }

  /** The calls keep the table valid and never lower the next id. */
  lemma {:induction false} ApplyAllValid<F>(t: TableValue<F>, acts: seq<Action<F>>)
    requires ValidTable(t)
    ensures ValidTable(ApplyAll(t, acts)) && ApplyAll(t, acts).next >= t.next
    decreases |acts|
  {
    if acts != [] {
      ApplyAllValid(Apply(t, acts[0]).0, acts[1..]);
    }
  }

  /** None of the calls updates id. */
  predicate NotUpdated<F>(acts: seq<Action<F>>, id: nat)
  {
    forall k :: 0 <= k < |acts| && acts[k].Update? ==> acts[k].id != id
  }

  /** The fields of the last update of id among the calls, or dflt when no
      call updates it. */
  function LastUpdateOf<F>(acts: seq<Action<F>>, id: nat, dflt: F): F
    decreases |acts|
  {
    if acts == [] then dflt
    else
      var a := acts[|acts| - 1];
      if a.Update? && a.id == id then a.fields else LastUpdateOf(acts[..|acts| - 1], id, dflt)
  }

  /** A record that exists and that no call deletes ends with the fields of
      its last update, or its old fields. */
  lemma {:induction false} ApplyAllLastUpdate<F>(t: TableValue<F>, acts: seq<Action<F>>, id: nat)
    requires ValidTable(t) && id in t.rows && Delete(id) !in acts
    ensures id in ApplyAll(t, acts).rows && ApplyAll(t, acts).rows[id] == LastUpdateOf(acts, id, t.rows[id])
    decreases |acts|
  {
    if acts != [] {
      var init, a := acts[..|acts| - 1], acts[|acts| - 1];
      assert acts == init + [a];
      ApplyAllLastUpdate(t, init, id);
      ApplyAllAppend(t, init, a);
      ApplyAllValid(t, init);
    }
  }

  /** After the calls, a pre-existing id is present exactly when it was and
      no call deleted it; its fields are those of an update of it, or the
      old ones when no call updates it, and precisely those of its last
      update. */
  lemma {:induction false} ApplyAllOld<F>(t: TableValue<F>, acts: seq<Action<F>>, id: nat)
    requires ValidTable(t) && id < t.next
    ensures ValidTable(ApplyAll(t, acts)) && ApplyAll(t, acts).next >= t.next
    ensures id in ApplyAll(t, acts).rows <==> id in t.rows && Delete(id) !in acts
    ensures id in ApplyAll(t, acts).rows ==>
      || Update(id, ApplyAll(t, acts).rows[id]) in acts
      || (ApplyAll(t, acts).rows[id] == t.rows[id] && NotUpdated(acts, id))
    ensures id in t.rows && Delete(id) !in acts ==>
      ApplyAll(t, acts).rows[id] == LastUpdateOf(acts, id, t.rows[id])
    decreases |acts|
  {
    ApplyAllValid(t, acts);
    if id in t.rows && Delete(id) !in acts {
      ApplyAllLastUpdate(t, acts, id);
    }
    if acts != [] {
      var t1 := Apply(t, acts[0]).0;
      var rest := acts[1..];
      ApplyAllOld(t1, rest, id);
      assert acts == [acts[0]] + rest;
      forall k | 0 <= k < |rest| ensures rest[k] == acts[k + 1] {
      }
      var A := ApplyAll(t, acts);
      assert A == ApplyAll(t1, rest);
    }
  }

  /** A Create among calls that only target older ids leaves a record with
      its fields at a new id. */
  lemma {:induction false} ApplyAllCreated<F>(t: TableValue<F>, acts: seq<Action<F>>, k: nat)
    requires ValidTable(t) && TargetsBelow(acts, t.next)
    requires k < |acts| && acts[k].Create?
    ensures exists id :: t.next <= id && id in ApplyAll(t, acts).rows && ApplyAll(t, acts).rows[id] == acts[k].fields
    decreases |acts|
  {
    var t1 := Apply(t, acts[0]).0;
    var rest := acts[1..];
    forall j | 0 <= j < |rest| ensures rest[j] == acts[j + 1] && (rest[j].Create? || rest[j].id < t.next) {
    }
    var A := ApplyAll(t, acts);
    assert A == ApplyAll(t1, rest);
    if k == 0 {
      ApplyAllOld(t1, rest, t.next);
      assert Delete(t.next) !in rest;
      assert forall g :: Update(t.next, g) !in rest;
      assert t.next in A.rows && A.rows[t.next] == acts[0].fields;
    } else {
      ApplyAllCreated(t1, rest, k - 1);
    }
  }

  /** Every record at a new id holds the fields of some Create. */
  lemma {:induction false} ApplyAllNewOnlyCreated<F>(t: TableValue<F>, acts: seq<Action<F>>)
    requires ValidTable(t) && TargetsBelow(acts, t.next)
    ensures forall id :: id in ApplyAll(t, acts).rows && id >= t.next ==>
      Create(ApplyAll(t, acts).rows[id]) in acts
    decreases |acts|
  {
    if acts != [] {
      var t1 := Apply(t, acts[0]).0;
      var rest := acts[1..];
      assert acts == [acts[0]] + rest;
      forall j | 0 <= j < |rest| ensures rest[j] == acts[j + 1] && (rest[j].Create? || rest[j].id < t.next) {
      }
      ApplyAllNewOnlyCreated(t1, rest);
      var A := ApplyAll(t, acts);
      assert A == ApplyAll(t1, rest);
      if acts[0].Create? {
        ApplyAllOld(t1, rest, t.next);
        assert Delete(t.next) !in rest;
        assert forall g :: Update(t.next, g) !in rest;
        assert t.next in A.rows && A.rows[t.next] == acts[0].fields;
      }
      forall id | id in A.rows && id >= t.next ensures Create(A.rows[id]) in acts {
        if id >= t1.next {
          assert Create(A.rows[id]) in rest;
        }
      }
    }
  }

  /** The mutable store for one record type. */
  class Table<F> {
    var rows: map<nat, F>
    var next: nat

    function Value(): TableValue<F>
      reads this
    {
      TableValue(rows, next)
    }

    ghost predicate Valid()
      reads this
    {
      ValidTable(Value())
    }

    constructor (initial: map<nat, F>, nextId: nat)
      requires forall id :: id in initial ==> id < nextId
      ensures Valid() && Value() == TableValue(initial, nextId)
    {
      rows, next := initial, nextId;
    }

    /** `filter(...)`. */
    method Filter(sel: F -> bool) returns (listed: seq<Row<F>>)
      requires Valid()
      ensures listed == Listing(Value(), sel)
      ensures forall r :: r in listed <==> r.id in rows && rows[r.id] == r.fields && sel(r.fields)
    {
      listed := Listing(Value(), sel);
      ListingShape(Value(), sel);
    }

    /** `get(...)`: the single selected record, none, or Ambiguous when
        several are selected. */
    method GetOne(sel: F -> bool) returns (found: Lookup<F>)
      requires Valid()
      ensures found == Get(Listing(Value(), sel))
      ensures found.Found? ==> found.row.id in rows && rows[found.row.id] == found.row.fields && sel(found.row.fields)
      ensures found.NotFound? <==> forall id :: id in rows ==> !sel(rows[id])
    {
      var listed := Filter(sel);
      found := Get(listed);
      ListingShape(Value(), sel);
      ListingEmptyIff(Value(), sel);
    }

    /** `create(**fields)`: the new record gets the next id. */
    method Create(f: F) returns (row: Row<F>)
      requires Valid()
      modifies this
      ensures Valid() && Value() == CreateV(old(Value()), f)
      ensures row == Row(old(next), f) && row.id !in old(rows)
    {
      row := Row(next, f);
      rows := rows[next := f];
      next := next + 1;
    }

    /** `record.update(fields)`. */
    method Update(id: nat, f: F)
      requires Valid()
      modifies this
      ensures Valid() && Value() == UpdateV(old(Value()), id, f)
    {
      if id in rows {
        rows := rows[id := f];
      }
    }

    /** `record.delete()`. */
    method Delete(id: nat)
      requires Valid()
      modifies this
      ensures Valid() && Value() == DeleteV(old(Value()), id)
    {
      rows := rows - {id};
    }
  }
}
