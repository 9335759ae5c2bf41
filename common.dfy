/** The generic matcher of utils/common.py: a full outer join of two
    sequences under a caller-supplied comparison, computed with nested loops
    and a dictionary of match flags keyed by the elements of the second
    sequence. */
module Common {

  datatype Option<T> = None | Some(value: T) {
    /** Python's `x if x is not None else default`. */
    function GetOr(default: T): T
    {
      if Some? then value else default
    }
  }

  /** The Python exceptions the modelled code can raise. */
  datatype Exception =
    | KeyError(key: string)          // a dictionary subscript on a missing key
    | ValueError(reason: string)     // a failed unpack, or a lookup with several results
    | AttributeError(name: string)   // an attribute read on None
    | TypeError(reason: string)      // unpacking None as a pair
    | UnboundLocalError(name: string)

  /** A value, or the exception raised instead of returning it. */
  datatype Result<T> = Ok(value: T) | Err(error: Exception)

  /** One output pair of the join: either side may be absent. */
  type JoinPair<T, U> = (Option<T>, Option<U>)

  // ---------------------------------------------------------------------
  // Reference definition of the join output
  // ---------------------------------------------------------------------

  /** The pairs (i, j) for every j of s that i compares equal to, in s's order. */
  function Matches<T, U>(i: T, s: seq<U>, eq: (T, U) -> bool): seq<JoinPair<T, U>>
  {
    if s == [] then []
    else Matches(i, s[..|s| - 1], eq)
         + (if eq(i, s[|s| - 1]) then [(Some(i), Some(s[|s| - 1]))] else [])
  }

  /** What one element of the first sequence contributes: its matches, or
      (i, None) in their place when there are none. */
  function RowOf<T, U>(i: T, s: seq<U>, eq: (T, U) -> bool): seq<JoinPair<T, U>>
  {
    var m := Matches(i, s, eq);
    if m == [] then [(Some(i), None)] else m
  }

  /** The first-derived part of the output, in first-major order. */
  function LeftPart<T, U>(f: seq<T>, s: seq<U>, eq: (T, U) -> bool): seq<JoinPair<T, U>>
  {
    if f == [] then []
    else LeftPart(f[..|f| - 1], s, eq) + RowOf(f[|f| - 1], s, eq)
  }

  /** The distinct values of s in order of first occurrence: the key order of
      a dictionary built from s. */
  function Distinct<U(==)>(s: seq<U>): seq<U>
  {
    if s == [] then []
    else if s[|s| - 1] in s[..|s| - 1] then Distinct(s[..|s| - 1])
    else Distinct(s[..|s| - 1]) + [s[|s| - 1]]
  }

  /** True when some element of f compares equal to k. */
  predicate MatchedBy<T, U>(f: seq<T>, k: U, eq: (T, U) -> bool)
  {
    exists p :: 0 <= p < |f| && eq(f[p], k)
  }

  /** (None, k) for every k of ks that no element of f matches, in ks's order. */
  function Unmatched<T, U>(f: seq<T>, ks: seq<U>, eq: (T, U) -> bool): seq<JoinPair<T, U>>
  {
    if ks == [] then []
    else Unmatched(f, ks[..|ks| - 1], eq)
         + (if MatchedBy(f, ks[|ks| - 1], eq) then [] else [(None, Some(ks[|ks| - 1]))])
  }

  /** The exact output of full_outer_join(f, s, eq). */
  function JoinSpec<T, U(==)>(f: seq<T>, s: seq<U>, eq: (T, U) -> bool): seq<JoinPair<T, U>>
  {
    LeftPart(f, s, eq) + Unmatched(f, Distinct(s), eq)
  }

  // ---------------------------------------------------------------------
  // The algorithm
  // ---------------------------------------------------------------------

  /** full_outer_join: the dictionary `second_matches` is the map `matched`
      together with `keys`, its insertion order. */
  method FullOuterJoin<T, U(==)>(first: seq<T>, second: seq<U>, eq: (T, U) -> bool)
    returns (result: seq<JoinPair<T, U>>)
    ensures result == JoinSpec(first, second, eq)
  {
    var keys, matched := NewFlags(second);
    result, matched := JoinRows(first, second, eq, matched);
    DistinctElements(second);
    result := ExtendUnmatched(first, keys, eq, matched, result);
  }

  /** The outer loop of full_outer_join: the rows of every element of first,
      in order, with every flag raised whose key something in first matches. */
  method JoinRows<T, U(==)>(first: seq<T>, second: seq<U>, eq: (T, U) -> bool, flags: map<U, bool>)
    returns (result: seq<JoinPair<T, U>>, matched: map<U, bool>)
    requires forall j :: j in flags <==> j in second
    requires forall j :: j in flags ==> !flags[j]
    ensures result == LeftPart(first, second, eq)
    ensures forall j :: j in matched <==> j in second
    ensures forall j :: j in matched ==> (matched[j] <==> MatchedBy(first, j, eq))
  {
    result, matched := [], flags;
    assert first[..0] == [];
    var a := 0;
    while a < |first|
      invariant 0 <= a <= |first|
      invariant result == LeftPart(first[..a], second, eq)
      invariant forall j :: j in matched <==> j in second
      invariant forall j :: j in matched ==> (matched[j] <==> MatchedBefore(first, a, j, eq))
    {
      var row;
      row, matched := MatchRow(first, a, second, eq, matched);
      LeftPartSnoc(first, a, second, eq);
      result := result + row;
      a := a + 1;
    }
    assert first[..a] == first;
  }

  /** `result.extend((None, k) for k, v in second_matches.items() if not v)`:
      the unmatched keys, in key order, after the pairs already in result. */
  method ExtendUnmatched<T, U(==)>(first: seq<T>, keys: seq<U>, eq: (T, U) -> bool, matched: map<U, bool>,
                                   left: seq<JoinPair<T, U>>)
    returns (result: seq<JoinPair<T, U>>)
    requires forall j :: j in keys ==> j in matched && (matched[j] <==> MatchedBy(first, j, eq))
    ensures result == left + Unmatched(first, keys, eq)
  {
    result := left;
    var k := 0;
    while k < |keys|
      invariant 0 <= k <= |keys|
      invariant result == left + Unmatched(first, keys[..k], eq)
    {
      assert keys[..k + 1][..k] == keys[..k];
      if !matched[keys[k]] {
        result := result + [(None, Some(keys[k]))];
      }
      k := k + 1;
    }
    assert keys[..k] == keys;
  }

  /** The comprehension `{j: False for j in second}`: every flag false, keys
      in order of first insertion. */
  method NewFlags<U(==)>(second: seq<U>) returns (keys: seq<U>, matched: map<U, bool>)
    ensures keys == Distinct(second)
    ensures forall j :: j in matched <==> j in second
    ensures forall j :: j in matched ==> !matched[j]
  {
    keys, matched := [], map[];
    var b := 0;
    while b < |second|
      invariant 0 <= b <= |second|
      invariant keys == Distinct(second[..b])
      invariant forall j :: j in matched <==> j in second[..b]
      invariant forall j :: j in matched ==> !matched[j]
    {
      assert second[..b + 1][..b] == second[..b];
      if second[b] !in matched {
        keys := keys + [second[b]];
      }
      matched := matched[second[b] := false];
      b := b + 1;
    }
    assert second[..b] == second;
  }

  /** The inner loop of full_outer_join for the element i that follows the
      already scanned prefix done: emits i's row and raises the flag of
      every element of second that i matches. */
  method MatchRow<T, U(==)>(first: seq<T>, a: nat, second: seq<U>, eq: (T, U) -> bool, flags: map<U, bool>)
    returns (row: seq<JoinPair<T, U>>, matched: map<U, bool>)
    requires a < |first|
    requires forall j :: j in flags <==> j in second
    requires forall j :: j in flags ==> (flags[j] <==> MatchedBefore(first, a, j, eq))
    ensures row == RowOf(first[a], second, eq)
    ensures forall j :: j in matched <==> j in second
    ensures forall j :: j in matched ==> (matched[j] <==> MatchedBefore(first, a + 1, j, eq))
  {
    var i := first[a];
    matched := flags;
    row := [];
    var firstMatched := false;
    var c := 0;
    while c < |second|
      invariant 0 <= c <= |second|
      invariant row == Matches(i, second[..c], eq)
      invariant firstMatched <==> row != []
      invariant forall j :: j in matched <==> j in second
      invariant forall j :: j in matched ==>
        (matched[j] <==> MatchedBefore(first, a, j, eq) || (j in second[..c] && eq(i, j)))
    {
      assert second[..c + 1][..c] == second[..c];
      var j := second[c];
      if eq(i, j) {
        firstMatched := true;
        matched := matched[j := true];
        row := row + [(Some(i), Some(j))];
      }
      c := c + 1;
    }
    assert second[..c] == second;
    if !firstMatched {
      row := row + [(Some(i), None)];
    }
    forall j | j in matched
      ensures matched[j] <==> MatchedBefore(first, a + 1, j, eq)
    {
      MatchedBeforeStep(first, a, j, eq);
    }
  }

  // ---------------------------------------------------------------------
  // Helper facts
  // ---------------------------------------------------------------------

  lemma LeftPartSnoc<T, U>(first: seq<T>, a: nat, second: seq<U>, eq: (T, U) -> bool)
    requires a < |first|
    ensures LeftPart(first[..a + 1], second, eq) == LeftPart(first[..a], second, eq) + RowOf(first[a], second, eq)
  {
    assert first[..a + 1][..a] == first[..a];
  }

  /** Some element of first before index a compares equal to k. */
  predicate MatchedBefore<T, U>(first: seq<T>, a: nat, k: U, eq: (T, U) -> bool)
    requires a <= |first|
  {
    exists p :: 0 <= p < a && eq(first[p], k)
  }

  lemma MatchedBeforeStep<T, U>(first: seq<T>, a: nat, k: U, eq: (T, U) -> bool)
    requires a < |first|
    ensures MatchedBefore(first, a + 1, k, eq) <==> MatchedBefore(first, a, k, eq) || eq(first[a], k)
  {
  }

  /** Distinct keeps exactly the values of s, each once. */
  lemma {:induction false} DistinctElements<U>(s: seq<U>)
    ensures forall x :: x in Distinct(s) <==> x in s
    ensures forall p, q :: 0 <= p < q < |Distinct(s)| ==> Distinct(s)[p] != Distinct(s)[q]
  {
    if s != [] {
      var init := s[..|s| - 1];
      DistinctElements(init);
      assert s == init + [s[|s| - 1]];
    }
  }

  /** True when i compares equal to some element of s. */
  predicate HasMatch<T, U>(i: T, s: seq<U>, eq: (T, U) -> bool)
  {
    exists p :: 0 <= p < |s| && eq(i, s[p])
  }

  lemma HasMatchAppend<T, U>(i: T, s: seq<U>, j: U, eq: (T, U) -> bool)
    ensures HasMatch(i, s + [j], eq) <==> HasMatch(i, s, eq) || eq(i, j)
  {
    if HasMatch(i, s + [j], eq) {
      var p :| 0 <= p < |s + [j]| && eq(i, (s + [j])[p]);
      if p < |s| { assert (s + [j])[p] == s[p]; }
    }
    if HasMatch(i, s, eq) {
      var p :| 0 <= p < |s| && eq(i, s[p]);
      assert (s + [j])[p] == s[p];
    }
    if eq(i, j) { assert (s + [j])[|s|] == j; }
  }

  /** Matches(i, s) holds exactly the pairs (i, j) with j in s and eq(i, j). */
  lemma {:induction false} MatchesShape<T, U>(i: T, s: seq<U>, eq: (T, U) -> bool)
    ensures forall q :: q in Matches(i, s, eq) ==>
      q.0 == Some(i) && q.1.Some? && q.1.value in s && eq(i, q.1.value)
    ensures forall j :: j in s && eq(i, j) ==> (Some(i), Some(j)) in Matches(i, s, eq)
    ensures Matches(i, s, eq) != [] <==> HasMatch(i, s, eq)
  {
    if s != [] {
      var init, last := s[..|s| - 1], s[|s| - 1];
      MatchesShape(i, init, eq);
      assert s == init + [last];
      HasMatchAppend(i, init, last, eq);
    }
  }

  /** Every pair of LeftPart has its left side in f; a right side present
      is a match, an absent one marks an element with no match; and every
      match and every unmatched element of f is represented. */
  lemma {:induction false} LeftPartShape<T, U>(f: seq<T>, s: seq<U>, eq: (T, U) -> bool)
    ensures forall q :: q in LeftPart(f, s, eq) ==>
      && q.0.Some? && q.0.value in f
      && (q.1.Some? ==> q.1.value in s && eq(q.0.value, q.1.value))
      && (q.1.None? ==> !HasMatch(q.0.value, s, eq))
    ensures forall i, j :: i in f && j in s && eq(i, j) ==> (Some(i), Some(j)) in LeftPart(f, s, eq)
    ensures forall i :: i in f && !HasMatch(i, s, eq) ==> (Some(i), None) in LeftPart(f, s, eq)
  {
    if f != [] {
      var init, last := f[..|f| - 1], f[|f| - 1];
      LeftPartShape(init, s, eq);
      MatchesShape(last, s, eq);
      assert f == init + [last];
      var before, row := LeftPart(init, s, eq), RowOf(last, s, eq);
      assert LeftPart(f, s, eq) == before + row;
      forall q: JoinPair<T, U> | q in before + row
        ensures && q.0.Some? && q.0.value in f
                && (q.1.Some? ==> q.1.value in s && eq(q.0.value, q.1.value))
                && (q.1.None? ==> !HasMatch(q.0.value, s, eq))
      {
        if q !in before {
          assert q in row;
        }
      }
      forall i | i in f ensures i in init || i == last {
      }
    }
  }

  /** Unmatched(f, ks) holds exactly the pairs (None, k) for the elements k
      of ks that nothing in f matches. */
  lemma {:induction false} UnmatchedShape<T, U>(f: seq<T>, ks: seq<U>, eq: (T, U) -> bool)
    ensures forall q :: q in Unmatched(f, ks, eq) ==>
      q.0.None? && q.1.Some? && q.1.value in ks && !MatchedBy(f, q.1.value, eq)
    ensures forall k :: k in ks && !MatchedBy(f, k, eq) ==> (None, Some(k)) in Unmatched(f, ks, eq)
  {
    if ks != [] {
      var init := ks[..|ks| - 1];
      UnmatchedShape(f, init, eq);
      assert ks == init + [ks[|ks| - 1]];
    }
  }

  lemma MatchedByIff<T, U>(f: seq<T>, k: U, eq: (T, U) -> bool)
    ensures MatchedBy(f, k, eq) <==> exists i :: i in f && eq(i, k)
  {
    if exists i :: i in f && eq(i, k) {
      var i :| i in f && eq(i, k);
      var p :| 0 <= p < |f| && f[p] == i;
    }
  }

  lemma HasMatchIff<T, U>(i: T, s: seq<U>, eq: (T, U) -> bool)
    ensures HasMatch(i, s, eq) <==> exists j :: j in s && eq(i, j)
  {
    if exists j :: j in s && eq(i, j) {
      var j :| j in s && eq(i, j);
      var p :| 0 <= p < |s| && s[p] == j;
    }
  }

  // ---------------------------------------------------------------------
  // Properties of the join output
  // ---------------------------------------------------------------------

  /** (i, j) is emitted exactly when i is in first, j is in second and
      eq(i, j) holds. */
  lemma JoinBothIff<T, U>(f: seq<T>, s: seq<U>, eq: (T, U) -> bool, i: T, j: U)
    ensures (Some(i), Some(j)) in JoinSpec(f, s, eq) <==> i in f && j in s && eq(i, j)
  {
    LeftPartShape(f, s, eq);
    UnmatchedShape(f, Distinct(s), eq);
  }

  /** (i, None) is emitted exactly for the elements of first that match
      nothing in second. */
  lemma JoinLeftOnlyIff<T, U>(f: seq<T>, s: seq<U>, eq: (T, U) -> bool, i: T)
    ensures (Some(i), None) in JoinSpec(f, s, eq) <==> i in f && !(exists j :: j in s && eq(i, j))
  {
    LeftPartShape(f, s, eq);
    UnmatchedShape(f, Distinct(s), eq);
    HasMatchIff(i, s, eq);
  }

  /** (None, k) is emitted exactly for the elements of second that nothing
      in first matches. */
  lemma JoinRightOnlyIff<T, U>(f: seq<T>, s: seq<U>, eq: (T, U) -> bool, k: U)
    ensures (None, Some(k)) in JoinSpec(f, s, eq) <==> k in s && !(exists i :: i in f && eq(i, k))
  {
    LeftPartShape(f, s, eq);
    UnmatchedShape(f, Distinct(s), eq);
    DistinctElements(s);
    MatchedByIff(f, k, eq);
  }

  /** No pair has both sides absent, and every pair with both sides present
      compares equal. */
  lemma JoinPairsWellFormed<T, U>(f: seq<T>, s: seq<U>, eq: (T, U) -> bool)
    ensures (None, None) !in JoinSpec(f, s, eq)
    ensures forall q :: q in JoinSpec(f, s, eq) && q.0.Some? && q.1.Some? ==> eq(q.0.value, q.1.value)
  {
    LeftPartShape(f, s, eq);
    UnmatchedShape(f, Distinct(s), eq);
  }

  /** Every element of either input occurs in some output pair. */
  lemma JoinComplete<T, U>(f: seq<T>, s: seq<U>, eq: (T, U) -> bool)
    ensures forall i :: i in f ==> exists q :: q in JoinSpec(f, s, eq) && q.0 == Some(i)
    ensures forall k :: k in s ==> exists q :: q in JoinSpec(f, s, eq) && q.1 == Some(k)
  {
    var J := JoinSpec(f, s, eq);
    LeftPartShape(f, s, eq);
    UnmatchedShape(f, Distinct(s), eq);
    DistinctElements(s);
    forall i | i in f
      ensures exists q :: q in J && q.0 == Some(i)
    {
      HasMatchIff(i, s, eq);
      if j :| j in s && eq(i, j) {
        assert (Some(i), Some(j)) in J;
      } else {
        assert (Some(i), None) in J;
      }
    }
    forall k | k in s
      ensures exists q :: q in J && q.1 == Some(k)
    {
      MatchedByIff(f, k, eq);
      if i :| i in f && eq(i, k) {
        assert (Some(i), Some(k)) in J;
      } else {
        assert (None, Some(k)) in J;
      }
    }
  }

  /** Every pair with an absent left side comes after every pair with a
      present one. */
  lemma JoinRightOnlyLast<T, U>(f: seq<T>, s: seq<U>, eq: (T, U) -> bool)
    ensures forall p, q ::
      0 <= p < q < |JoinSpec(f, s, eq)| && JoinSpec(f, s, eq)[p].0.None? ==> JoinSpec(f, s, eq)[q].0.None?
  {
    var L: seq<JoinPair<T, U>>, R: seq<JoinPair<T, U>> := LeftPart(f, s, eq), Unmatched(f, Distinct(s), eq);
    LeftPartHasLeft(f, s, eq);
    UnmatchedHasNoLeft(f, Distinct(s), eq);
    forall p | 0 <= p < |L|
      ensures (L + R)[p].0.Some?
    {
      assert (L + R)[p] == L[p];
    }
    forall q | |L| <= q < |L + R|
      ensures (L + R)[q].0.None?
    {
      assert (L + R)[q] == R[q - |L|];
    }
  }

  lemma LeftPartHasLeft<T, U>(f: seq<T>, s: seq<U>, eq: (T, U) -> bool)
    ensures forall p :: 0 <= p < |LeftPart(f, s, eq)| ==> LeftPart(f, s, eq)[p].0.Some?
  {
    LeftPartShape(f, s, eq);
    forall p | 0 <= p < |LeftPart(f, s, eq)| ensures LeftPart(f, s, eq)[p].0.Some? {
      assert LeftPart(f, s, eq)[p] in LeftPart(f, s, eq);
    }
  }

  lemma UnmatchedHasNoLeft<T, U>(f: seq<T>, ks: seq<U>, eq: (T, U) -> bool)
    ensures forall p :: 0 <= p < |Unmatched(f, ks, eq)| ==> Unmatched(f, ks, eq)[p].0.None?
  {
    UnmatchedShape(f, ks, eq);
    forall p | 0 <= p < |Unmatched(f, ks, eq)| ensures Unmatched(f, ks, eq)[p].0.None? {
      assert Unmatched(f, ks, eq)[p] in Unmatched(f, ks, eq);
    }
  }

  /** Count of value x in sequence t. */
  ghost function Count<X>(t: seq<X>, x: X): nat
  {
    multiset(t)[x]
  }

  lemma CountAppend<X>(x: seq<X>, y: seq<X>, e: X)
    ensures Count(x + y, e) == Count(x, e) + Count(y, e)
  {
    assert multiset(x + y) == multiset(x) + multiset(y);
  }

  lemma {:induction false} MatchesCount<T, U>(i': T, s: seq<U>, eq: (T, U) -> bool, i: T, j: U)
    requires eq(i, j)
    ensures Count(Matches(i', s, eq), (Some(i), Some(j))) == if i' == i then Count(s, j) else 0
  {
    if s != [] {
      var init, last := s[..|s| - 1], s[|s| - 1];
      MatchesCount(i', init, eq, i, j);
      assert s == init + [last];
    }
  }

  /** No deduplication: when eq(i, j), the pair (i, j) is emitted once for
      every occurrence of i in first and every occurrence of j in second. */
  lemma {:induction false} JoinMultiplicity<T, U>(f: seq<T>, s: seq<U>, eq: (T, U) -> bool, i: T, j: U)
    requires eq(i, j)
    ensures Count(JoinSpec(f, s, eq), (Some(i), Some(j))) == Count(f, i) * Count(s, j)
  {
    LeftPartCount(f, s, eq, i, j);
    UnmatchedShape(f, Distinct(s), eq);
    assert (Some(i), Some(j)) !in Unmatched(f, Distinct(s), eq);
  }

  /** The row of one element holds (i, j) as often as j occurs in s when
      the element is i, and never otherwise. */
  lemma RowCount<T, U>(i': T, s: seq<U>, eq: (T, U) -> bool, i: T, j: U)
    requires eq(i, j)
    ensures Count(RowOf(i', s, eq), (Some(i), Some(j))) == if i' == i then Count(s, j) else 0
  {
    MatchesCount(i', s, eq, i, j);
    if Matches(i', s, eq) == [] && i' == i {
      MatchesShape(i', s, eq);
      assert j !in s;
    }
  }

  lemma {:induction false} LeftPartCount<T, U>(f: seq<T>, s: seq<U>, eq: (T, U) -> bool, i: T, j: U)
    requires eq(i, j)
    ensures Count(LeftPart(f, s, eq), (Some(i), Some(j))) == Count(f, i) * Count(s, j)
  {
    if f != [] {
      var init, last := f[..|f| - 1], f[|f| - 1];
      var e: JoinPair<T, U> := (Some(i), Some(j));
      var row := RowOf(last, s, eq);
      LeftPartSnocCount(f, s, eq, e);
      CountSnoc(f, i);
      LeftPartCount(init, s, eq, i, j);
      RowCount(last, s, eq, i, j);
      CountStep(Count(LeftPart(init, s, eq), e), Count(row, e), Count(init, i), Count(s, j), Count(f, i), last == i);
    }
  }

  lemma LeftPartSnocCount<T, U>(f: seq<T>, s: seq<U>, eq: (T, U) -> bool, e: JoinPair<T, U>)
    requires f != []
    ensures Count(LeftPart(f, s, eq), e) == Count(LeftPart(f[..|f| - 1], s, eq), e) + Count(RowOf(f[|f| - 1], s, eq), e)
  {
    CountAppend(LeftPart(f[..|f| - 1], s, eq), RowOf(f[|f| - 1], s, eq), e);
  }

  lemma CountSnoc<X>(f: seq<X>, x: X)
    requires f != []
    ensures Count(f, x) == Count(f[..|f| - 1], x) + if f[|f| - 1] == x then 1 else 0
  {
    assert f == f[..|f| - 1] + [f[|f| - 1]];
    CountAppend(f[..|f| - 1], [f[|f| - 1]], x);
  }

  /** The arithmetic of one LeftPartCount step, kept apart from the
      sequences. */
  lemma CountStep(before: nat, row: nat, a: nat, b: nat, total: nat, hit: bool)
    requires before == a * b
    requires row == if hit then b else 0
    requires total == if hit then a + 1 else a
    ensures before + row == total * b
  {
    if hit {
      MulStep(a, b);
    }
  }

  lemma MulStep(a: nat, b: nat)
    ensures (a + 1) * b == a * b + b
  {
  }

  /** The dictionary has one flag per distinct value: an unmatched element of
      second yields exactly one (None, k), however often it occurs. */
  lemma JoinRightOnlyOnce<T, U>(f: seq<T>, s: seq<U>, eq: (T, U) -> bool, k: U)
    requires k in s && !(exists i :: i in f && eq(i, k))
    ensures Count(JoinSpec(f, s, eq), (None, Some(k))) == 1
  {
    DistinctElements(s);
    MatchedByIff(f, k, eq);
    LeftPartShape(f, s, eq);
    assert (None, Some(k)) !in LeftPart(f, s, eq);
    UnmatchedOnce(f, Distinct(s), eq, k);
  }

  lemma {:induction false} UnmatchedOnce<T, U>(f: seq<T>, ks: seq<U>, eq: (T, U) -> bool, k: U)
    requires forall p, q :: 0 <= p < q < |ks| ==> ks[p] != ks[q]
    requires k in ks && !MatchedBy(f, k, eq)
    ensures Count(Unmatched(f, ks, eq), (None, Some(k))) == 1
  {
    var init, last := ks[..|ks| - 1], ks[|ks| - 1];
    assert ks == init + [last];
    if last == k {
      UnmatchedShape(f, init, eq);
      assert (None, Some(k)) !in Unmatched(f, init, eq);
    } else {
      UnmatchedOnce(f, init, eq, k);
    }
  }

  /** Number of true comparisons between f and s. */
  function Comparisons<T, U>(f: seq<T>, s: seq<U>, eq: (T, U) -> bool): nat
  {
    if f == [] then 0 else Comparisons(f[..|f| - 1], s, eq) + |Matches(f[|f| - 1], s, eq)|
  }

  /** Number of elements of f that match nothing in s. */
  function UnmatchedFirst<T, U>(f: seq<T>, s: seq<U>, eq: (T, U) -> bool): nat
  {
    if f == [] then 0
    else UnmatchedFirst(f[..|f| - 1], s, eq) + (if HasMatch(f[|f| - 1], s, eq) then 0 else 1)
  }

  /** Output length: every true comparison, plus one pair per unmatched
      element of first, plus one per distinct unmatched value of second. */
  lemma JoinLength<T, U>(f: seq<T>, s: seq<U>, eq: (T, U) -> bool)
    ensures |JoinSpec(f, s, eq)|
      == Comparisons(f, s, eq) + UnmatchedFirst(f, s, eq)
       + |set k | k in s && !MatchedBy(f, k, eq)|
  {
    LeftPartLength(f, s, eq);
    DistinctElements(s);
    UnmatchedLength(f, Distinct(s), eq);
    UnmatchedSetDistinct(f, s, eq);
  }

  lemma UnmatchedSetDistinct<T, U>(f: seq<T>, s: seq<U>, eq: (T, U) -> bool)
    ensures (set k | k in Distinct(s) && !MatchedBy(f, k, eq)) == (set k | k in s && !MatchedBy(f, k, eq))
  {
    DistinctElements(s);
    var A := set k | k in Distinct(s) && !MatchedBy(f, k, eq);
    var B := set k | k in s && !MatchedBy(f, k, eq);
    forall k | k in A ensures k in B {
      assert k in Distinct(s) && !MatchedBy(f, k, eq);
      assert k in s;
    }
    forall k | k in B ensures k in A {
      assert k in s;
    }
  }

  lemma {:induction false} LeftPartLength<T, U>(f: seq<T>, s: seq<U>, eq: (T, U) -> bool)
    ensures |LeftPart(f, s, eq)| == Comparisons(f, s, eq) + UnmatchedFirst(f, s, eq)
  {
    if f != [] {
      LeftPartLength(f[..|f| - 1], s, eq);
      MatchesShape(f[|f| - 1], s, eq);
    }
  }

  lemma {:induction false} UnmatchedLength<T, U>(f: seq<T>, ks: seq<U>, eq: (T, U) -> bool)
    requires forall p, q :: 0 <= p < q < |ks| ==> ks[p] != ks[q]
    ensures |Unmatched(f, ks, eq)| == |set k | k in ks && !MatchedBy(f, k, eq)|
  {
    if ks != [] {
      var init, last := ks[..|ks| - 1], ks[|ks| - 1];
      assert ks == init + [last];
      UnmatchedLength(f, init, eq);
      var before := set k | k in init && !MatchedBy(f, k, eq);
      var after := set k | k in ks && !MatchedBy(f, k, eq);
      assert last !in init by {
        forall p | 0 <= p < |init| ensures init[p] != last { assert init[p] == ks[p]; }
      }
      if MatchedBy(f, last, eq) {
        assert after == before;
      } else {
        assert after == before + {last};
      }
    }
  }

  /** With an empty second sequence every element of first is paired with None. */
  lemma {:induction false} JoinEmptySecond<T, U>(f: seq<T>, eq: (T, U) -> bool)
    ensures JoinSpec(f, [], eq) == seq(|f|, p requires 0 <= p < |f| => (Some(f[p]), None))
  {
    if f != [] {
      var init := f[..|f| - 1];
      JoinEmptySecond(init, eq);
      assert Matches(f[|f| - 1], [], eq) == [];
      assert LeftPart(f, [], eq) == LeftPart(init, [], eq) + [(Some(f[|f| - 1]), None)];
      var whole: seq<JoinPair<T, U>> := seq(|f|, p requires 0 <= p < |f| => (Some(f[p]), None));
      var front: seq<JoinPair<T, U>> := seq(|init|, p requires 0 <= p < |init| => (Some(init[p]), None));
      assert whole == front + [(Some(f[|f| - 1]), None)];
    }
  }

  /** With an empty first sequence the output is (None, k) for each distinct
      value of second, in order of first occurrence. */
  lemma JoinEmptyFirst<T, U>(s: seq<U>, eq: (T, U) -> bool)
    ensures JoinSpec([], s, eq) == seq(|Distinct(s)|, p requires 0 <= p < |Distinct(s)| => (None, Some(Distinct(s)[p])))
  {
    UnmatchedNoFirst(Distinct(s), eq);
  }

  lemma {:induction false} UnmatchedNoFirst<T, U>(ks: seq<U>, eq: (T, U) -> bool)
    ensures Unmatched([], ks, eq) == seq(|ks|, p requires 0 <= p < |ks| => (None, Some(ks[p])))
  {
    if ks != [] {
      UnmatchedNoFirst(ks[..|ks| - 1], eq);
    }
  }
}
