/** removeFromSlice (pan.go): drop every occurrence of one value from a list of
    names and collapse the remaining duplicates to their first occurrence. */
module Slices {

  /** The specification of removeFromSlice: the values of `s` other than `r`,
      each kept once, at the place of its first occurrence. */
  function Kept(s: seq<string>, r: string): seq<string>
  {
    if s == [] then []
    else
      var rest := Kept(s[..|s| - 1], r);
      var x := s[|s| - 1];
      if x == r || x in rest then rest else rest + [x]
  }

  predicate Distinct(s: seq<string>)
  {
    forall i, j :: 0 <= i < j < |s| ==> s[i] != s[j]
  }

  /** The position of the first occurrence of `x` in `s`. */
  function FirstIndex(s: seq<string>, x: string): (i: nat)
    requires x in s
    ensures i < |s| && s[i] == x
    ensures forall k :: 0 <= k < i ==> s[k] != x
  {
    if s[0] == x then 0 else FirstIndex(s[1..], x) + 1
  }

  /** Every value of `t` occurs in `s`, and `t` lists them by increasing
      position of first occurrence in `s`. */
  predicate InFirstOccurrenceOrder(s: seq<string>, t: seq<string>)
  {
    (forall x :: x in t ==> x in s) &&
    forall i, j :: 0 <= i < j < |t| ==> FirstIndex(s, t[i]) < FirstIndex(s, t[j])
  }

  /** `t` is what removing `r` from `s` must give: exactly the values of `s`
      other than `r`, none twice, in the order they first occur in `s`. */
  ghost predicate IsRemoval(s: seq<string>, r: string, t: seq<string>)
  {
    (forall x :: x in t <==> x in s && x != r) &&
    Distinct(t) &&
    InFirstOccurrenceOrder(s, t)
  }

  /** The loop of removeFromSlice: `newSlice` grows by each value not yet seen,
      and the map `m` records which values have been kept. */
  method RemoveFromSlice(s: seq<string>, r: string) returns (newSlice: seq<string>)
    ensures newSlice == Kept(s, r)
  {
    newSlice := [];
    var m: map<string, bool> := map[];
    for i := 0 to |s|
      invariant newSlice == Kept(s[..i], r)
      invariant forall x :: x in m <==> x in newSlice
    {
      var item := s[i];
      assert s[..i + 1][..i] == s[..i];
      if item != r {
        if item !in m {
          newSlice := newSlice + [item];
          m := m[item := true];
        }
      }
    }
    assert s[..|s|] == s;
  }

  /** The result holds exactly the values of `s` other than `r`: nothing else is
      added, nothing else is lost, and `r` itself never survives. */
  lemma {:induction false} KeptMembers(s: seq<string>, r: string)
    ensures forall x :: x in Kept(s, r) <==> x in s && x != r
  {
    if s != [] {
      var p := s[..|s| - 1];
      KeptMembers(p, r);
      assert s == p + [s[|s| - 1]];
    }
  }

  lemma KeptExcludes(s: seq<string>, r: string)
    ensures r !in Kept(s, r)
  {
    KeptMembers(s, r);
  }

  /** No value is kept twice. */
  lemma {:induction false} KeptDistinct(s: seq<string>, r: string)
    ensures Distinct(Kept(s, r))
  {
    if s != [] {
      KeptDistinct(s[..|s| - 1], r);
    }
  }

  /** Appending one value leaves the first occurrences of the earlier values
      where they were; a new value first occurs at the end. */
  lemma FirstIndexAppend(p: seq<string>, x: string, y: string)
    requires y in p || y == x
    ensures y in p ==> FirstIndex(p + [x], y) == FirstIndex(p, y)
    ensures y !in p ==> FirstIndex(p + [x], y) == |p|
  {
    var s := p + [x];
    assert forall k :: 0 <= k < |p| ==> s[k] == p[k];
    if y in p {
      assert s[FirstIndex(p, y)] == y;
    }
  }

  /** The kept values come in the order of their first occurrence in `s`. */
  lemma {:induction false} KeptOrder(s: seq<string>, r: string)
    ensures InFirstOccurrenceOrder(s, Kept(s, r))
  {
    if s != [] {
      var p := s[..|s| - 1];
      var x := s[|s| - 1];
      assert s == p + [x];
      KeptOrder(p, r);
      OrderExtend(p, x, Kept(p, r));
      if !(x == r || x in Kept(p, r)) {
        KeptMembers(p, r);
        OrderAppendNew(p, x, Kept(p, r));
      }
    }
  }

  /** Appending a value to `s` keeps a list in first-occurrence order. */
  lemma OrderExtend(p: seq<string>, x: string, t: seq<string>)
    requires InFirstOccurrenceOrder(p, t)
    ensures InFirstOccurrenceOrder(p + [x], t)
  {
    forall y | y in t
      ensures FirstIndex(p + [x], y) == FirstIndex(p, y)
    {
      FirstIndexAppend(p, x, y);
    }
    forall i, j | 0 <= i < j < |t|
      ensures FirstIndex(p + [x], t[i]) < FirstIndex(p + [x], t[j])
    {
      assert t[i] in t && t[j] in t;
    }
  }

  /** A value that `s` did not hold yet comes after all the others. */
  lemma OrderAppendNew(p: seq<string>, x: string, t: seq<string>)
    requires InFirstOccurrenceOrder(p, t) && x !in p
    ensures InFirstOccurrenceOrder(p + [x], t + [x])
  {
    var s, k := p + [x], t + [x];
    OrderExtend(p, x, t);
    FirstIndexAppend(p, x, x);
    forall i, j | 0 <= i < j < |k|
      ensures FirstIndex(s, k[i]) < FirstIndex(s, k[j])
    {
      assert k[i] == t[i] && t[i] in t;
      FirstIndexAppend(p, x, t[i]);
      if j < |t| {
        assert k[j] == t[j];
      }
    }
  }

  /** Two duplicate-free lists of the same values, both in first-occurrence
      order of `s`, are the same list. */
  lemma {:induction false} OrderedListsEqual(s: seq<string>, t: seq<string>, u: seq<string>)
    requires Distinct(t) && Distinct(u)
    requires forall x :: x in t <==> x in u
    requires InFirstOccurrenceOrder(s, t) && InFirstOccurrenceOrder(s, u)
    ensures t == u
  {
    BothEmpty(t, u);
    if t != [] {
      SameHead(s, t, u);
      TailOrdered(s, t);
      TailOrdered(s, u);
      TailsSameMembers(t, u);
      OrderedListsEqual(s, t[1..], u[1..]);
      assert t == [t[0]] + t[1..] && u == [u[0]] + u[1..];
    }
  }

  lemma BothEmpty(t: seq<string>, u: seq<string>)
    requires forall x :: x in t <==> x in u
    ensures t == [] <==> u == []
  {
    assert t != [] ==> t[0] in t;
    assert u != [] ==> u[0] in u;
  }

  /** The first element of such a list is the value of `s` that occurs first. */
  lemma SameHead(s: seq<string>, t: seq<string>, u: seq<string>)
    requires t != [] && u != []
    requires forall x :: x in t <==> x in u
    requires InFirstOccurrenceOrder(s, t) && InFirstOccurrenceOrder(s, u)
    ensures t[0] == u[0]
  {
    assert t[0] in u && u[0] in t;
    var j :| 0 <= j < |u| && u[j] == t[0];
    var i :| 0 <= i < |t| && t[i] == u[0];
    // each head occurs in `s` no later than the other one
    assert FirstIndex(s, t[0]) <= FirstIndex(s, t[i]);
    assert FirstIndex(s, u[0]) <= FirstIndex(s, u[j]);
    assert t[0] == s[FirstIndex(s, t[0])] == s[FirstIndex(s, u[0])] == u[0];
  }

  lemma TailOrdered(s: seq<string>, t: seq<string>)
    requires t != [] && InFirstOccurrenceOrder(s, t)
    ensures InFirstOccurrenceOrder(s, t[1..])
  {
    var t' := t[1..];
    assert forall k :: 0 <= k < |t'| ==> t'[k] == t[k + 1];
    assert forall x :: x in t' ==> x in t;
    forall i, j | 0 <= i < j < |t'|
      ensures FirstIndex(s, t'[i]) < FirstIndex(s, t'[j])
    {
      assert FirstIndex(s, t[i + 1]) < FirstIndex(s, t[j + 1]);
    }
  }

  lemma TailsSameMembers(t: seq<string>, u: seq<string>)
    requires t != [] && u != [] && t[0] == u[0]
    requires Distinct(t) && Distinct(u)
    requires forall x :: x in t <==> x in u
    ensures forall x :: x in t[1..] <==> x in u[1..]
  {
    HeadNotInTail(t);
    HeadNotInTail(u);
    forall x
      ensures x in t[1..] <==> x in u[1..]
    {
      assert x in t <==> x == t[0] || x in t[1..] by {
        assert t == [t[0]] + t[1..];
      }
      assert x in u <==> x == u[0] || x in u[1..] by {
        assert u == [u[0]] + u[1..];
      }
    }
  }

  lemma HeadNotInTail(t: seq<string>)
    requires t != [] && Distinct(t)
    ensures t[0] !in t[1..]
  {
    assert forall k :: 0 <= k < |t| - 1 ==> t[1..][k] == t[k + 1];
  }

  /** Kept is the one list with the three properties above: any duplicate-free
      list of exactly the values of `s` other than `r`, in first-occurrence
      order, is Kept(s, r). */
  lemma KeptIsUnique(s: seq<string>, r: string, t: seq<string>)
    requires forall x :: x in t <==> x in s && x != r
    requires Distinct(t)
    requires InFirstOccurrenceOrder(s, t)
    ensures t == Kept(s, r)
  {
    KeptMembers(s, r);
    KeptDistinct(s, r);
    KeptOrder(s, r);
    OrderedListsEqual(s, t, Kept(s, r));
  }

  /** Kept(s, r) is the one list with the three defining properties. */
  lemma KeptCharacterized(s: seq<string>, r: string, t: seq<string>)
    ensures IsRemoval(s, r, t) <==> t == Kept(s, r)
  {
    KeptMembers(s, r);
    KeptDistinct(s, r);
    KeptOrder(s, r);
    if IsRemoval(s, r, t) {
      KeptIsUnique(s, r, t);
    }
  }

  /** A list that is already duplicate-free and free of `r` passes unchanged. */
  lemma {:induction false} KeptOfClean(t: seq<string>, r: string)
    requires Distinct(t) && r !in t
    ensures Kept(t, r) == t
  {
    if t != [] {
      var p := t[..|t| - 1];
      KeptOfClean(p, r);
      assert t == p + [t[|t| - 1]];
    }
  }

  /** Removing the same value twice is the same as removing it once. */
  lemma KeptIdempotent(s: seq<string>, r: string)
    ensures Kept(Kept(s, r), r) == Kept(s, r)
  {
    KeptDistinct(s, r);
    KeptExcludes(s, r);
    KeptOfClean(Kept(s, r), r);
  }

  /** On a duplicate-free list the result is one shorter exactly when `r` was
      in it. */
  lemma {:induction false} KeptLength(s: seq<string>, r: string)
    requires Distinct(s)
    ensures |Kept(s, r)| == if r in s then |s| - 1 else |s|
  {
    if s != [] {
      var p := s[..|s| - 1];
      var x := s[|s| - 1];
      assert s == p + [x];
      KeptLength(p, r);
      KeptMembers(p, r);
      assert x !in p;
    }
  }

  /** The three cases of TestRemoveFromSlice (pan_test.go). */
  lemma RemoveFromSliceTestLengths()
    ensures |Kept(["obj1", "obj2", "obj3", "obj4"], "obj1")| == 3
    ensures |Kept(["obj1", "obj2", "obj3", "obj4", "obj7"], "obj3")| == 4
    ensures |Kept(["obj1", "obj2", "obj3", "obj4", "obj9", "obj10"], "obj4")| == 5
  {
    var a := ["obj1", "obj2", "obj3", "obj4"];
    var b := ["obj1", "obj2", "obj3", "obj4", "obj7"];
    var c := ["obj1", "obj2", "obj3", "obj4", "obj9", "obj10"];
    assert a[0] == "obj1" && b[2] == "obj3" && c[3] == "obj4";
    KeptLength(a, "obj1");
    KeptLength(b, "obj3");
    KeptLength(c, "obj4");
  }
}
