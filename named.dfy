/** Lists of named configuration entries, as the policy store keeps them per
    device group: entry names are unique within one list, and the store edits
    and deletes entries by name. */
module Named {

  predicate Unique<T>(s: seq<T>, nameOf: T -> string)
  {
    forall i, j :: 0 <= i < j < |s| ==> nameOf(s[i]) != nameOf(s[j])
  }

  function Names<T>(s: seq<T>, nameOf: T -> string): (ns: seq<string>)
    ensures |ns| == |s|
    ensures forall k :: 0 <= k < |s| ==> ns[k] == nameOf(s[k])
  {
    seq(|s|, k requires 0 <= k < |s| => nameOf(s[k]))
  }

  /** One more position of a list holds a value exactly when the earlier ones
      or the new one do. */
  lemma PrefixMembership<T>(s: seq<T>, i: nat, x: T)
    requires i < |s|
    ensures x in s[..i + 1] <==> x in s[..i] || s[i] == x
  {
    assert s[..i + 1] == s[..i] + [s[i]];
  }

  /** With unique names, no name is listed before its own position. */
  lemma NamesDistinct<T>(s: seq<T>, nameOf: T -> string, i: nat)
    requires Unique(s, nameOf) && i < |s|
    ensures Names(s, nameOf)[i] !in Names(s, nameOf)[..i]
  {
    var ns := Names(s, nameOf);
    forall k | 0 <= k < i
      ensures ns[..i][k] != ns[i]
    {
      assert ns[..i][k] == nameOf(s[k]);
    }
  }

  /** An edit of entry `e`: it replaces the entry of the same name, or is
      added at the end when there is none. */
  function Upsert<T>(s: seq<T>, nameOf: T -> string, e: T): seq<T>
  {
    if nameOf(e) in Names(s, nameOf)
    then seq(|s|, k requires 0 <= k < |s| => if nameOf(s[k]) == nameOf(e) then e else s[k])
    else s + [e]
  }

  lemma UpsertUnique<T>(s: seq<T>, nameOf: T -> string, e: T)
    requires Unique(s, nameOf)
    ensures Unique(Upsert(s, nameOf, e), nameOf)
  {
    var ns := Names(s, nameOf);
    if nameOf(e) !in ns {
      var r := s + [e];
      forall i, j | 0 <= i < j < |r|
        ensures nameOf(r[i]) != nameOf(r[j])
      {
        if j == |s| {
          assert nameOf(r[i]) == ns[i];
        }
      }
    }
  }

  /** In a list with unique names, an edit of an entry that has the name of
      the entry at position i replaces exactly that position. */
  lemma UpsertAt<T>(s: seq<T>, nameOf: T -> string, e: T, i: nat)
    requires Unique(s, nameOf)
    requires i < |s| && nameOf(s[i]) == nameOf(e)
    ensures Upsert(s, nameOf, e) == s[i := e]
  {
    assert Names(s, nameOf)[i] == nameOf(e);
  }

  /** A deletion by name: every entry called `n` goes, the rest stay in order. */
  function Without<T(!new)>(s: seq<T>, nameOf: T -> string, n: string): (r: seq<T>)
    ensures forall x :: x in r <==> x in s && nameOf(x) != n
  {
    if s == [] then []
    else
      var p, last := s[..|s| - 1], s[|s| - 1];
      assert forall x :: x in s <==> x in p || x == last by {
        assert s == p + [last];
      }
      Without(p, nameOf, n) + if nameOf(last) == n then [] else [last]
  }

  lemma {:induction false} WithoutUnique<T(!new)>(s: seq<T>, nameOf: T -> string, n: string)
    requires Unique(s, nameOf)
    ensures Unique(Without(s, nameOf, n), nameOf)
  {
    if s != [] {
      var p, last := s[..|s| - 1], s[|s| - 1];
      WithoutUnique(p, nameOf, n);
      var w := Without(p, nameOf, n);
      forall i | 0 <= i < |w|
        ensures nameOf(w[i]) != nameOf(last)
      {
        assert w[i] in p;
        var k :| 0 <= k < |p| && p[k] == w[i];
        assert s[k] == w[i];
      }
    }
  }

  /** With unique names, a deletion removes one entry when the name is listed
      and none when it is not. */
  lemma {:induction false} WithoutLength<T(!new)>(s: seq<T>, nameOf: T -> string, n: string)
    requires Unique(s, nameOf)
    ensures |Without(s, nameOf, n)| == if n in Names(s, nameOf) then |s| - 1 else |s|
  {
    if s != [] {
      var p := s[..|s| - 1];
      UniquePrefix(s, nameOf);
      WithoutLength(p, nameOf, n);
      NamesLast(s, nameOf, n);
    }
  }

  lemma UniquePrefix<T>(s: seq<T>, nameOf: T -> string)
    requires s != [] && Unique(s, nameOf)
    ensures Unique(s[..|s| - 1], nameOf)
  {
    assert forall k :: 0 <= k < |s| - 1 ==> s[..|s| - 1][k] == s[k];
  }

  /** The names of a list are those before its last entry and then the last
      entry's, which, with unique names, is not among the others. */
  lemma NamesLast<T>(s: seq<T>, nameOf: T -> string, n: string)
    requires s != [] && Unique(s, nameOf)
    ensures var p := s[..|s| - 1];
            n in Names(s, nameOf) <==> n in Names(p, nameOf) || n == nameOf(s[|s| - 1])
    ensures nameOf(s[|s| - 1]) !in Names(s[..|s| - 1], nameOf)
  {
    var p := s[..|s| - 1];
    assert Names(s, nameOf) == Names(p, nameOf) + [nameOf(s[|s| - 1])];
    forall k | 0 <= k < |p|
      ensures Names(p, nameOf)[k] != nameOf(s[|s| - 1])
    {
      assert Names(p, nameOf)[k] == nameOf(s[k]);
    }
  }

  /** One pass of edits over a list: every entry is replaced by `edit(entry, obj)`,
      except the entries named in `rejected`, whose edit the store refuses. */
  function EditAll<T>(s: seq<T>, nameOf: T -> string, edit: (T, string) -> T, obj: string,
                      rejected: set<string>): (r: seq<T>)
    ensures |r| == |s|
    ensures forall k :: 0 <= k < |s| ==> r[k] == if nameOf(s[k]) in rejected then s[k] else edit(s[k], obj)
  {
    if s == [] then []
    else
      var last := s[|s| - 1];
      EditAll(s[..|s| - 1], nameOf, edit, obj, rejected) + [if nameOf(last) in rejected then last else edit(last, obj)]
  }

  /** The edit never renames an entry. */
  ghost predicate KeepsNames<T(!new)>(nameOf: T -> string, edit: (T, string) -> T, obj: string)
  {
    forall x :: nameOf(edit(x, obj)) == nameOf(x)
  }

  /** A list whose first i entries are edited has the names of the original. */
  lemma EditedPrefixNames<T(!new)>(s: seq<T>, nameOf: T -> string, edit: (T, string) -> T, obj: string,
                                   rejected: set<string>, i: nat)
    requires i <= |s| && KeepsNames(nameOf, edit, obj)
    ensures var cur := EditAll(s[..i], nameOf, edit, obj, rejected) + s[i..];
            |cur| == |s| && forall k :: 0 <= k < |s| ==> nameOf(cur[k]) == nameOf(s[k])
  {
    var e := EditAll(s[..i], nameOf, edit, obj, rejected);
    var cur := e + s[i..];
    forall k | 0 <= k < |s|
      ensures nameOf(cur[k]) == nameOf(s[k])
    {
      if k < i {
        assert cur[k] == e[k];
      } else {
        assert cur[k] == s[i..][k - i];
      }
    }
  }

  /** Editing one more entry changes exactly position i. */
  lemma EditedOneMore<T>(s: seq<T>, nameOf: T -> string, edit: (T, string) -> T, obj: string,
                         rejected: set<string>, i: nat)
    requires i < |s|
    ensures EditAll(s[..i + 1], nameOf, edit, obj, rejected) + s[i + 1..]
            == (EditAll(s[..i], nameOf, edit, obj, rejected) + s[i..])[i := if nameOf(s[i]) in rejected then s[i] else edit(s[i], obj)]
  {
    assert s[..i + 1][..i] == s[..i];
  }

  /** One step of an edit pass that works through a list by name: with the
      first i entries edited, editing entry i by name edits exactly it. */
  lemma EditStep<T(!new)>(s: seq<T>, nameOf: T -> string, edit: (T, string) -> T, obj: string,
                    rejected: set<string>, i: nat)
    requires i < |s| && Unique(s, nameOf)
    requires KeepsNames(nameOf, edit, obj)
    ensures Unique(EditAll(s[..i], nameOf, edit, obj, rejected) + s[i..], nameOf)
    ensures var cur := EditAll(s[..i], nameOf, edit, obj, rejected) + s[i..];
            EditAll(s[..i + 1], nameOf, edit, obj, rejected) + s[i + 1..]
            == if nameOf(s[i]) in rejected then cur else Upsert(cur, nameOf, edit(s[i], obj))
  {
    var cur := EditAll(s[..i], nameOf, edit, obj, rejected) + s[i..];
    EditedPrefixNames(s, nameOf, edit, obj, rejected, i);
    EditedOneMore(s, nameOf, edit, obj, rejected, i);
    assert cur[i] == s[i];
    if nameOf(s[i]) !in rejected {
      UpsertAt(cur, nameOf, edit(s[i], obj), i);
    }
  }

  /** The same step on the store's map of lists: the list at `key` goes from
      `before` to `after` by one edit by name, which the store accepts (`ok`)
      unless the entry's name is refused. */
  lemma EditPassStep<K, T(!new)>(base: map<K, seq<T>>, key: K, s: seq<T>, nameOf: T -> string,
                           edit: (T, string) -> T, obj: string, rejected: set<string>, i: nat,
                           before: map<K, seq<T>>, after: map<K, seq<T>>, ok: bool)
    requires i < |s| && Unique(s, nameOf) && KeepsNames(nameOf, edit, obj)
    requires before == base[key := EditAll(s[..i], nameOf, edit, obj, rejected) + s[i..]]
    requires ok <==> nameOf(s[i]) !in rejected
    requires after == if ok then before[key := Upsert(before[key], nameOf, edit(s[i], obj))] else before
    ensures after == base[key := EditAll(s[..i + 1], nameOf, edit, obj, rejected) + s[i + 1..]]
  {
    EditStep(s, nameOf, edit, obj, rejected, i);
  }

  /** An edit pass that has not started yet leaves the store as it is. */
  lemma EditPassStart<K, T>(m: map<K, seq<T>>, key: K, s: seq<T>, nameOf: T -> string,
                            edit: (T, string) -> T, obj: string, rejected: set<string>)
    requires key in m && m[key] == s
    ensures m == m[key := EditAll(s[..0], nameOf, edit, obj, rejected) + s[0..]]
  {
    assert s[..0] == [] && s[0..] == s;
    assert EditAll(s[..0], nameOf, edit, obj, rejected) == [];
    assert EditAll(s[..0], nameOf, edit, obj, rejected) + s[0..] == s;
    assert m[key := s] == m;
  }

  /** An edit pass that has gone through the whole list. */
  lemma EditPassDone<K, T>(m: map<K, seq<T>>, key: K, s: seq<T>, nameOf: T -> string,
                           edit: (T, string) -> T, obj: string, rejected: set<string>)
    ensures m[key := EditAll(s[..|s|], nameOf, edit, obj, rejected) + s[|s|..]]
            == m[key := EditAll(s, nameOf, edit, obj, rejected)]
  {
    assert s[..|s|] == s && s[|s|..] == [];
    assert EditAll(s[..|s|], nameOf, edit, obj, rejected) + s[|s|..] == EditAll(s, nameOf, edit, obj, rejected);
  }
}
