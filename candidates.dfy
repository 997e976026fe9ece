/**
 * The candidate list and its in-place edits: `indexOf`, and what one call of `addValues`
 * or `removeValues` does to the list, as functions of the list before the call.
 */
module Candidates {

  /** Position of the first occurrence of `item` in `arr`, or -1 when there is none. */
  function IndexOf(arr: seq<string>, item: string): (r: int)
    ensures -1 <= r < |arr|
    ensures r == -1 <==> item !in arr
    ensures 0 <= r ==> arr[r] == item && item !in arr[..r]
  {
    if arr == [] then -1
    else if arr[0] == item then 0
    else
      var k := IndexOf(arr[1..], item);
      assert arr[1..][..k + 1] == arr[1..k + 2] by { assert k + 1 <= |arr[1..]|; }
      if k == -1 then -1 else k + 1
  }

  predicate NoDuplicates(s: seq<string>) {
    forall i, j :: 0 <= i < j < |s| ==> s[i] != s[j]
  }

  /** One turn of the `addValues` loop: a non-empty value that is not yet in the list is appended. */
  function AddOne(cur: seq<string>, v: string): seq<string> {
    if v != "" && IndexOf(cur, v) == -1 then cur + [v] else cur
  }

  /** The list after `addValues(vs)`: the loop's turns in order, each seeing the values the earlier
      turns appended. The values already in the list keep their positions. */
  function AddAll(cur: seq<string>, vs: seq<string>): (r: seq<string>)
    ensures cur <= r
    decreases |vs|
  {
    if vs == [] then cur else AddOne(AddAll(cur, vs[..|vs| - 1]), vs[|vs| - 1])
  }

  /** Exactly the old values and the non-empty listed values end up in the list. */
  lemma {:induction false} AddAllMembers(cur: seq<string>, vs: seq<string>, x: string)
    ensures x in AddAll(cur, vs) <==> x in cur || (x != "" && x in vs)
    decreases |vs|
  {
    if vs != [] {
      var init := vs[..|vs| - 1];
      AddAllMembers(cur, init, x);
      assert vs == init + [vs[|vs| - 1]];
    }
  }

  /** Adding never introduces a duplicate. */
  lemma {:induction false} AddAllNoDuplicates(cur: seq<string>, vs: seq<string>)
    requires NoDuplicates(cur)
    ensures NoDuplicates(AddAll(cur, vs))
    decreases |vs|
  {
    if vs != [] {
      AddAllNoDuplicates(cur, vs[..|vs| - 1]);
    }
  }

  /** Adding values that are all present already (or empty) leaves the list as it is. */
  lemma {:induction false} AddAllPresent(cur: seq<string>, vs: seq<string>)
    requires forall i :: 0 <= i < |vs| ==> vs[i] == "" || vs[i] in cur
    ensures AddAll(cur, vs) == cur
    decreases |vs|
  {
    if vs != [] {
      AddAllPresent(cur, vs[..|vs| - 1]);
      assert vs[|vs| - 1] == "" || vs[|vs| - 1] in cur;
    }
  }

  /** Adding the same values a second time changes nothing. */
  lemma AddAllIdempotent(cur: seq<string>, vs: seq<string>)
    ensures AddAll(AddAll(cur, vs), vs) == AddAll(cur, vs)
  {
    forall i | 0 <= i < |vs| ensures vs[i] == "" || vs[i] in AddAll(cur, vs) {
      AddAllMembers(cur, vs, vs[i]);
    }
    AddAllPresent(AddAll(cur, vs), vs);
  }

  /** The appended values are new, non-empty, listed values, in the order in which they first occur
      in the argument. */
  predicate NewInOrder(added: seq<string>, cur: seq<string>, vs: seq<string>) {
    && (forall i :: 0 <= i < |added| ==> added[i] != "" && added[i] in vs && added[i] !in cur)
    && (forall i, j :: 0 <= i < j < |added| ==> IndexOf(vs, added[i]) < IndexOf(vs, added[j]))
  }

  lemma {:induction false} AddAllAppendsInOrder(cur: seq<string>, vs: seq<string>)
    ensures NewInOrder(AddAll(cur, vs)[|cur|..], cur, vs)
    decreases |vs|
  {
    if vs != [] {
      var n := |vs| - 1;
      var init, v := vs[..n], vs[n];
      AddAllAppendsInOrder(cur, init);
      var before := AddAll(cur, init);
      var added0 := before[|cur|..];
      var added := AddAll(cur, vs)[|cur|..];
      assert vs == init + [v];
      forall i | 0 <= i < |added0| ensures IndexOf(vs, added0[i]) == IndexOf(init, added0[i]) {
        IndexOfPrefix(init, [v], added0[i]);
      }
      if v != "" && IndexOf(before, v) == -1 {
        assert added == added0 + [v];
        AddAllMembers(cur, init, v);
        assert v !in init;
        IndexOfAfterPrefix(init, v);
      } else {
        assert added == added0;
      }
    }
  }

  lemma IndexOfPrefix(a: seq<string>, b: seq<string>, x: string)
    requires x in a
    ensures IndexOf(a + b, x) == IndexOf(a, x)
  {
    var k := IndexOf(a, x);
    assert (a + b)[k] == x;
    assert forall i :: 0 <= i < k ==> a[i] != x by {
      forall i | 0 <= i < k ensures a[i] != x { assert a[i] == a[..k][i]; }
    }
    var j := IndexOf(a + b, x);
    assert forall i :: 0 <= i < j ==> (a + b)[i] != x by {
      forall i | 0 <= i < j ensures (a + b)[i] != x { assert (a + b)[i] == (a + b)[..j][i]; }
    }
  }

  lemma IndexOfAfterPrefix(a: seq<string>, x: string)
    requires x !in a
    ensures IndexOf(a + [x], x) == |a|
  {
    assert (a + [x])[|a|] == x;
    assert forall i :: 0 <= i < |a| ==> (a + [x])[i] != x by {
      forall i | 0 <= i < |a| ensures (a + [x])[i] != x { assert (a + [x])[i] == a[i]; }
    }
  }

  /** One turn of the `removeValues` loop: the first occurrence of a non-empty value is spliced out. */
  function RemoveOne(cur: seq<string>, v: string): seq<string> {
    var k := IndexOf(cur, v);
    if v != "" && k > -1 then cur[..k] + cur[k + 1..] else cur
  }

  /** The list after `removeValues(vs)`. */
  function RemoveAll(cur: seq<string>, vs: seq<string>): seq<string>
    decreases |vs|
  {
    if vs == [] then cur else RemoveOne(RemoveAll(cur, vs[..|vs| - 1]), vs[|vs| - 1])
  }

  /** The non-empty entries of `vs`, the ones the loops act on. */
  function NonEmpty(vs: seq<string>): seq<string>
    decreases |vs|
  {
    if vs == [] then []
    else NonEmpty(vs[..|vs| - 1]) + (if vs[|vs| - 1] != "" then [vs[|vs| - 1]] else [])
  }

  /** Removing a present value deletes its first occurrence and keeps the rest in order. */
  lemma RemoveOneFirst(cur: seq<string>, v: string)
    requires v != "" && v in cur
    ensures exists k :: 0 <= k < |cur| && cur[k] == v && v !in cur[..k] && RemoveOne(cur, v) == cur[..k] + cur[k + 1..]
  {
    var k := IndexOf(cur, v);
    assert cur[k] == v && v !in cur[..k];
  }

  /** One turn of the removal loop takes away one copy of a present non-empty value. */
  lemma RemoveOneCount(cur: seq<string>, v: string)
    ensures v == "" ==> RemoveOne(cur, v) == cur
    ensures v != "" ==> multiset(RemoveOne(cur, v)) == multiset(cur) - multiset{v}
  {
    var k := IndexOf(cur, v);
    if v != "" && k > -1 {
      assert cur[k] == v && RemoveOne(cur, v) == cur[..k] + cur[k + 1..];
      SpliceCount(cur, k);
    } else if v != "" {
      assert v !in cur && RemoveOne(cur, v) == cur;
      MinusAbsent(cur, v);
    }
  }

  lemma MinusAbsent(s: seq<string>, v: string)
    requires v !in s
    ensures multiset(s) - multiset{v} == multiset(s)
  {
    assert multiset(s)[v] == 0;
  }

  lemma SpliceCount(s: seq<string>, k: nat)
    requires k < |s|
    ensures multiset(s[..k] + s[k + 1..]) == multiset(s) - multiset{s[k]}
  {
    var a, b := s[..k], s[k + 1..];
    assert s == a + [s[k]] + b;
    assert multiset(s) == multiset(a) + multiset{s[k]} + multiset(b);
    assert multiset(a + b) == multiset(a) + multiset(b);
  }

  /** Each listed non-empty value removes one copy if there is one: the removed values are the
      multiset difference. */
  lemma {:induction false} RemoveAllCount(cur: seq<string>, vs: seq<string>)
    ensures multiset(RemoveAll(cur, vs)) == multiset(cur) - multiset(NonEmpty(vs))
    decreases |vs|
  {
    if vs != [] {
      var init, v := vs[..|vs| - 1], vs[|vs| - 1];
      RemoveAllCount(cur, init);
      RemoveOneCount(RemoveAll(cur, init), v);
      if v != "" {
        var m, n := multiset(cur), multiset(NonEmpty(init));
        assert NonEmpty(vs) == NonEmpty(init) + [v];
        assert multiset(NonEmpty(vs)) == n + multiset{v};
        forall x ensures ((m - n) - multiset{v})[x] == (m - (n + multiset{v}))[x] {
        }
        assert (m - n) - multiset{v} == m - (n + multiset{v});
      } else {
        assert NonEmpty(vs) == NonEmpty(init);
      }
    }
  }

  /** Splicing out one element keeps a list free of duplicates. */
  lemma SpliceNoDuplicates(s: seq<string>, k: nat)
    requires NoDuplicates(s) && k < |s|
    ensures NoDuplicates(s[..k] + s[k + 1..])
  {
    var after := s[..k] + s[k + 1..];
    forall i, j | 0 <= i < j < |after| ensures after[i] != after[j] {
      var i' := if i < k then i else i + 1;
      var j' := if j < k then j else j + 1;
      assert after[i] == s[i'] && after[j] == s[j'];
    }
  }

  /** Removing keeps a list free of duplicates. */
  lemma {:induction false} RemoveAllNoDuplicates(cur: seq<string>, vs: seq<string>)
    requires NoDuplicates(cur)
    ensures NoDuplicates(RemoveAll(cur, vs))
    decreases |vs|
  {
    if vs != [] {
      RemoveAllNoDuplicates(cur, vs[..|vs| - 1]);
      var before := RemoveAll(cur, vs[..|vs| - 1]);
      var v := vs[|vs| - 1];
      var k := IndexOf(before, v);
      if v != "" && k > -1 {
        SpliceNoDuplicates(before, k);
      }
    }
  }

  /** One more turn of the adding loop. */
  lemma AddAllStep(cur: seq<string>, vs: seq<string>, i: nat)
    requires i < |vs|
    ensures AddAll(cur, vs[..i + 1]) == AddOne(AddAll(cur, vs[..i]), vs[i])
  {
    assert vs[..i + 1][..i] == vs[..i];
  }

  /** One more turn of the removal loop. */
  lemma RemoveAllStep(cur: seq<string>, vs: seq<string>, i: nat)
    requires i < |vs|
    ensures RemoveAll(cur, vs[..i + 1]) == RemoveOne(RemoveAll(cur, vs[..i]), vs[i])
  {
    assert vs[..i + 1][..i] == vs[..i];
  }

  /** Removing values none of which is in the list leaves it as it is. */
  lemma {:induction false} RemoveAllAbsent(cur: seq<string>, vs: seq<string>)
    requires forall i :: 0 <= i < |vs| ==> vs[i] !in cur
    ensures RemoveAll(cur, vs) == cur
    decreases |vs|
  {
    if vs != [] {
      RemoveAllAbsent(cur, vs[..|vs| - 1]);
    }
  }
}
