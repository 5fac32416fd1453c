/** The recency-ordered list of keys that stands in for the engine's doubly
    linked list. Index 0 is the front (most recently used); the last index is
    the back (the eviction candidate). Only keys are kept here: the nodes
    themselves live in the engine's map. */
module RecencyList {

  /** The keys present in the list. */
  function Elems(s: seq<string>): set<string>
  {
    set x | x in s
  }

  /** No key occurs twice. */
  ghost predicate Distinct(s: seq<string>)
  {
    s == [] || (s[0] !in s[1..] && Distinct(s[1..]))
  }

  /** Prepending a key adds exactly that key. */
  lemma ElemsCons(x: string, s: seq<string>)
    ensures Elems([x] + s) == {x} + Elems(s)
  {
    assert forall y :: y in [x] + s <==> y == x || y in s;
  }

  /** Prepending a key that is not yet present keeps a list duplicate-free. */
  lemma DistinctCons(x: string, s: seq<string>)
    requires Distinct(s) && x !in s
    ensures Distinct([x] + s)
  {
    assert ([x] + s)[1..] == s;
  }

  /** Keeping the head in front of a duplicate-free sub-list of the tail keeps
      a duplicate-free list duplicate-free. */
  lemma KeepHeadDistinct(s: seq<string>, rest: seq<string>)
    requires s != [] && Elems(rest) <= Elems(s[1..])
    requires Distinct(s[1..]) ==> Distinct(rest)
    ensures Distinct(s) ==> Distinct([s[0]] + rest)
  {
    if Distinct(s) {
      assert s[0] !in Elems(rest);
      DistinctCons(s[0], rest);
    }
  }

  /** A list without duplicates is exactly as long as its set of keys is large. */
  lemma {:induction false} DistinctSize(s: seq<string>)
    requires Distinct(s)
    ensures |Elems(s)| == |s|
  {
    if s != [] {
      assert s == [s[0]] + s[1..];
      ElemsCons(s[0], s[1..]);
      DistinctSize(s[1..]);
    }
  }

  /** Unlinking a key (`list.Remove`): every other key keeps its place in the order. */
  function Without(s: seq<string>, k: string): (r: seq<string>)
    ensures Elems(r) == Elems(s) - {k}
    ensures Distinct(s) ==> Distinct(r)
  {
    if s == [] then []
    else
      var rest := Without(s[1..], k);
      ElemsCons(s[0], s[1..]);
      if s[0] == k then rest
      else
        ElemsCons(s[0], rest);
        KeepHeadDistinct(s, rest);
        [s[0]] + rest
  }

  /** Unlinking a key that is not in the list changes nothing. */
  lemma {:induction false} WithoutAbsent(s: seq<string>, k: string)
    requires k !in s
    ensures Without(s, k) == s
  {
    if s != [] {
      WithoutAbsent(s[1..], k);
      assert [s[0]] + s[1..] == s;
    }
  }

  /** Unlinking a key that is present shortens a duplicate-free list by exactly one. */
  lemma WithoutSize(s: seq<string>, k: string)
    requires Distinct(s) && k in s
    ensures |Without(s, k)| == |s| - 1
  {
    DistinctSize(s);
    DistinctSize(Without(s, k));
    assert k in Elems(s);
  }

  /** Unlinking the back element of a duplicate-free list is dropping the last index. */
  lemma {:induction false} WithoutBack(s: seq<string>)
    requires Distinct(s) && s != []
    ensures Without(s, s[|s| - 1]) == s[..|s| - 1]
  {
    var back := s[|s| - 1];
    if |s| == 1 {
      assert Without(s[1..], back) == [];
    } else {
      assert back == s[1..][|s| - 2];
      assert s[0] != back;
      assert s[1..][|s| - 2] == back;
      WithoutBack(s[1..]);
      assert s[1..][..|s| - 2] == s[1..|s| - 1];
      assert [s[0]] + s[1..|s| - 1] == s[..|s| - 1];
    }
  }

  /** `list.MoveToFront`: the key is unlinked and re-linked at the front. */
  function MoveToFront(s: seq<string>, k: string): (r: seq<string>)
    ensures r != [] && r[0] == k
    ensures Elems(r) == Elems(s) + {k}
  {
    ElemsCons(k, Without(s, k));
    [k] + Without(s, k)
  }

  /** Moving a present key to the front of a duplicate-free list is a
      permutation of that list, and the keys other than the moved one keep
      their relative order. */
  lemma MoveToFrontPermutes(s: seq<string>, k: string)
    requires Distinct(s) && k in s
    ensures Distinct(MoveToFront(s, k))
    ensures Elems(MoveToFront(s, k)) == Elems(s)
    ensures |MoveToFront(s, k)| == |s|
    ensures Without(MoveToFront(s, k), k) == Without(s, k)
  {
    var w := Without(s, k);
    assert k !in Elems(w);
    WithoutSize(s, k);
    WithoutAbsent(w, k);
    assert MoveToFront(s, k)[1..] == w;
  }

  /** A key moved to the front of a list of two or more keys is no longer the
      back, so the next eviction picks some other key. */
  lemma MoveToFrontLeavesBack(s: seq<string>, k: string)
    requires Distinct(s) && k in s && |s| >= 2
    ensures var r := MoveToFront(s, k); |r| == |s| && r[|r| - 1] != k
  {
    MoveToFrontPermutes(s, k);
    var r := MoveToFront(s, k);
    assert r[0] == k;
  }

  /** The sub-list of `s` whose keys are in `keys`, in the order of `s`. */
  function Restrict(s: seq<string>, keys: set<string>): (r: seq<string>)
    ensures Elems(r) == Elems(s) * keys
    ensures Distinct(s) ==> Distinct(r)
  {
    if s == [] then []
    else
      var rest := Restrict(s[1..], keys);
      ElemsCons(s[0], s[1..]);
      if s[0] !in keys then rest
      else
        ElemsCons(s[0], rest);
        KeepHeadDistinct(s, rest);
        [s[0]] + rest
  }

  /** Restricting a list to a superset of its keys leaves it unchanged. */
  lemma {:induction false} RestrictAll(s: seq<string>, keys: set<string>)
    requires Elems(s) <= keys
    ensures Restrict(s, keys) == s
  {
    if s != [] {
      assert Elems(s[1..]) <= Elems(s);
      RestrictAll(s[1..], keys);
      assert [s[0]] + s[1..] == s;
    }
  }

  /** Unlinking one more key from a restricted list is restricting to one key fewer. */
  lemma {:induction false} RestrictWithout(s: seq<string>, keys: set<string>, k: string)
    ensures Without(Restrict(s, keys), k) == Restrict(s, keys - {k})
  {
    if s != [] {
      RestrictWithout(s[1..], keys, k);
    }
  }
}
