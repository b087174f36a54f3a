/** The abstract view of the malfunction-code registry: the live codes, in the
    order they were reported, as a sequence. The registry in MalfunctionCentral
    is proved against the functions of this module. */
module ErrorCodeList {

  /** No code occurs twice in `s`. */
  ghost predicate NoDuplicates(s: seq<int>) {
    forall i, j :: 0 <= i < j < |s| ==> s[i] != s[j]
  }

  /** The position of the first occurrence of `e` in `s`, or -1 when `e` does
      not occur: what the linear search of the registry returns. */
  function IndexOf(s: seq<int>, e: int): (r: int)
    ensures -1 <= r < |s|
    ensures r == -1 <==> e !in s
    ensures r >= 0 ==> s[r] == e && e !in s[..r]
  {
    if s == [] then -1
    else if s[0] == e then 0
    else
      var r := IndexOf(s[1..], e);
      if r < 0 then -1 else r + 1
  }

  /** The live codes after reporting `e` to a registry of `cap` slots: `e` is
      appended unless it is already there or the registry is full. */
  function Added(s: seq<int>, e: int, cap: nat): (r: seq<int>)
    ensures |s| <= cap ==> |r| <= cap
    ensures forall x :: x in r <==> x in s || (x == e && |s| < cap)
    ensures NoDuplicates(s) ==> NoDuplicates(r)
  {
    if |s| < cap && e !in s then s + [e] else s
  }

  /** The live codes after clearing `e`: its first occurrence is cut out and
      the others keep their order. */
  function Removed(s: seq<int>, e: int): (r: seq<int>)
    ensures |r| == if e in s then |s| - 1 else |s|
    ensures forall x :: x in r ==> x in s
  {
    var i := IndexOf(s, e);
    if i < 0 then s else s[..i] + s[i + 1..]
  }

  /** In a duplicate-free list the search finds every code at its own position. */
  lemma IndexOfDistinct(s: seq<int>, i: nat)
    requires NoDuplicates(s) && i < |s|
    ensures IndexOf(s, s[i]) == i
  {
    assert s[i] in s[..i + 1];
  }

  /** Clearing a code from a duplicate-free list keeps it duplicate-free and
      removes exactly that code: the list still behaves as a set. */
  lemma RemovedFromDistinct(s: seq<int>, e: int)
    requires NoDuplicates(s)
    ensures NoDuplicates(Removed(s, e))
    ensures forall x :: x in Removed(s, e) <==> x in s && x != e
  {
    var i := IndexOf(s, e);
    if i >= 0 {
      var r := Removed(s, e);
      assert r == s[..i] + s[i + 1..];
      assert forall k :: 0 <= k < |r| ==> r[k] == s[if k < i then k else k + 1];
      forall x | x in s && x != e ensures x in r {
        var k :| 0 <= k < |s| && s[k] == x;
        assert k != i;
        assert r[if k < i then k else k - 1] == x;
      }
      forall x | x in r ensures x != e {
        var k :| 0 <= k < |r| && r[k] == x;
        assert r[k] == s[if k < i then k else k + 1];
      }
    }
  }

  /** Clearing removes one copy of the code and nothing else. */
  lemma RemovedMultiset(s: seq<int>, e: int)
    ensures multiset(Removed(s, e)) == multiset(s) - multiset{e}
  {
    var i := IndexOf(s, e);
    if i >= 0 {
      assert s == s[..i] + [e] + s[i + 1..];
      assert multiset(s) == multiset(s[..i]) + multiset{e} + multiset(s[i + 1..]);
    } else {
      assert multiset(s)[e] == 0;
    }
  }

  /** Reporting an absent code to a registry with room and then clearing it
      gives back the original list. */
  lemma AddThenRemove(s: seq<int>, e: int, cap: nat)
    requires e !in s && |s| < cap
    ensures Removed(Added(s, e, cap), e) == s
  {
    assert (s + [e])[..|s|] == s;
  }

  /** Reporting the same code twice has the effect of reporting it once. */
  lemma AddIdempotent(s: seq<int>, e: int, cap: nat)
    ensures Added(Added(s, e, cap), e, cap) == Added(s, e, cap)
  {
    if |s| < cap && e !in s {
      assert e in s + [e];
    }
  }

  /** In a duplicate-free list, clearing the same code twice has the effect of
      clearing it once. */
  lemma RemoveIdempotent(s: seq<int>, e: int)
    requires NoDuplicates(s)
    ensures Removed(Removed(s, e), e) == Removed(s, e)
  {
    RemovedFromDistinct(s, e);
  }
}
