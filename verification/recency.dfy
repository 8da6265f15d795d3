/**
 * The bounded recency set used for duplicate suppression: headline strings in
 * insertion order (oldest first), no headline twice, at most `capacity` of
 * them. Recording a headline that is already present changes nothing (its
 * position is not refreshed); recording a new one appends it and, if the set
 * is then over capacity, drops the oldest. Eviction is strict FIFO.
 */
module Recency {

  /** No headline occurs twice. */
  ghost predicate Distinct(s: seq<string>)
  {
    forall i, j :: 0 <= i < j < |s| ==> s[i] != s[j]
  }

  /** The set after recording `h`: add if absent, then drop the oldest if over capacity. */
  function Record(s: seq<string>, h: string, cap: nat): (r: seq<string>)
    ensures |s| <= cap ==> |r| <= cap
    ensures cap >= 1 && |s| <= cap ==> h in r
    ensures forall x :: x in r ==> x in s || x == h
  {
    var added := if h in s then s else s + [h];
    if |added| > cap then
      assert h !in s && |added| >= 2 ==> added[1..][|added| - 2] == h;
      added[1..]
    else added
  }

  /** The last `n` elements of `xs` (all of them when there are at most `n`). */
  function Latest(xs: seq<string>, n: nat): (r: seq<string>)
    ensures |r| == if |xs| <= n then |xs| else n
    ensures forall i :: 0 <= i < |r| ==> r[i] == xs[|xs| - |r| + i]
  {
    if |xs| <= n then xs else xs[|xs| - n..]
  }

  /** Recording each of `hs` in turn, first to last. */
  function RecordAll(s: seq<string>, hs: seq<string>, cap: nat): (r: seq<string>)
    ensures |s| <= cap ==> |r| <= cap
    ensures cap >= 1 && |s| <= cap && hs != [] ==> hs[|hs| - 1] in r
    ensures forall x :: x in r ==> x in s || x in hs
    decreases |hs|
  {
    if hs == [] then s else RecordAll(Record(s, hs[0], cap), hs[1..], cap)
  }

  /**
   * Recording keeps the set's invariant (no duplicates, at most `cap`
   * elements), and the recorded headline is present afterwards.
   */
  lemma RecordKeepsInvariant(s: seq<string>, h: string, cap: nat)
    requires cap >= 1
    requires |s| <= cap && Distinct(s)
    ensures var r := Record(s, h, cap); Distinct(r) && |r| <= cap && h in r
  {
    if h !in s {
      var added := s + [h];
      assert added[|s|] == h;
      forall i, j | 0 <= i < j < |added|
        ensures added[i] != added[j]
      {
        if j == |s| {
          assert added[i] == s[i];
        }
      }
      if |added| > cap {
        assert added[1..][|added| - 2] == h;
      }
    }
  }

  /** Recording a headline already present changes neither contents nor order. */
  lemma RecordPresent(s: seq<string>, h: string, cap: nat)
    requires |s| <= cap
    requires h in s
    ensures Record(s, h, cap) == s
  {
  }

  /** Below capacity, a new headline is appended and nothing is evicted. */
  lemma RecordBelowCapacity(s: seq<string>, h: string, cap: nat)
    requires |s| < cap
    requires h !in s
    ensures Record(s, h, cap) == s + [h]
  {
  }

  /**
   * At capacity, a new headline evicts exactly the oldest element: every
   * other element stays, in its order, and the new headline comes last.
   */
  lemma RecordEvictsOldest(s: seq<string>, h: string, cap: nat)
    requires cap >= 1 && |s| == cap && Distinct(s)
    requires h !in s
    ensures Record(s, h, cap) == s[1..] + [h]
    ensures s[0] !in Record(s, h, cap)
    ensures forall x :: x in s && x != s[0] ==> x in Record(s, h, cap)
  {
  }

  /** A slice of a duplicate-free sequence is duplicate-free. */
  lemma DistinctSlice(s: seq<string>, lo: nat, hi: nat)
    requires lo <= hi <= |s|
    requires Distinct(s)
    ensures Distinct(s[lo..hi])
  {
  }

  /** The last `n` elements of a sequence do not depend on anything before them. */
  lemma LatestOfSuffix(xs: seq<string>, k: nat, n: nat)
    requires k <= |xs| && n <= |xs| - k
    ensures Latest(xs[k..], n) == Latest(xs, n)
  {
  }

  /** In a duplicate-free `s + hs`, the first of `hs` is not already in `s`. */
  lemma FirstIsNew(s: seq<string>, hs: seq<string>)
    requires hs != []
    requires Distinct(s + hs)
    ensures hs[0] !in s
  {
    var all := s + hs;
    forall k | 0 <= k < |s|
      ensures s[k] != hs[0]
    {
      assert all[k] == s[k] && all[|s|] == hs[0];
    }
  }

  /**
   * Recording a stream of distinct headlines leaves exactly the latest
   * `cap` of everything recorded so far, oldest first.
   */
  lemma {:induction false} RecordAllKeepsLatest(s: seq<string>, hs: seq<string>, cap: nat)
    requires cap >= 1
    requires |s| <= cap
    requires Distinct(s + hs)
    ensures RecordAll(s, hs, cap) == Latest(s + hs, cap)
    decreases |hs|
  {
    var all := s + hs;
    if hs == [] {
      assert all == s;
    } else {
      FirstIsNew(s, hs);
      var next := Record(s, hs[0], cap);
      var rest := hs[1..];
      if |s| == cap {
        assert next == (s + [hs[0]])[1..];
        assert next + rest == all[1..];
        DistinctSlice(all, 1, |all|);
        RecordAllKeepsLatest(next, rest, cap);
        LatestOfSuffix(all, 1, cap);
      } else {
        assert next == s + [hs[0]];
        assert next + rest == all;
        RecordAllKeepsLatest(next, rest, cap);
      }
    }
  }

  /**
   * Recording `cap + 1` distinct headlines into an empty set leaves exactly
   * `cap` of them: the first one recorded is gone, all the others remain.
   */
  lemma OverflowByOne(hs: seq<string>, cap: nat)
    requires cap >= 1
    requires |hs| == cap + 1 && Distinct(hs)
    ensures RecordAll([], hs, cap) == hs[1..]
    ensures |RecordAll([], hs, cap)| == cap
    ensures hs[0] !in RecordAll([], hs, cap)
  {
    assert [] + hs == hs;
    RecordAllKeepsLatest([], hs, cap);
    forall k | 0 <= k < cap
      ensures hs[1..][k] != hs[0]
    {
      assert hs[1..][k] == hs[k + 1];
    }
  }

  /** The recency set of headlines already handled. */
  class RecencySet {
    const capacity: nat
    var items: seq<string>

    ghost predicate Valid()
      reads this
    {
      capacity >= 1 && |items| <= capacity && Distinct(items)
    }

    constructor (capacity: nat)
      requires capacity >= 1
      ensures Valid()
      ensures this.capacity == capacity && items == []
    {
      this.capacity := capacity;
      items := [];
    }

    /** Exact-equality membership test; reads the set and changes nothing. */
    method Contains(h: string) returns (present: bool)
      ensures present <==> exists i :: 0 <= i < |items| && items[i] == h
    {
      present := h in items;
    }

    /** Adds `h` if absent; if the set then exceeds its capacity, evicts the oldest element. */
    method Store(h: string)
      requires Valid()
      modifies this
      ensures Valid()
      ensures items == Record(old(items), h, capacity)
      ensures h in items
    {
      RecordKeepsInvariant(items, h, capacity);
      if h !in items {
        items := items + [h];
      }
      if |items| > capacity {
        items := items[1..];
      }
    }
  }
}
