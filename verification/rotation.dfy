/**
 * Round-robin topic selection: a fixed, non-empty catalog of topics and a
 * cursor into it. Each request reads the topic under the cursor and then
 * moves the cursor one step forward, wrapping to the start of the catalog.
 */
module Rotation {

  /** The cursor position after one step over a catalog of `n` topics. */
  function Advance(cursor: nat, n: nat): (next: nat)
    requires cursor < n
    ensures next < n
    ensures next == if cursor == n - 1 then 0 else cursor + 1
  {
    (cursor + 1) % n
  }

  /** The cursor position after `k` successive steps. */
  function CursorAfter(cursor: nat, n: nat, k: nat): (c: nat)
    requires cursor < n
    ensures c < n
    decreases k
  {
    if k == 0 then cursor else CursorAfter(Advance(cursor, n), n, k - 1)
  }

  /** The topics handed out by `k` successive requests starting at `cursor`. */
  function Schedule(topics: seq<string>, cursor: nat, k: nat): (r: seq<string>)
    requires cursor < |topics|
    ensures |r| == k
    decreases k
  {
    if k == 0 then []
    else [topics[cursor]] + Schedule(topics, Advance(cursor, |topics|), k - 1)
  }

  /** Within one cycle, `k` steps move the cursor `k` places, wrapping once at the end. */
  lemma {:induction false} CursorWithinCycle(cursor: nat, n: nat, k: nat)
    requires cursor < n
    requires k <= n
    ensures CursorAfter(cursor, n, k) == if cursor + k < n then cursor + k else cursor + k - n
    decreases k
  {
    if k > 0 {
      CursorWithinCycle(Advance(cursor, n), n, k - 1);
    }
  }

  /** Stepping `a` times and then `b` times is stepping `a + b` times. */
  lemma {:induction false} CursorCompose(cursor: nat, n: nat, a: nat, b: nat)
    requires cursor < n
    ensures CursorAfter(cursor, n, a + b) == CursorAfter(CursorAfter(cursor, n, a), n, b)
    decreases a
  {
    if a > 0 {
      CursorCompose(Advance(cursor, n), n, a - 1, b);
    }
  }

  /**
   * The cursor is periodic: after any whole number of full cycles it is back
   * where it started, so requests can go on without bound.
   */
  lemma {:induction false} CursorPeriodic(cursor: nat, n: nat, cycles: nat)
    requires cursor < n
    ensures CursorAfter(cursor, n, cycles * n) == cursor
    decreases cycles
  {
    if cycles > 0 {
      CursorPeriodic(cursor, n, cycles - 1);
      CursorWithinCycle(cursor, n, n);
      assert cycles * n == n + (cycles - 1) * n;
      CursorCompose(cursor, n, n, (cycles - 1) * n);
    }
  }

  /** The `i`-th request of a run of `k` reads the topic under the cursor after `i` steps. */
  lemma {:induction false} ScheduleAt(topics: seq<string>, cursor: nat, k: nat, i: nat)
    requires cursor < |topics|
    requires i < k
    ensures Schedule(topics, cursor, k)[i] == topics[CursorAfter(cursor, |topics|, i)]
    decreases k
  {
    if i > 0 {
      ScheduleAt(topics, Advance(cursor, |topics|), k - 1, i - 1);
    }
  }

  /**
   * One full cycle of `|topics|` requests from any cursor hands out every
   * topic exactly once, in catalog order starting at the cursor, and leaves
   * the cursor where it started.
   */
  lemma FullCycle(topics: seq<string>, cursor: nat)
    requires cursor < |topics|
    ensures Schedule(topics, cursor, |topics|) == topics[cursor..] + topics[..cursor]
    ensures CursorAfter(cursor, |topics|, |topics|) == cursor
  {
    var n := |topics|;
    var s := Schedule(topics, cursor, n);
    var rotated := topics[cursor..] + topics[..cursor];
    forall i | 0 <= i < n
      ensures s[i] == rotated[i]
    {
      ScheduleAt(topics, cursor, n, i);
      CursorWithinCycle(cursor, n, i);
    }
    CursorWithinCycle(cursor, n, n);
  }

  /**
   * From a fresh cursor, `|topics|` requests return the catalog itself, and
   * request `|topics| + 1` returns the first topic again.
   */
  lemma CycleFromStart(topics: seq<string>)
    requires |topics| > 0
    ensures Schedule(topics, 0, |topics|) == topics
    ensures Schedule(topics, 0, |topics| + 1) == topics + [topics[0]]
  {
    var n := |topics|;
    FullCycle(topics, 0);
    assert topics[0..] + topics[..0] == topics;
    var s := Schedule(topics, 0, n + 1);
    forall i | 0 <= i < n + 1
      ensures s[i] == (topics + [topics[0]])[i]
    {
      ScheduleAt(topics, 0, n + 1, i);
      if i < n {
        ScheduleAt(topics, 0, n, i);
      } else {
        CursorWithinCycle(0, n, n);
      }
    }
  }

  /** The catalog and cursor that choose the topic of each news request. */
  class TopicRotator {
    const topics: seq<string>
    var cursor: nat

    ghost predicate Valid()
      reads this
    {
      |topics| > 0 && cursor < |topics|
    }

    constructor (catalog: seq<string>)
      requires |catalog| > 0
      ensures Valid()
      ensures topics == catalog && cursor == 0
    {
      topics := catalog;
      cursor := 0;
    }

    /** Reads the topic under the cursor, then advances the cursor circularly. */
    method Next() returns (topic: string)
      requires Valid()
      modifies this
      ensures Valid()
      ensures topic == topics[old(cursor)]
      ensures cursor == Advance(old(cursor), |topics|)
    {
      topic := topics[cursor];
      cursor := (cursor + 1) % |topics|;
    }
  }
}
