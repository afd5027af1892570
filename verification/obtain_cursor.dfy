/** The rotating cursor that chooses which missing certificates one reconcile attempts (publictls/service.go). */
module ObtainCursor {
  import opened Sorting

  /** The targets one reconcile attempts, from a cursor left by the previous one. */
  function Batch<T>(missing: seq<T>, cursor: nat, size: nat): seq<T>
    requires size > 0
  {
    if size >= |missing| then missing
    else seq(size, i requires 0 <= i < size => missing[(cursor % |missing| + i) % |missing|])
  }

  function NextCursor(count: nat, cursor: nat, size: nat): nat
    requires size > 0
  {
    if size >= count then 0 else (cursor % count + size) % count
  }

  /** The place `k` steps after `start`, going round. */
  function Slot(start: nat, k: nat, count: nat): (slot: nat)
    requires count > 0
    ensures slot < count
  {
    (start + k) % count
  }

  lemma BatchBySlots<T>(missing: seq<T>, cursor: nat, size: nat, batch: seq<T>)
    requires 0 < size < |missing| && |batch| == size
    requires forall k :: 0 <= k < size ==> batch[k] == missing[Slot(cursor % |missing|, k, |missing|)]
    ensures batch == Batch(missing, cursor, size)
    ensures Slot(cursor % |missing|, size, |missing|) == NextCursor(|missing|, cursor, size)
  {
  }

  lemma WholeBatch<T>(missing: seq<T>, cursor: nat, size: nat)
    requires size > 0
    ensures size >= |missing| ==> Batch(missing, cursor, size) == missing && NextCursor(|missing|, cursor, size) == 0
  {
  }

  lemma StartBelowCount(cursor: nat, count: nat)
    requires count > 0
    ensures 0 <= cursor % count < count
  {
  }

  /** Wrapping an offset below two turns. */
  lemma Wrap(x: nat, count: nat)
    requires 0 < count && x < 2 * count
    ensures x % count == if x < count then x else x - count
  {
  }

  lemma BatchAt<T(!new)>(missing: seq<T>, cursor: nat, size: nat, i: nat)
    requires 0 < size < |missing| && i < size
    ensures var start := cursor % |missing|;
            start < |missing| &&
            Batch(missing, cursor, size)[i]
            == missing[if start + i < |missing| then start + i else start + i - |missing|]
  {
    StartBelowCount(cursor, |missing|);
    Wrap(cursor % |missing| + i, |missing|);
  }

  /** A batch never holds a target twice, and holds only missing targets. */
  lemma BatchIsDistinct<T(!new)>(missing: seq<T>, cursor: nat, size: nat)
    requires size > 0 && Distinct(missing)
    ensures Distinct(Batch(missing, cursor, size))
    ensures forall t :: t in Batch(missing, cursor, size) ==> t in missing
    ensures |Batch(missing, cursor, size)| == if size < |missing| then size else |missing|
  {
    if size < |missing| {
      forall i | 0 <= i < size ensures Batch(missing, cursor, size)[i] in missing { BatchAt(missing, cursor, size, i); }
      forall i, j | 0 <= i < j < size ensures Batch(missing, cursor, size)[i] != Batch(missing, cursor, size)[j] {
        BatchAt(missing, cursor, size, i);
        BatchAt(missing, cursor, size, j);
      }
    }
  }

  /** The cursor after `rounds` reconciles that all see `count` missing targets. */
  function CursorAfter(count: nat, cursor: nat, size: nat, rounds: nat): nat
    requires size > 0
  {
    if rounds == 0 then cursor else NextCursor(count, CursorAfter(count, cursor, size, rounds - 1), size)
  }

  lemma {:induction false} CursorAfterFirst(count: nat, cursor: nat, size: nat, rounds: nat)
    requires size > 0 && rounds > 0
    ensures CursorAfter(count, cursor, size, rounds) == CursorAfter(count, NextCursor(count, cursor, size), size,
        rounds - 1)
  {
    if rounds > 1 { CursorAfterFirst(count, cursor, size, rounds - 1); }
  }

  /** How far the target at `j` lies ahead of the cursor. */
  function Ahead(j: nat, cursor: nat, count: nat): nat
    requires j < count
  {
    var start := cursor % count;
    if j >= start then j - start else j + count - start
  }

  /** One reconcile either attempts the target at `j` or brings the cursor `size` closer to it. */
  lemma RoundApproaches<T(!new)>(missing: seq<T>, cursor: nat, size: nat, j: nat)
    requires 0 < size < |missing| && j < |missing|
    ensures Ahead(j, cursor, |missing|) < size ==> missing[j] in Batch(missing, cursor, size)
    ensures Ahead(j, cursor, |missing|) >= size ==>
              Ahead(j, NextCursor(|missing|, cursor, size), |missing|) == Ahead(j, cursor, |missing|) - size
  {
    var d := Ahead(j, cursor, |missing|);
    if d < size {
      StartBelowCount(cursor, |missing|);
      BatchAt(missing, cursor, size, d);
    } else {
      CursorApproaches(|missing|, cursor, size, j);
    }
  }

  lemma CursorApproaches(count: nat, cursor: nat, size: nat, j: nat)
    requires 0 < size < count && j < count && Ahead(j, cursor, count) >= size
    ensures Ahead(j, NextCursor(count, cursor, size), count) == Ahead(j, cursor, count) - size
  {
    var start := cursor % count;
    StartBelowCount(cursor, count);
    Wrap(start + size, count);
    var next := if start + size < count then start + size else start + size - count;
    assert NextCursor(count, cursor, size) == next;
    Wrap(next, count);
  }

  /** With a fixed set of missing targets, `rounds` reconciles attempt every target fewer than `rounds * size` ahead. */
  lemma {:induction false} AttemptedWithin<T(!new)>(missing: seq<T>, cursor: nat, size: nat, j: nat, rounds: nat)
      returns (r: nat)
    requires 0 < size < |missing| && j < |missing| && Ahead(j, cursor, |missing|) < rounds * size
    ensures r < rounds && missing[j] in Batch(missing, CursorAfter(|missing|, cursor, size, r), size)
    decreases rounds
  {
    RoundApproaches(missing, cursor, size, j);
    hide Ahead, Batch, NextCursor, CursorAfter;
    if Ahead(j, cursor, |missing|) < size {
      r := 0;
    } else {
      OneRoundLess(rounds, size);
      r := AttemptedWithin(missing, NextCursor(|missing|, cursor, size), size, j, rounds - 1);
      r := r + 1;
      CursorAfterFirst(|missing|, cursor, size, r);
    }
    NoRounds(|missing|, cursor, size);
  }

  lemma NoRounds(count: nat, cursor: nat, size: nat)
    requires size > 0
    ensures CursorAfter(count, cursor, size, 0) == cursor
  {
  }

  lemma OneRoundLess(rounds: nat, size: nat)
    requires size > 0
    ensures rounds * size == (rounds - 1) * size + size
    ensures rounds * size > 0 ==> rounds > 0
  {
  }

  /** Rounds that suffice to go once around `count` targets. */
  function Turn(count: nat, size: nat): nat
    requires size > 0
  {
    (count + size - 1) / size
  }

  /** Enough and no more: one round less would not do. */
  lemma TurnIsEnough(count: nat, size: nat)
    requires size > 0
    ensures Turn(count, size) * size >= count
    ensures (Turn(count, size) - 1) * size < count
  {
    var x := count + size - 1;
    assert x == (x / size) * size + x % size && 0 <= x % size <= size - 1;
    assert (x / size - 1) * size == (x / size) * size - size;
  }

  /** Any ceil(n/size) consecutive reconciles over a fixed set of missing targets attempt all of them. */
  lemma FixedSetIsCovered<T(!new)>(missing: seq<T>, cursor: nat, size: nat, rounds: nat, t: T) returns (r: nat)
    requires size > 0 && t in missing && rounds * size >= |missing|
    ensures r < rounds && t in Batch(missing, CursorAfter(|missing|, cursor, size, r), size)
  {
    var j :| 0 <= j < |missing| && missing[j] == t;
    if size >= |missing| {
      r := 0;
      assert rounds > 0;
    } else {
      StartBelowCount(cursor, |missing|);
      r := AttemptedWithin(missing, cursor, size, j, rounds);
    }
  }

  /** The missing targets of one reconcile, in the order the targets are derived. */
  function Missing<T(!new)>(targets: seq<T>, absent: set<T>): (missing: seq<T>)
    ensures forall t :: t in missing <==> t in targets && t in absent
    ensures |missing| <= |targets|
  {
    if targets == [] then []
    else (if targets[0] in absent then [targets[0]] else []) + Missing(targets[1..], absent)
  }

  lemma {:induction false} FewerMissing<T(!new)>(targets: seq<T>, more: set<T>, fewer: set<T>)
    requires fewer <= more
    ensures |Missing(targets, fewer)| <= |Missing(targets, more)|
    ensures Missing(targets, fewer) != Missing(targets, more) ==> |Missing(targets, fewer)| < |Missing(targets, more)|
  {
    if targets != [] { FewerMissing(targets[1..], more, fewer); }
  }

  /** A history of reconciles: what was missing at each, never more than before, and the cursor each started from. */
  ghost predicate History<T(!new)>(targets: seq<T>, absent: seq<set<T>>, cursors: seq<nat>, size: nat)
    requires size > 0
  {
    && |absent| == |cursors|
    && forall i :: 0 <= i < |absent| - 1 ==>
         && absent[i + 1] <= absent[i]
         && cursors[i + 1] == NextCursor(|Missing(targets, absent[i])|, cursors[i], size)
  }

  ghost predicate Attempted<T(!new)>(targets: seq<T>, absent: seq<set<T>>, cursors: seq<nat>, size: nat, t: T, r: nat)
    requires size > 0 && |absent| == |cursors| && r < |absent|
  {
    t in Batch(Missing(targets, absent[r]), cursors[r], size)
  }

  lemma {:induction false} FixedCursors<T(!new)>(targets: seq<T>, absent: seq<set<T>>, cursors: seq<nat>, size: nat,
                                                 r: nat)
    requires size > 0 && History(targets, absent, cursors, size) && r < |absent|
    requires forall i :: 0 <= i <= r ==> Missing(targets, absent[i]) == Missing(targets, absent[0])
    ensures cursors[r] == CursorAfter(|Missing(targets, absent[0])|, cursors[0], size, r)
  {
    if r > 0 {
      FixedCursors(targets, absent, cursors, size, r - 1);
      assert cursors[r - 1 + 1] == NextCursor(|Missing(targets, absent[r - 1])|, cursors[r - 1], size);
    }
  }

  lemma {:induction false} AbsentShrinks<T(!new)>(targets: seq<T>, absent: seq<set<T>>, cursors: seq<nat>, size: nat,
                                                  i: nat)
    requires size > 0 && History(targets, absent, cursors, size) && i < |absent|
    ensures absent[i] <= absent[0]
  {
    if i > 0 {
      AbsentShrinks(targets, absent, cursors, size, i - 1);
      assert absent[i - 1 + 1] <= absent[i - 1];
    }
  }

  lemma HistorySuffix<T(!new)>(targets: seq<T>, absent: seq<set<T>>, cursors: seq<nat>, size: nat, i: nat)
    requires size > 0 && History(targets, absent, cursors, size) && i <= |absent|
    ensures History(targets, absent[i..], cursors[i..], size)
  {
    forall k | 0 <= k < |absent| - i - 1
      ensures absent[i..][k + 1] <= absent[i..][k]
      ensures cursors[i..][k + 1] == NextCursor(|Missing(targets, absent[i..][k])|, cursors[i..][k], size)
    {
      assert absent[i + k + 1] <= absent[i + k];
    }
  }

  /**
   * The reconciles that suffice when `count` targets are missing at first and `turn` reconciles go once around them.
   */
  function RoundsToServe(count: nat, turn: nat): nat {
    (count + 1) * turn
  }

  /**
   * No target starves while obtains shrink the missing set: within (n + 1) * turn reconciles, from any cursor, a target
   * is attempted or no longer missing, where n targets are missing at first and `turn` reconciles go once around them.
   */
  lemma {:induction false} NoTargetStarves<T(!new)>(targets: seq<T>, absent: seq<set<T>>, cursors: seq<nat>, size: nat,
                                                    turn: nat, t: T)
    returns (r: nat)
    requires size > 0 && |absent| > 0 && History(targets, absent, cursors, size) && t in targets
    requires turn > 0 && turn * size >= |Missing(targets, absent[0])|
    requires |absent| >= RoundsToServe(|Missing(targets, absent[0])|, turn)
    ensures r < |absent| && (t !in absent[r] || Attempted(targets, absent, cursors, size, t, r))
    decreases |Missing(targets, absent[0])|
  {
    var first := Missing(targets, absent[0]);
    if t !in absent[0] {
      return 0;
    }
    RoundsForOneTurn(|first|, turn);
    hide *;
    if forall i :: 0 <= i < turn ==> Missing(targets, absent[i]) == first {
      MissingMember(targets, absent[0], t);
      r := FixedSetIsCovered(first, cursors[0], size, turn, t);
      FixedCursors(targets, absent, cursors, size, r);
      AttemptedMeans(targets, absent, cursors, size, t, r);
    } else {
      var i :| 0 <= i < turn && Missing(targets, absent[i]) != first;
      AbsentShrinks(targets, absent, cursors, size, i);
      FewerMissing(targets, absent[0], absent[i]);
      HistorySuffix(targets, absent, cursors, size, i);
      var n := |Missing(targets, absent[i])|;
      LaterRoundsSuffice(|first|, n, turn, |absent|, i);
      var later := NoTargetStarves(targets, absent[i..], cursors[i..], size, turn, t);
      r := later + i;
      AttemptedLater(targets, absent, cursors, size, t, i, later);
    }
  }

  lemma MissingMember<T(!new)>(targets: seq<T>, absent: set<T>, t: T)
    requires t in targets && t in absent
    ensures t in Missing(targets, absent)
  {
  }

  lemma AttemptedMeans<T(!new)>(targets: seq<T>, absent: seq<set<T>>, cursors: seq<nat>, size: nat, t: T, r: nat)
    requires size > 0 && |absent| == |cursors| && r < |absent|
    ensures Attempted(targets, absent, cursors, size, t, r)
            <==> t in Batch(Missing(targets, absent[r]), cursors[r], size)
  {
  }

  /** An attempt in a later part of the history is an attempt in the whole. */
  lemma AttemptedLater<T(!new)>(targets: seq<T>, absent: seq<set<T>>, cursors: seq<nat>, size: nat, t: T, i: nat,
                                r: nat)
    requires size > 0 && |absent| == |cursors| && i + r < |absent|
    ensures absent[i..][r] == absent[i + r]
    ensures Attempted(targets, absent[i..], cursors[i..], size, t, r) ==>
        Attempted(targets, absent, cursors, size, t, i + r)
  {
  }

  lemma RoundsForOneTurn(first: nat, turn: nat)
    ensures RoundsToServe(first, turn) >= turn
  {
    assert (first + 1) * turn == first * turn + turn;
  }

  lemma LaterRoundsSuffice(first: nat, later: nat, turn: nat, rounds: nat, i: nat)
    requires later < first && i < turn && rounds >= RoundsToServe(first, turn)
    ensures rounds - i >= RoundsToServe(later, turn)
  {
    assert (first + 1) * turn == first * turn + turn;
    assert (later + 1) * turn <= first * turn;
  }
}
