/**
 base/inc/seq_num.h: cyclic allocation of numbers in [min, max] with an in-use set.
 */
module SeqNums {

  const INVALID_SEQ_NUM := 0

  // ---------------------------------------------------------------------------
  // Cyclic order
  // ---------------------------------------------------------------------------

  ghost predicate ValidRange(min: int, max: int) { 1 <= min < max }

  function Total(min: int, max: int): int { max - min + 1 }

  /** All numbers the allocator may issue. */
  ghost function Range(min: int, max: int): (r: set<int>)
    ensures forall x :: x in r <==> min <= x <= max
    decreases max - min
  {
    if min > max then {} else Range(min, max - 1) + {max}
  }

  /** How many increments lead from cursor `c` to number `x`; between 1 and the size of the range. */
  function Distance(min: int, max: int, c: int, x: int): (d: int)
    requires ValidRange(min, max) && min - 1 <= c <= max && min <= x <= max
    ensures 1 <= d <= Total(min, max)
  {
    if x > c then x - c else x - c + Total(min, max)
  }

  /** `r` is the cyclically next number after cursor `c` that is not in use: everything passed over is. */
  ghost predicate NextFree(min: int, max: int, c: int, inuse: set<int>, r: int)
    requires ValidRange(min, max) && min - 1 <= c <= max
  {
    && min <= r <= max
    && r !in inuse
    && forall y :: min <= y <= max && Distance(min, max, c, y) < Distance(min, max, c, r) ==> y in inuse
  }

  lemma NextFreeUnique(min: int, max: int, c: int, inuse: set<int>, r: int, r': int)
    requires ValidRange(min, max) && min - 1 <= c <= max
    requires NextFree(min, max, c, inuse, r) && NextFree(min, max, c, inuse, r')
    ensures r == r'
  {
  }

  /** The cursor stands `steps` increments past `start`, and everything it has passed is in use. */
  ghost predicate Searched(min: int, max: int, start: int, inuse: set<int>, steps: int, cursor: int)
    requires ValidRange(min, max) && min - 1 <= start <= max
  {
    && 0 <= steps < Total(min, max)
    && (if steps == 0 then cursor == start else min <= cursor <= max && Distance(min, max, start, cursor) == steps)
    && forall y :: min <= y <= max && Distance(min, max, start, y) <= steps ==> y in inuse
  }

  function Increment(min: int, max: int, c: int): int { if c < max then c + 1 else min }

  lemma SearchStep(min: int, max: int, start: int, inuse: set<int>, steps: int, cursor: int)
    requires ValidRange(min, max) && min - 1 <= start <= max
    requires Searched(min, max, start, inuse, steps, cursor)
    ensures var c := Increment(min, max, cursor);
            && min <= c <= max && Distance(min, max, start, c) == steps + 1
            && (c !in inuse ==> NextFree(min, max, start, inuse, c))
            && (c in inuse && steps + 1 < Total(min, max) ==> Searched(min, max, start, inuse, steps + 1, c))
  {
  }

  lemma SearchStart(min: int, max: int, start: int, inuse: set<int>)
    requires ValidRange(min, max) && min - 1 <= start <= max
    ensures Searched(min, max, start, inuse, 0, start)
  {
  }

  lemma SameDistance(min: int, max: int, start: int, a: int, b: int)
    requires ValidRange(min, max) && min - 1 <= start <= max && min <= a <= max && min <= b <= max
    requires Distance(min, max, start, a) == Distance(min, max, start, b)
    ensures a == b
  {
  }

  lemma FreeNotPassed(min: int, max: int, start: int, inuse: set<int>, steps: int, cursor: int, free: int)
    requires ValidRange(min, max) && min - 1 <= start <= max
    requires Searched(min, max, start, inuse, steps, cursor) && min <= free <= max && free !in inuse
    ensures steps < Distance(min, max, start, free)
  {
  }

  lemma {:induction false} RangeSize(min: int, max: int)
    requires min <= max + 1
    ensures |Range(min, max)| == Total(min, max)
    decreases max - min
  {
    if min <= max {
      RangeSize(min, max - 1);
      assert Range(min, max) == Range(min, max - 1) + {max};
    } else {
      assert Range(min, max) == {};
    }
  }

  lemma SubsetSize(a: set<int>, b: set<int>)
    requires a <= b
    ensures |a| <= |b|
    ensures |a| == |b| ==> a == b
  {
    assert b == a + (b - a);
    assert |b| == |a| + |b - a|;
  }

  /** All numbers are in use exactly when the set has as many members as the range. */
  lemma FullIffCount(min: int, max: int, inuse: set<int>)
    requires ValidRange(min, max) && inuse <= Range(min, max)
    ensures |inuse| == Total(min, max) <==> inuse == Range(min, max)
  {
    RangeSize(min, max);
    SubsetSize(inuse, Range(min, max));
  }

  lemma SomeFree(min: int, max: int, inuse: set<int>) returns (free: int)
    requires inuse <= Range(min, max) && inuse != Range(min, max)
    ensures min <= free <= max && free !in inuse
  {
    free :| free in Range(min, max) && free !in inuse;
  }

  // ---------------------------------------------------------------------------
  // The allocator
  // ---------------------------------------------------------------------------

  class SeqNum {
    const min: int
    const max: int
    var totalCount: int
    var cursor: int
    var inuse: set<int>

    ghost predicate Valid()
      reads this
    {
      && ValidRange(min, max)
      && totalCount == Total(min, max)
      && min - 1 <= cursor <= max
      && inuse <= Range(min, max)
    }

    /** The state as histories know it. */
    ghost function State(): SeqState
      reads this
    {
      SeqState(cursor, inuse)
    }

    /** The source throws unless 1 <= min < max, so no object exists outside this precondition. */
    constructor (min: int, max: int)
      requires ValidRange(min, max)
      ensures this.min == min && this.max == max
      ensures Valid() && inuse == {} && cursor == min - 1
    {
      this.min, this.max := min, max;
      totalCount := max - min + 1;
      cursor := min - 1;
      inuse := {};
    }

    method Reset()
      requires ValidRange(min, max)
      modifies this
      ensures Valid() && inuse == {} && cursor == min - 1
      ensures old(Valid()) ==> Step(min, max, old(State()), WasReset, State())
    {
      totalCount := max - min + 1;
      cursor := min - 1;
      inuse := {};
    }

    method Alloc() returns (r: int)
      requires Valid()
      modifies this`cursor, this`inuse
      ensures Valid()
      ensures r == INVALID_SEQ_NUM <==> old(inuse) == Range(min, max)
      ensures r == INVALID_SEQ_NUM ==> cursor == old(cursor) && inuse == old(inuse)
      ensures r != INVALID_SEQ_NUM ==> NextFree(min, max, old(cursor), old(inuse), r)
      ensures r != INVALID_SEQ_NUM ==> cursor == r && inuse == old(inuse) + {r}
      ensures r != INVALID_SEQ_NUM ==> min <= r <= max && r !in old(inuse)
      ensures r > old(cursor) ==> forall y :: old(cursor) < y < r ==> y in old(inuse)
      ensures r != INVALID_SEQ_NUM && r <= old(cursor) ==>
                forall y :: old(cursor) < y <= max || min <= y < r ==> y in old(inuse)
      ensures Step(min, max, old(State()), Allocated(r), State())
    {
      hide Range;
      FullIffCount(min, max, inuse);
      if |inuse| == totalCount {
        return INVALID_SEQ_NUM;
      }
      Advance();
      r := cursor;
      NextFreeMeans(min, max, old(cursor), old(inuse), r);
    }

    /** The loop of Alloc: from the cursor on, up to the next free number, which is taken. */
    method Advance()
      requires Valid() && inuse != Range(min, max)
      modifies this`cursor, this`inuse
      ensures Valid() && NextFree(min, max, old(cursor), old(inuse), cursor) && inuse == old(inuse) + {cursor}
    {
      hide Range;
      ghost var start := cursor;
      ghost var free := SomeFree(min, max, inuse);
      ghost var steps := 0;
      hide NextFree, Searched, Distance;
      SearchStart(min, max, start, inuse);
      while true
        invariant min - 1 <= cursor <= max && inuse == old(inuse)
        invariant Searched(min, max, start, inuse, steps, cursor)
        invariant steps < Distance(min, max, start, free)
        decreases Distance(min, max, start, free) - steps
      {
        SearchStep(min, max, start, inuse, steps, cursor);
        if cursor < max {
          cursor := cursor + 1;
        } else {
          cursor := min;
        }
        steps := steps + 1;
        if cursor !in inuse {
          inuse := inuse + {cursor};
          break;
        }
        if steps == Distance(min, max, start, free) {
          SameDistance(min, max, start, cursor, free);
        }
        FreeNotPassed(min, max, start, inuse, steps, cursor, free);
      }
      NextFreeMeans(min, max, start, old(inuse), cursor);
    }

    method Free(n: int)
      requires Valid()
      modifies this`inuse
      ensures Valid() && inuse == old(inuse) - {n}
      ensures Step(min, max, old(State()), Released(n), State())
    {
      if n in inuse {
        inuse := inuse - {n};
      }
    }
  }

  /** The numbers passed over are those above the cursor and below the new number, around the end of the
      range if need be. */
  lemma NextFreeMeans(min: int, max: int, c: int, inuse: set<int>, r: int)
    requires ValidRange(min, max) && min - 1 <= c <= max && NextFree(min, max, c, inuse, r)
    ensures min <= r <= max && r !in inuse
    ensures r > c ==> forall y :: c < y < r ==> y in inuse
    ensures r <= c ==> forall y :: c < y <= max || min <= y < r ==> y in inuse
  {
  }

  lemma FreeIsNotInUse(min: int, max: int, c: int, inuse: set<int>, r: int)
    requires ValidRange(min, max) && min - 1 <= c <= max && NextFree(min, max, c, inuse, r)
    ensures r !in inuse && min <= r <= max
  {
  }

  // ---------------------------------------------------------------------------
  // Whole histories of allocations and releases
  // ---------------------------------------------------------------------------

  datatype SeqState = SeqState(cursor: int, inuse: set<int>)
  datatype SeqEvent = Allocated(n: int) | Released(n: int) | WasReset

  ghost predicate ValidState(min: int, max: int, s: SeqState) {
    ValidRange(min, max) && min - 1 <= s.cursor <= max && s.inuse <= Range(min, max)
  }

  /** What Alloc, Free and Reset do to the state, as their contracts say. */
  ghost predicate Step(min: int, max: int, s: SeqState, e: SeqEvent, s': SeqState) {
    && ValidState(min, max, s)
    && match e
       case Allocated(r) =>
         if s.inuse == Range(min, max) then r == INVALID_SEQ_NUM && s' == s
         else NextFree(min, max, s.cursor, s.inuse, r) && s' == SeqState(r, s.inuse + {r})
       case Released(n) => s' == s.(inuse := s.inuse - {n})
       case WasReset => s' == SeqState(min - 1, {})
  }

  ghost predicate History(min: int, max: int, states: seq<SeqState>, events: seq<SeqEvent>) {
    && |states| == |events| + 1
    && forall k :: 0 <= k < |events| ==> Step(min, max, states[k], events[k], states[k + 1])
  }

  /** Event `k` issued `y`, or passed over `y` because it was in use. */
  ghost predicate Touches(min: int, max: int, s: SeqState, e: SeqEvent, y: int)
    requires ValidState(min, max, s) && min <= y <= max
  {
    && e.Allocated? && min <= e.n <= max
    && (e.n == y || (y in s.inuse && Distance(min, max, s.cursor, y) < Distance(min, max, s.cursor, e.n)))
  }

  /** How far the cursor is past `x`. */
  function Offset(min: int, max: int, x: int, c: int): int
    requires ValidRange(min, max) && min <= x <= max && min <= c <= max
  {
    if c == x then 0 else Distance(min, max, x, c)
  }

  /** Until an event touches `y`, the cursor stays between `x` and `y`. */
  lemma {:induction false} CursorBefore(min: int, max: int, states: seq<SeqState>, events: seq<SeqEvent>, i: nat,
                                        k: nat, x: int, y: int)
    requires History(min, max, states, events) && i < k <= |events|
    requires events[i] == Allocated(x) && x != INVALID_SEQ_NUM
    requires ValidState(min, max, states[i]) && min <= y <= max && y != x
    requires forall t :: i < t < k ==> ValidState(min, max, states[t]) && !Touches(min, max, states[t], events[t], y)
    requires forall t :: i < t < k ==> events[t] != WasReset
    ensures min <= x <= max && min <= states[k].cursor <= max
    ensures Offset(min, max, x, states[k].cursor) < Distance(min, max, x, y)
    decreases k
  {
    assert Step(min, max, states[k - 1], events[k - 1], states[k]);
    if k > i + 1 {
      CursorBefore(min, max, states, events, i, k - 1, x, y);
      assert !Touches(min, max, states[k - 1], events[k - 1], y);
    }
  }

  /** Between two allocations of the same number without a reset between them, every other number was
      issued in between or was in use when the cursor passed over it. */
  lemma RecycledLast(min: int, max: int, states: seq<SeqState>, events: seq<SeqEvent>, i: nat, j: nat, x: int, y: int)
    requires History(min, max, states, events) && i < j < |events|
    requires events[i] == Allocated(x) && events[j] == Allocated(x) && x != INVALID_SEQ_NUM
    requires min <= y <= max && y != x && forall t :: i < t < j ==> events[t] != WasReset
    ensures exists t :: i < t <= j && ValidState(min, max, states[t]) && Touches(min, max, states[t], events[t], y)
  {
    forall t | 0 <= t < |events| ensures ValidState(min, max, states[t]) {
      assert Step(min, max, states[t], events[t], states[t + 1]);
    }
    if forall t :: i < t < j ==> !Touches(min, max, states[t], events[t], y) {
      CursorBefore(min, max, states, events, i, j, x, y);
      assert Step(min, max, states[j], events[j], states[j + 1]);
      assert Touches(min, max, states[j], events[j], y);
    }
  }

  /** A reset ends that guarantee: the first number is issued, the allocator reset, and the same number
      issued again, with no other number touched. */
  lemma ResetRecyclesAtOnce(min: int, max: int)
    requires ValidRange(min, max)
    ensures var s0, s1 := SeqState(min - 1, {}), SeqState(min, {min});
            && History(min, max, [s0, s1, s0, s1], [Allocated(min), WasReset, Allocated(min)])
            && forall y :: min < y <= max ==> !Touches(min, max, s0, Allocated(min), y)
  {
    var s0, s1 := SeqState(min - 1, {}), SeqState(min, {min});
    assert min in Range(min, max);
    assert NextFree(min, max, min - 1, {}, min);
    assert Step(min, max, s0, Allocated(min), s1) && Step(min, max, s1, WasReset, s0);
  }
}
