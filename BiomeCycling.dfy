/**
 * The "<<" and ">>" buttons of the biome list: step the current body index one back
 * or one forward, wrapping around the list of body names.
 */
module BiomeCycling {
  /** "<<": one back; below zero it wraps to the last index (which is -1 for an empty list). */
  function Prev(current: int, count: nat): (r: int)
    ensures 0 <= current < count ==> 0 <= r < count && r == (current - 1) % count
  {
    if current - 1 < 0 then count - 1 else current - 1
  }

  /** ">>": one forward; at or past the end it wraps to zero. */
  function Next(current: int, count: nat): (r: int)
    ensures 0 <= current < count ==> 0 <= r < count && r == (current + 1) % count
    ensures current + 1 >= count ==> r == 0
  {
    if current + 1 >= count then 0 else current + 1
  }

  /** On a valid index the two buttons undo each other. */
  lemma PrevNextInverse(current: int, count: nat)
    requires 0 <= current < count
    ensures Prev(Next(current, count), count) == current
    ensures Next(Prev(current, count), count) == current
  {
  }

  /** ">>" pressed k times. */
  function NextTimes(current: int, count: nat, k: nat): int
    decreases k
  {
    if k == 0 then current else Next(NextTimes(current, count, k - 1), count)
  }

  /** Pressing ">>" a times and then b times is pressing it a + b times. */
  lemma {:induction false} NextTimesAdd(current: int, count: nat, a: nat, b: nat)
    ensures NextTimes(NextTimes(current, count, a), count, b) == NextTimes(current, count, a + b)
    decreases b
  {
    if b > 0 {
      NextTimesAdd(current, count, a, b - 1);
    }
  }

  /** From a valid index, k presses of ">>" that stay inside the list move k places on; reaching the end wraps to zero. */
  lemma {:induction false} NextTimesAdvance(current: int, count: nat, k: nat)
    requires 0 <= current < count && current + k <= count
    ensures NextTimes(current, count, k) == if current + k == count then 0 else current + k
    decreases k
  {
    if k > 0 {
      NextTimesAdvance(current, count, k - 1);
    }
  }

  /** After `count` presses of ">>" the index is back where it started. */
  lemma FullCycle(current: int, count: nat)
    requires 0 <= current < count
    ensures NextTimes(current, count, count) == current
  {
    NextTimesAdvance(current, count, count - current);
    NextTimesAdvance(0, count, current);
    NextTimesAdd(current, count, count - current, current);
  }
}
