/** Vocabulary shared by the grouped queue, the recovery task and the local
    executor: Java's 64-bit `long`, nullable values, work items, and the
    "smallest non-null value below Long.MAX_VALUE" accumulator that both
    GroupedQueue.getOldestQueueTime and TaskRecoveryTimerTask.execute run. */
module Common {

  const LONG_MIN: int := -0x8000_0000_0000_0000
  const LONG_MAX: int := 0x7FFF_FFFF_FFFF_FFFF
  const TWO_64: int := 0x1_0000_0000_0000_0000

  /** Java's `long`. */
  type long = x: int | -0x8000_0000_0000_0000 <= x <= 0x7FFF_FFFF_FFFF_FFFF

  /** A Java reference that may be null. */
  datatype Option<+T> = None | Some(value: T)

  /** A unit of work: the group key it is routed by and its creation time,
      which is also the time its sub-queue reports while it is at the head. */
  datatype WorkItem = WorkItem(id: string, group: string, createdAt: long)

  function Min(a: int, b: int): int {
    if a <= b then a else b
  }

  /** No element occurs twice. */
  ghost predicate Distinct<T>(s: seq<T>) {
    forall i, j :: 0 <= i < j < |s| ==> s[i] != s[j]
  }

  /** Java's `long` subtraction: the `long` that agrees with the mathematical
      difference modulo 2^64, which is the difference itself when it fits. */
  function SubLong(a: long, b: long): (r: long)
    ensures (a - b - r) % TWO_64 == 0
    ensures LONG_MIN <= a - b <= LONG_MAX ==> r == a - b
  {
    if a - b < LONG_MIN then a - b + TWO_64
    else if LONG_MAX < a - b then a - b - TWO_64
    else a - b
  }

  /** No other `long` agrees with the difference modulo 2^64, so SubLong is
      Java's subtraction and not merely one value congruent to it. */
  lemma SubLongUnique(a: long, b: long, r: long)
    requires (a - b - r) % TWO_64 == 0
    ensures r == SubLong(a, b)
  {
    var d := a - b - r;
    assert -2 * TWO_64 < d < 2 * TWO_64;
    assert d == 0 || d == TWO_64 || d == -TWO_64 by {
      assert d == (d / TWO_64) * TWO_64;
    }
  }

  /** The value of a minimum accumulator that starts at Long.MAX_VALUE and,
      going through `xs` in order, takes every non-null value smaller than it. */
  function MinPresent(xs: seq<Option<long>>): (m: long)
    ensures forall i :: 0 <= i < |xs| && xs[i].Some? ==> m <= xs[i].value
    ensures m == LONG_MAX || exists i :: 0 <= i < |xs| && xs[i] == Some(m)
  {
    if xs == [] then LONG_MAX
    else
      var m := MinPresent(xs[..|xs| - 1]);
      var last := xs[|xs| - 1];
      if last.Some? && last.value < m then last.value else m
  }

  /** One more step of the accumulator. */
  lemma MinPresentStep(xs: seq<Option<long>>, i: nat)
    requires i < |xs|
    ensures MinPresent(xs[..i + 1]) ==
              if xs[i].Some? && xs[i].value < MinPresent(xs[..i]) then xs[i].value else MinPresent(xs[..i])
  {
    assert xs[..i + 1][..i] == xs[..i];
  }

  /** The accumulator stays at its sentinel exactly when every non-null value
      is Long.MAX_VALUE itself (in particular when there is none). */
  lemma MinPresentAbsent(xs: seq<Option<long>>)
    ensures MinPresent(xs) == LONG_MAX <==>
            forall i :: 0 <= i < |xs| && xs[i].Some? ==> xs[i].value == LONG_MAX
  {
  }
}
