/** The containment test of `processLines` (main.go:331-351): does a
    position fall in a chromosome's interval list? The program's loop is
    modelled as written, next to a scan that answers the question its shape
    suggests. */
module Query {
  import opened Bed

  /** `iv` holds `pos`; both ends are inclusive. */
  predicate Holds(iv: Interval, pos: int)
  {
    iv.start <= pos <= iv.end
  }

  /** Some interval of the list holds `pos`. */
  predicate InSomeInterval(arr: seq<Interval>, pos: int)
  {
    exists k :: 0 <= k < |arr| && Holds(arr[k], pos)
  }

  /** Where the loop of main.go:335-351 stops when started at `from`: the
      first interval that holds `pos` or ends before it, or `|arr|` when
      every remaining interval starts beyond `pos` and does not end before
      it. */
  function StopIndex(arr: seq<Interval>, pos: int, from: nat): (i: nat)
    requires from <= |arr|
    ensures from <= i <= |arr|
    ensures forall k :: from <= k < i ==> pos < arr[k].start && pos <= arr[k].end
    ensures i < |arr| ==> arr[i].start <= pos || arr[i].end < pos
    decreases |arr| - from
  {
    if from == |arr| || arr[from].start <= pos || arr[from].end < pos then from
    else StopIndex(arr, pos, from + 1)
  }

  /** The loop of main.go:335-351 on its own: it reports a hit at the first
      interval holding `pos` and gives up at the first interval ending before
      `pos`. */
  method ContainmentLoop(arr: seq<Interval>, pos: int) returns (hit: bool)
    ensures var i := StopIndex(arr, pos, 0); hit <==> i < |arr| && Holds(arr[i], pos)
  {
    hit := false;
    var i := 0;
    while i < |arr|
      invariant i <= |arr| && !hit
      invariant StopIndex(arr, pos, i) == StopIndex(arr, pos, 0)
    {
      if pos >= arr[i].start && pos <= arr[i].end {
        assert StopIndex(arr, pos, i) == i;
        hit := true;
        break;
      } else if pos > arr[i].end {
        assert StopIndex(arr, pos, i) == i;
        break;
      }
      i := i + 1;
    }
  }

  /** What main.go:331-351 decides, in closed form: after the bound check,
      the first interval either holds `pos` or ends before it, and the loop
      stops there. Only `arr[0]` and the last end are ever consulted. */
  predicate FirstIntervalHit(arr: seq<Interval>, pos: int)
    requires |arr| > 0
  {
    Holds(arr[0], pos) && pos <= arr[|arr| - 1].end
  }

  /** The bound check of main.go:331-333 followed by the loop. */
  method ScanIntervals(arr: seq<Interval>, pos: int) returns (hit: bool)
    requires |arr| > 0
    ensures hit <==> FirstIntervalHit(arr, pos)
  {
    if pos < arr[0].start || pos > arr[|arr| - 1].end {
      return false;
    }
    hit := ContainmentLoop(arr, pos);
  }

  /** A hit is always genuine: the first interval holds the position. */
  lemma HitIsSound(arr: seq<Interval>, pos: int)
    requires |arr| > 0 && FirstIntervalHit(arr, pos)
    ensures InSomeInterval(arr, pos)
  {
    assert Holds(arr[0], pos);
  }

  /** A position before the first start or after the last end is never a
      hit. */
  lemma OutsideBoundsMiss(arr: seq<Interval>, pos: int)
    requires |arr| > 0 && (pos < arr[0].start || arr[|arr| - 1].end < pos)
    ensures !FirstIntervalHit(arr, pos)
  {
  }

  /** With a single interval the test is exactly containment. */
  lemma SingleInterval(iv: Interval, pos: int)
    ensures FirstIntervalHit([iv], pos) <==> InSomeInterval([iv], pos)
  {
    if InSomeInterval([iv], pos) {
      var k :| 0 <= k < 1 && Holds([iv][k], pos);
      assert k == 0;
    }
  }

  /** A position inside the second of two sorted, disjoint intervals is not
      found: `[100, 200]`, `[300, 400]` and position 350. */
  lemma LaterIntervalMissed()
    ensures var arr := [Interval(100, 200), Interval(300, 400)];
      SortedByStart(arr) && InSomeInterval(arr, 350) && !FirstIntervalHit(arr, 350)
  {
    var arr := [Interval(100, 200), Interval(300, 400)];
    assert Holds(arr[1], 350);
  }

  /** The bound check compares with the last interval's end, which need not
      be the largest: `[100, 500]`, `[200, 300]` and position 400 is skipped
      although the first interval holds it. */
  lemma LastEndBoundSkips()
    ensures var arr := [Interval(100, 500), Interval(200, 300)];
      SortedByStart(arr) && Holds(arr[0], 400) && !FirstIntervalHit(arr, 400)
  {
  }

  /** The scan the loop's shape calls for: over a list sorted by start, stop
      at the first interval starting beyond `pos`, since no later one can
      hold it. */
  method ScanSorted(arr: seq<Interval>, pos: int) returns (hit: bool)
    requires SortedByStart(arr)
    ensures hit <==> InSomeInterval(arr, pos)
  {
    hit := false;
    var i := 0;
    while i < |arr|
      invariant i <= |arr| && !hit
      invariant forall k :: 0 <= k < i ==> !Holds(arr[k], pos)
    {
      if pos >= arr[i].start && pos <= arr[i].end {
        hit := true;
        return;
      } else if arr[i].start > pos {
        assert forall k :: i <= k < |arr| ==> arr[i].start <= arr[k].start;
        return;
      }
      i := i + 1;
    }
  }
}
