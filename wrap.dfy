/**
 * Wrap-around index arithmetic of the image gallery.
 *
 * Both the inline strip and the overlay move through a fixed list of `n`
 * images with the functional updaters `prev => (prev + 1) % n` and
 * `prev => (prev - 1 + n) % n`. The `+ n` guards against JavaScript's
 * truncating `%`; on `0 <= prev < n` Dafny's Euclidean `%` gives the same
 * value, and the expressions are kept in the source's form.
 */
module Wrap {

  /** `0 <= i < n`: a position in a list of `n` images. */
  predicate InRange(i: int, n: int) {
    0 <= i < n
  }

  /** One step forward, wrapping from the last image to the first. */
  function Next(i: int, n: int): (r: int)
    requires n >= 1 && InRange(i, n)
    ensures InRange(r, n)
    ensures i < n - 1 ==> r == i + 1
    ensures i == n - 1 ==> r == 0
  {
    (i + 1) % n
  }

  /** One step back, wrapping from the first image to the last. */
  function Prev(i: int, n: int): (r: int)
    requires n >= 1 && InRange(i, n)
    ensures InRange(r, n)
    ensures i > 0 ==> r == i - 1
    ensures i == 0 ==> r == n - 1
  {
    (i - 1 + n) % n
  }

  /** `Prev` undoes `Next` and `Next` undoes `Prev`. */
  lemma PrevNextInverse(i: int, n: int)
    requires n >= 1 && InRange(i, n)
    ensures Prev(Next(i, n), n) == i
    ensures Next(Prev(i, n), n) == i
  {
  }

  /** With a single image both steps stay where they are. */
  lemma SingleImageFixed(i: int)
    requires InRange(i, 1)
    ensures Next(i, 1) == i && Prev(i, 1) == i
  {
  }

  /** `k` presses of "next" starting at `i`. */
  function Advance(i: int, n: int, k: nat): (r: int)
    requires n >= 1 && InRange(i, n)
    ensures InRange(r, n)
    decreases k
  {
    if k == 0 then i else Next(Advance(i, n, k - 1), n)
  }

  /** `k` presses of "previous" starting at `i`. */
  function Retreat(i: int, n: int, k: nat): (r: int)
    requires n >= 1 && InRange(i, n)
    ensures InRange(r, n)
    decreases k
  {
    if k == 0 then i else Prev(Retreat(i, n, k - 1), n)
  }

  /** Pressing "next" `a + b` times is pressing it `a` times, then `b` times. */
  lemma {:induction false} AdvanceSplit(i: int, n: int, a: nat, b: nat)
    requires n >= 1 && InRange(i, n)
    ensures Advance(i, n, a + b) == Advance(Advance(i, n, a), n, b)
  {
    if b > 0 {
      AdvanceSplit(i, n, a, b - 1);
    }
  }

  /** Fewer than `n` presses of "next" wrap at most once: they land on `(i + k) mod n`. */
  lemma {:induction false} AdvanceWithinCycle(i: int, n: int, k: nat)
    requires n >= 1 && InRange(i, n) && k < n
    ensures Advance(i, n, k) == if i + k < n then i + k else i + k - n
  {
    if k > 0 {
      AdvanceWithinCycle(i, n, k - 1);
    }
  }

  /** Fewer than `n` presses of "previous" wrap at most once: they land on `(i - k) mod n`. */
  lemma {:induction false} RetreatWithinCycle(i: int, n: int, k: nat)
    requires n >= 1 && InRange(i, n) && k < n
    ensures Retreat(i, n, k) == if i - k >= 0 then i - k else i - k + n
  {
    if k > 0 {
      RetreatWithinCycle(i, n, k - 1);
    }
  }

  /** Pressing "next" `n` times returns to the starting image. */
  lemma AdvanceCycle(i: int, n: int)
    requires n >= 1 && InRange(i, n)
    ensures Advance(i, n, n) == i
  {
    var j := Advance(i, n, n - 1);
    AdvanceWithinCycle(i, n, n - 1);
    assert j == if i == 0 then n - 1 else i - 1;
    assert Advance(i, n, n) == Next(j, n);
  }

  /** Pressing "previous" `n` times returns to the starting image. */
  lemma RetreatCycle(i: int, n: int)
    requires n >= 1 && InRange(i, n)
    ensures Retreat(i, n, n) == i
  {
    var h := Retreat(i, n, n - 1);
    RetreatWithinCycle(i, n, n - 1);
    assert h == if i == n - 1 then 0 else i + 1;
    assert Retreat(i, n, n) == Prev(h, n);
  }

  /** Adding a whole cycle of `n` presses of "next" changes nothing. */
  lemma AdvancePeriodic(i: int, n: int, k: nat)
    requires n >= 1 && InRange(i, n)
    ensures Advance(i, n, k + n) == Advance(i, n, k)
  {
    AdvanceSplit(i, n, n, k);
    AdvanceCycle(i, n);
    assert k + n == n + k;
  }

  /** `k` presses of "previous" undo `k` presses of "next", and `k` presses of "next" undo `k` of "previous". */
  lemma {:induction false} RetreatUndoesAdvance(i: int, n: int, k: nat)
    requires n >= 1 && InRange(i, n)
    ensures Retreat(Advance(i, n, k), n, k) == i
    ensures Advance(Retreat(i, n, k), n, k) == i
  {
    if k > 0 {
      RetreatUndoesAdvance(i, n, k - 1);
      var j := Advance(i, n, k - 1);
      // Retreat peels its last step first; relate it to peeling the first.
      RetreatFirstStep(Next(j, n), n, k);
      PrevNextInverse(j, n);
      var h := Retreat(i, n, k - 1);
      // Likewise Advance: one step, then the remaining k - 1.
      AdvanceSplit(Prev(h, n), n, 1, k - 1);
      assert Advance(Prev(h, n), n, 1) == Next(Prev(h, n), n);
      PrevNextInverse(h, n);
    }
  }

  /** `Retreat` by `k` is one `Prev` followed by `Retreat` by `k - 1`. */
  lemma {:induction false} RetreatFirstStep(i: int, n: int, k: nat)
    requires n >= 1 && InRange(i, n) && k >= 1
    ensures Retreat(i, n, k) == Retreat(Prev(i, n), n, k - 1)
  {
    if k > 1 {
      RetreatFirstStep(i, n, k - 1);
    }
  }

  /** Five images from the first: "next" five times visits 1, 2, 3, 4, 0; "previous" once lands on 4. */
  lemma FiveImageScenario()
    ensures Advance(0, 5, 1) == 1 && Advance(0, 5, 2) == 2 && Advance(0, 5, 3) == 3
    ensures Advance(0, 5, 4) == 4 && Advance(0, 5, 5) == 0
    ensures Retreat(0, 5, 1) == 4
  {
  }
}
