/**
  The prev/next transition of the carousel: the updater that `moveCarousel`
  hands to the state setter. It is a pure function of the navigation key, the
  previous index and the number of items.
 */
module CarouselNavigation {

  /** The two keys the buttons pass to `moveCarousel`. */
  const PrevKey: string := "prev"
  const NextKey: string := "next"

  /** True of the two keys the component actually uses. */
  predicate IsNavigationKey(key: string) {
    key == PrevKey || key == NextKey
  }

  /**
    The updater of `moveCarousel`. `length` is `items.length`. The index is not
    checked against the range: outside the two wrap points it is simply moved by
    one, and every key other than "next" moves it backwards.
   */
  function MoveUpdate(key: string, prevIndex: int, length: nat): (r: int)
    ensures IsNavigationKey(key) && 0 <= prevIndex < length ==> 0 <= r < length
    ensures r == 0 || r == length - 1 || r == prevIndex + 1 || r == prevIndex - 1
  {
    if key == PrevKey && prevIndex == 0 then length - 1
    else if key == NextKey && prevIndex == length - 1 then 0
    else if key == NextKey then prevIndex + 1
    else prevIndex - 1
  }

  /** The index after `count` activations of the same button, in order. */
  function Moves(key: string, start: int, length: nat, count: nat): int
    decreases count
  {
    if count == 0 then start
    else MoveUpdate(key, Moves(key, start, length, count - 1), length)
  }

  /** Moving back from the first item selects the last one. */
  lemma PrevWrapsToLast(length: nat)
    ensures MoveUpdate(PrevKey, 0, length) == length - 1
  {
  }

  /** Moving forward from the last item selects the first one. */
  lemma NextWrapsToFirst(length: nat)
    ensures MoveUpdate(NextKey, length - 1, length) == 0
  {
  }

  /** Away from the wrap points, "next" adds one and "prev" subtracts one, whether
      or not the index is in range. */
  lemma MovesByOneElsewhere(i: int, length: nat)
    ensures i != length - 1 ==> MoveUpdate(NextKey, i, length) == i + 1
    ensures i != 0 ==> MoveUpdate(PrevKey, i, length) == i - 1
  {
  }

  /** With no items the transitions still run: they are not no-ops. */
  lemma EmptyListIsNotANoOp()
    ensures MoveUpdate(PrevKey, 0, 0) == -1
    ensures MoveUpdate(NextKey, 0, 0) == 1
  {
  }

  /** An out-of-range index is only ever moved by one, never brought back by a
      wrap; with no items this includes the index -1, which NEXT moves to 0. */
  lemma OutOfRangeMovesByOne(i: int, length: nat)
    requires !(0 <= i < length)
    ensures MoveUpdate(NextKey, i, length) == i + 1
    ensures MoveUpdate(PrevKey, i, length) == i - 1
  {
  }

  /** One step towards the range from just outside it re-enters it. */
  lemma OneStepCanReenter(length: nat)
    requires length >= 1
    ensures MoveUpdate(PrevKey, length, length) == length - 1
    ensures MoveUpdate(NextKey, -1, length) == 0
  {
  }

  /** Both navigation keys keep an in-range index in range. */
  lemma MoveStaysInRange(key: string, i: int, length: nat)
    requires IsNavigationKey(key)
    requires 0 <= i < length
    ensures 0 <= MoveUpdate(key, i, length) < length
  {
  }

  /** Every key other than "next" steps backwards, so only the two navigation
      keys are covered by the range guarantee above. */
  lemma UnknownKeyStepsBack(key: string, i: int, length: nat)
    requires !IsNavigationKey(key)
    ensures MoveUpdate(key, i, length) == i - 1
  {
  }

  /** "next" undoes "prev" and "prev" undoes "next" on an in-range index. */
  lemma MovesAreInverse(i: int, length: nat)
    requires 0 <= i < length
    ensures MoveUpdate(NextKey, MoveUpdate(PrevKey, i, length), length) == i
    ensures MoveUpdate(PrevKey, MoveUpdate(NextKey, i, length), length) == i
  {
  }

  /** On an in-range index the transitions are addition and subtraction of one
      modulo the number of items. */
  lemma MoveIsModularStep(i: int, length: nat)
    requires 0 <= i < length
    ensures MoveUpdate(NextKey, i, length) == (i + 1) % length
    ensures MoveUpdate(PrevKey, i, length) == (i - 1) % length
  {
    if i + 1 < length {
      ModOfRemainder(i + 1, length, 0, i + 1);
    } else {
      ModOfRemainder(i + 1, length, 1, 0);
    }
    if i == 0 {
      ModOfRemainder(-1, length, -1, length - 1);
    } else {
      ModOfRemainder(i - 1, length, 0, i - 1);
    }
  }

  /** `count` presses of "next" from an in-range index advance it by `count`
      modulo the number of items. */
  lemma {:induction false} RepeatedNextIsModular(i: int, length: nat, count: nat)
    requires 0 <= i < length
    ensures Moves(NextKey, i, length, count) == (i + count) % length
  {
    if count == 0 {
      ModOfRemainder(i, length, 0, i);
    } else {
      RepeatedNextIsModular(i, length, count - 1);
      var before := (i + count - 1) % length;
      MoveIsModularStep(before, length);
      ModSucc(i + count - 1, length);
    }
  }

  /** `count` presses of "prev" from an in-range index move it back by `count`
      modulo the number of items. */
  lemma {:induction false} RepeatedPrevIsModular(i: int, length: nat, count: nat)
    requires 0 <= i < length
    ensures Moves(PrevKey, i, length, count) == (i - count) % length
  {
    if count == 0 {
      ModOfRemainder(i, length, 0, i);
    } else {
      RepeatedPrevIsModular(i, length, count - 1);
      var before := (i - (count - 1)) % length;
      MoveIsModularStep(before, length);
      ModPred(i - (count - 1), length);
    }
  }

  /** Cycle closure: as many presses of one button as there are items return to
      the starting index. */
  lemma CycleCloses(i: int, length: nat)
    requires 0 <= i < length
    ensures Moves(NextKey, i, length, length) == i
    ensures Moves(PrevKey, i, length, length) == i
  {
    RepeatedNextIsModular(i, length, length);
    ModOfRemainder(i + length, length, 1, i);
    RepeatedPrevIsModular(i, length, length);
    ModOfRemainder(i - length, length, -1, i);
  }

  // Arithmetic helpers on Euclidean remainder.

  lemma ModOfRemainder(a: int, n: int, q: int, r: int)
    requires n >= 1 && 0 <= r < n && a == q * n + r
    ensures a % n == r
  {
    var q', r' := a / n, a % n;
    assert a == q' * n + r';
    if q' < q {
      Distribute(q, q', n);
      AtLeastOneMultiple(q - q', n);
    } else if q' > q {
      Distribute(q', q, n);
      AtLeastOneMultiple(q' - q, n);
    }
  }

  lemma Distribute(x: int, y: int, n: int)
    ensures (x - y) * n == x * n - y * n
  {
  }

  lemma AtLeastOneMultiple(d: int, n: int)
    requires d >= 1 && n >= 1
    ensures d * n >= n
  {
  }

  lemma ModSucc(a: int, n: int)
    requires n >= 1
    ensures (a % n + 1) % n == (a + 1) % n
  {
    var q, r := a / n, a % n;
    assert a == q * n + r;
    if r + 1 < n {
      ModOfRemainder(a + 1, n, q, r + 1);
      ModOfRemainder(r + 1, n, 0, r + 1);
    } else {
      assert a + 1 == (q + 1) * n;
      ModOfRemainder(a + 1, n, q + 1, 0);
      ModOfRemainder(r + 1, n, 1, 0);
    }
  }

  lemma ModPred(a: int, n: int)
    requires n >= 1
    ensures (a % n - 1) % n == (a - 1) % n
  {
    var q, r := a / n, a % n;
    assert a == q * n + r;
    if r >= 1 {
      ModOfRemainder(a - 1, n, q, r - 1);
      ModOfRemainder(r - 1, n, 0, r - 1);
    } else {
      assert a - 1 == (q - 1) * n + (n - 1);
      ModOfRemainder(a - 1, n, q - 1, n - 1);
      ModOfRemainder(r - 1, n, -1, n - 1);
    }
  }
}
