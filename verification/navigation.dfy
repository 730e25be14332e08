/** The overlay's navigation handlers. Both look the selected record's id up in the
    currently filtered list with `findIndex` (-1 when absent) and then index that list with
    JavaScript semantics: a NaN or out-of-range index reads `undefined`, which every consumer
    treats as "nothing selected". */
module Navigation {
  import opened GalleryTypes

  /** Some record of `images` has id `id`. */
  ghost predicate HasId(images: seq<GalleryImage>, id: string) {
    exists j :: 0 <= j < |images| && images[j].id == id
  }

  /** `i` is the first position of `images` whose id is `id`. */
  ghost predicate FirstWithId(images: seq<GalleryImage>, id: string, i: int) {
    && 0 <= i < |images|
    && images[i].id == id
    && forall j :: 0 <= j < i ==> images[j].id != id
  }

  /** `images.findIndex(img => img.id === id)`. */
  function FindIndex(images: seq<GalleryImage>, id: string): (r: int)
    ensures r == -1 || FirstWithId(images, id, r)
    ensures r == -1 <==> !HasId(images, id)
  {
    if |images| == 0 then -1
    else if images[0].id == id then 0
    else
      var k := FindIndex(images[1..], id);
      if k == -1 then
        assert forall j :: 1 <= j < |images| ==> images[j].id == images[1..][j - 1].id;
        -1
      else
        assert forall j :: 1 <= j < k + 1 ==> images[j].id == images[1..][j - 1].id;
        k + 1
  }

  /** `q * n`, named so that "is a multiple of" has something to hang on. */
  function Scaled(q: int, n: int): int {
    q * n
  }

  ghost predicate MultipleOf(d: int, n: int) {
    exists q :: d == Scaled(q, n)
  }

  /** The remainder of a non-negative `a`, by repeated subtraction of `n`. */
  function NatRem(a: nat, n: nat): (r: nat)
    requires n > 0
    ensures r < n && MultipleOf(a - r, n)
    ensures a < n ==> r == a
    decreases a
  {
    if a < n then
      assert a - a == Scaled(0, n);
      a
    else
      var r := NatRem(a - n, n);
      var q :| a - n - r == Scaled(q, n);
      assert a - r == Scaled(q + 1, n);
      r
  }

  /** JavaScript's `a % n` for a whole-number divisor. `None` is NaN (divisor zero); otherwise
      the remainder differs from `a` by a multiple of `n`, is smaller than `n` in magnitude,
      and carries the dividend's sign (the quotient is truncated toward zero). */
  function JsRem(a: int, n: nat): (r: Option<int>)
    ensures r.None? <==> n == 0
    ensures r.Some? ==> -(n as int) < r.value < n && MultipleOf(a - r.value, n)
    ensures r.Some? && a >= 0 ==> r.value >= 0
    ensures r.Some? && a <= 0 ==> r.value <= 0
    ensures 0 <= a < n ==> r == Some(a)
  {
    if n == 0 then None
    else if a >= 0 then Some(NatRem(a, n))
    else
      var m: int := NatRem(-a, n);
      var q :| -a - m == Scaled(q, n);
      assert a - -m == Scaled(-q, n);
      Some(-m)
  }

  /** `images[i]`: a record for a whole in-range index, `undefined` for anything else. */
  function ElementAt(images: seq<GalleryImage>, i: Option<int>): Option<GalleryImage>
  {
    if i.Some? && 0 <= i.value < |images| then Some(images[i.value]) else None
  }

  /** `handleNext`: with nothing selected, nothing happens. Otherwise it reads index
      `(findIndex + 1) % length`: the record after the selected one, wrapping to the first;
      the first record when the selected id is absent (findIndex gave -1); and `undefined`,
      closing the overlay, when the list is empty (`0 % 0` is NaN). */
  function Next(images: seq<GalleryImage>, selected: Option<GalleryImage>): (r: Option<GalleryImage>)
    ensures selected.None? ==> r.None?
    ensures |images| == 0 ==> r.None?
    ensures r.Some? ==> r.value in images
    ensures selected.Some? && |images| > 0 && !HasId(images, selected.value.id) ==> r == Some(images[0])
    ensures forall i :: selected.Some? && FirstWithId(images, selected.value.id, i) ==>
      r == Some(images[if i + 1 == |images| then 0 else i + 1])
  {
    match selected
    case None => None
    case Some(image) =>
      var current := FindIndex(images, image.id);
      ElementAt(images, JsRem(current + 1, |images|))
  }

  /** `handlePrevious`: with nothing selected, nothing happens. Otherwise it reads index
      `length - 1` when the selected record is first and `findIndex - 1` otherwise: the record
      before the selected one, wrapping to the last. When the selected id is absent, including
      from an empty list, that index is -2 and the read is `undefined`, closing the overlay. */
  function Previous(images: seq<GalleryImage>, selected: Option<GalleryImage>): (r: Option<GalleryImage>)
    ensures selected.None? ==> r.None?
    ensures selected.Some? && !HasId(images, selected.value.id) ==> r.None?
    ensures r.Some? ==> r.value in images
    ensures forall i :: selected.Some? && FirstWithId(images, selected.value.id, i) ==>
      r == Some(images[if i == 0 then |images| - 1 else i - 1])
  {
    match selected
    case None => None
    case Some(image) =>
      var current := FindIndex(images, image.id);
      var previous := if current == 0 then |images| - 1 else current - 1;
      ElementAt(images, Some(previous))
  }

  /** With distinct ids, a record's id is found at that record's own position. */
  lemma PositionOfRecord(images: seq<GalleryImage>, i: int)
    requires UniqueIds(images) && 0 <= i < |images|
    ensures FirstWithId(images, images[i].id, i)
    ensures FindIndex(images, images[i].id) == i
  {
    assert HasId(images, images[i].id);
  }

  /** From position `i`, next moves one place on, from the last record to the first. */
  lemma NextFrom(images: seq<GalleryImage>, i: int)
    requires UniqueIds(images) && 0 <= i < |images|
    ensures Next(images, Some(images[i])) == Some(images[if i + 1 == |images| then 0 else i + 1])
  {
    PositionOfRecord(images, i);
  }

  /** From position `i`, previous moves one place back, from the first record to the last. */
  lemma PreviousFrom(images: seq<GalleryImage>, i: int)
    requires UniqueIds(images) && 0 <= i < |images|
    ensures Previous(images, Some(images[i])) == Some(images[if i == 0 then |images| - 1 else i - 1])
  {
    PositionOfRecord(images, i);
  }

  /** Previous undoes next. */
  lemma NextThenPrevious(images: seq<GalleryImage>, i: int)
    requires UniqueIds(images) && 0 <= i < |images|
    ensures Previous(images, Next(images, Some(images[i]))) == Some(images[i])
  {
    NextFrom(images, i);
    PreviousFrom(images, if i + 1 == |images| then 0 else i + 1);
  }

  /** Next undoes previous. */
  lemma PreviousThenNext(images: seq<GalleryImage>, i: int)
    requires UniqueIds(images) && 0 <= i < |images|
    ensures Next(images, Previous(images, Some(images[i]))) == Some(images[i])
  {
    PreviousFrom(images, i);
    NextFrom(images, if i == 0 then |images| - 1 else i - 1);
  }

  /** `k` applications of `step`, starting from `start`. */
  function Iterate(step: Option<GalleryImage> -> Option<GalleryImage>, start: Option<GalleryImage>, k: nat): Option<GalleryImage>
  {
    if k == 0 then start else step(Iterate(step, start, k - 1))
  }

  /** One press of next, as a step function over the selection. */
  function NextStep(images: seq<GalleryImage>): Option<GalleryImage> -> Option<GalleryImage> {
    selected => Next(images, selected)
  }

  /** One press of previous, as a step function over the selection. */
  function PreviousStep(images: seq<GalleryImage>): Option<GalleryImage> -> Option<GalleryImage> {
    selected => Previous(images, selected)
  }

  /** `k` presses of next. */
  function NextTimes(images: seq<GalleryImage>, selected: Option<GalleryImage>, k: nat): Option<GalleryImage> {
    Iterate(NextStep(images), selected, k)
  }

  /** `k` presses of previous. */
  function PreviousTimes(images: seq<GalleryImage>, selected: Option<GalleryImage>, k: nat): Option<GalleryImage> {
    Iterate(PreviousStep(images), selected, k)
  }

  /** The position `k <= n` places after `i` in a ring of `n`. */
  function Forward(i: int, k: nat, n: nat): int {
    if i + k < n then i + k else i + k - n
  }

  /** The position `k <= n` places before `i` in a ring of `n`. */
  function Backward(i: int, k: nat, n: nat): int {
    if k <= i then i - k else i - k + n
  }

  /** A step that moves every record of `images` one place on, wrapping from the last to the
      first, moves `k <= n` places on in `k` applications. */
  lemma {:induction false} IterateForward(step: Option<GalleryImage> -> Option<GalleryImage>, images: seq<GalleryImage>, i: int, k: nat)
    requires 0 <= i < |images| && k <= |images|
    requires forall j :: 0 <= j < |images| ==> step(Some(images[j])) == Some(images[if j + 1 == |images| then 0 else j + 1])
    ensures Iterate(step, Some(images[i]), k) == Some(images[Forward(i, k, |images|)])
  {
    if k > 0 {
      var j := Forward(i, k - 1, |images|);
      IterateForward(step, images, i, k - 1);
      assert step(Some(images[j])) == Some(images[if j + 1 == |images| then 0 else j + 1]);
    }
  }

  /** A step that moves every record of `images` one place back, wrapping from the first to
      the last, moves `k <= n` places back in `k` applications. */
  lemma {:induction false} IterateBackward(step: Option<GalleryImage> -> Option<GalleryImage>, images: seq<GalleryImage>, i: int, k: nat)
    requires 0 <= i < |images| && k <= |images|
    requires forall j :: 0 <= j < |images| ==> step(Some(images[j])) == Some(images[if j == 0 then |images| - 1 else j - 1])
    ensures Iterate(step, Some(images[i]), k) == Some(images[Backward(i, k, |images|)])
  {
    if k > 0 {
      var j := Backward(i, k - 1, |images|);
      IterateBackward(step, images, i, k - 1);
      assert step(Some(images[j])) == Some(images[if j == 0 then |images| - 1 else j - 1]);
    }
  }

  /** `k <= n` presses of next from position `i` land `k` places on, wrapping past the
      last record at most once. */
  lemma NextTimesFrom(images: seq<GalleryImage>, i: int, k: nat)
    requires UniqueIds(images) && 0 <= i < |images| && k <= |images|
    ensures NextTimes(images, Some(images[i]), k) == Some(images[Forward(i, k, |images|)])
  {
    forall j | 0 <= j < |images|
      ensures NextStep(images)(Some(images[j])) == Some(images[if j + 1 == |images| then 0 else j + 1])
    {
      NextFrom(images, j);
    }
    IterateForward(NextStep(images), images, i, k);
  }

  /** `k <= n` presses of previous from position `i` land `k` places back, wrapping past the
      first record at most once. */
  lemma PreviousTimesFrom(images: seq<GalleryImage>, i: int, k: nat)
    requires UniqueIds(images) && 0 <= i < |images| && k <= |images|
    ensures PreviousTimes(images, Some(images[i]), k) == Some(images[Backward(i, k, |images|)])
  {
    forall j | 0 <= j < |images|
      ensures PreviousStep(images)(Some(images[j])) == Some(images[if j == 0 then |images| - 1 else j - 1])
    {
      PreviousFrom(images, j);
    }
    IterateBackward(PreviousStep(images), images, i, k);
  }

  /** Pressing next, or previous, as many times as the list is long returns to the start. */
  lemma FullCycle(images: seq<GalleryImage>, i: int)
    requires UniqueIds(images) && 0 <= i < |images|
    ensures NextTimes(images, Some(images[i]), |images|) == Some(images[i])
    ensures PreviousTimes(images, Some(images[i]), |images|) == Some(images[i])
  {
    NextTimesFrom(images, i, |images|);
    PreviousTimesFrom(images, i, |images|);
  }

  /** In a one-record list both next and previous keep that record selected. */
  lemma SingleRecordStays(images: seq<GalleryImage>)
    requires |images| == 1
    ensures Next(images, Some(images[0])) == Some(images[0])
    ensures Previous(images, Some(images[0])) == Some(images[0])
  {
    assert FirstWithId(images, images[0].id, 0);
  }
}
