/** The full-screen overlay: the keyboard mapping it installs while open, and the position
    facts it derives from the filtered list to decide which arrow buttons to draw and what
    "Image i of n" line to print. */
module Lightbox {
  import opened GalleryTypes
  import opened Navigation

  /** The three callbacks the overlay can invoke. */
  datatype Action = CloseOverlay | ShowNext | ShowPrevious

  /** The callbacks a keydown fires, in the order of the handler's three independent `if`s. */
  function KeyActions(key: string): (r: seq<Action>)
    ensures |r| <= 1
    ensures r == [CloseOverlay] <==> key == "Escape"
    ensures r == [ShowNext] <==> key == "ArrowRight"
    ensures r == [ShowPrevious] <==> key == "ArrowLeft"
    ensures r == [] <==> key != "Escape" && key != "ArrowRight" && key != "ArrowLeft"
  {
    assert |"Escape"| != |"ArrowRight"| && |"Escape"| != |"ArrowLeft"| && |"ArrowRight"| != |"ArrowLeft"|;
    assert [CloseOverlay][0] != [ShowNext][0] && [CloseOverlay][0] != [ShowPrevious][0] && [ShowNext][0] != [ShowPrevious][0];
    (if key == "Escape" then [CloseOverlay] else [])
    + (if key == "ArrowRight" then [ShowNext] else [])
    + (if key == "ArrowLeft" then [ShowPrevious] else [])
  }

  /** What the overlay derives when it renders: the `findIndex` of the shown record in the
      filtered list, whether that is the first or the last position, and the list length. */
  datatype Overlay = Overlay(currentIndex: int, isFirst: bool, isLast: bool, total: nat) {

    /** The previous-arrow button is drawn unless the record is first. */
    predicate ShowsPreviousButton() {
      !isFirst
    }

    /** The next-arrow button is drawn unless the record is last. */
    predicate ShowsNextButton() {
      !isLast
    }

    /** The `i` of the "Image i of n" line. */
    function Position(): int {
      currentIndex + 1
    }
  }

  /** The overlay for the selected record over the filtered list; nothing when no record is
      selected (the component returns null and installs no key handler). */
  function Render(images: seq<GalleryImage>, image: Option<GalleryImage>): (r: Option<Overlay>)
    ensures r.None? <==> image.None?
    ensures r.Some? ==> r.value.total == |images|
    ensures r.Some? ==> (r.value.currentIndex == -1 <==> !HasId(images, image.value.id))
    ensures forall i :: image.Some? && FirstWithId(images, image.value.id, i) ==> r == Some(Overlay(i, i == 0, i == |images| - 1, |images|))
  {
    match image
    case None => None
    case Some(shown) =>
      var currentIndex := FindIndex(images, shown.id);
      Some(Overlay(currentIndex, currentIndex == 0, currentIndex == |images| - 1, |images|))
  }

  /** For a selected record present in the list, the "Image i of n" line has `1 <= i <= n`. */
  lemma PositionInRange(images: seq<GalleryImage>, image: GalleryImage)
    requires HasId(images, image.id)
    ensures Render(images, Some(image)).Some?
    ensures 1 <= Render(images, Some(image)).value.Position() <= |images|
  {
  }

  /** With distinct ids, the overlay for the record at position `i` prints `i + 1`, draws the
      previous arrow exactly when `i` is not the first position and the next arrow exactly
      when `i` is not the last. */
  lemma ButtonsAtPosition(images: seq<GalleryImage>, i: int)
    requires UniqueIds(images) && 0 <= i < |images|
    ensures Render(images, Some(images[i])).Some?
    ensures Render(images, Some(images[i])).value.Position() == i + 1
    ensures Render(images, Some(images[i])).value.ShowsPreviousButton() <==> i != 0
    ensures Render(images, Some(images[i])).value.ShowsNextButton() <==> i != |images| - 1
  {
    PositionOfRecord(images, i);
  }

  /** A selected record missing from the list prints "Image 0 of n", always draws the previous
      arrow, and draws the next arrow unless the list is empty. */
  lemma AbsentRecordOverlay(images: seq<GalleryImage>, image: GalleryImage)
    requires !HasId(images, image.id)
    ensures Render(images, Some(image)).Some?
    ensures Render(images, Some(image)).value.Position() == 0
    ensures Render(images, Some(image)).value.ShowsPreviousButton()
    ensures Render(images, Some(image)).value.ShowsNextButton() <==> |images| != 0
  {
  }

  /** With a single record both arrows are hidden, yet the arrow keys, which do not consult
      the buttons, still "wrap" onto that same record. */
  lemma SingleRecordArrowsHiddenKeysWrap(images: seq<GalleryImage>)
    requires |images| == 1
    ensures !Render(images, Some(images[0])).value.ShowsPreviousButton()
    ensures !Render(images, Some(images[0])).value.ShowsNextButton()
    ensures Next(images, Some(images[0])) == Some(images[0])
    ensures Previous(images, Some(images[0])) == Some(images[0])
  {
    SingleRecordStays(images);
  }
}
