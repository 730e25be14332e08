/** The top-level gallery component as a state machine. Its state is the three `useState`
    slots (active filter, search term, selected record); the filtered list is recomputed from
    them on demand. Events are the user actions the page wires up: a filter button, an edit
    of the search box, a card click, the overlay's close/previous/next buttons, and a keydown
    while the overlay is open. */
module App {
  import opened GalleryTypes
  import opened Sequences
  import opened Search
  import opened Navigation
  import opened Lightbox

  datatype AppState = AppState(activeFilter: FilterCategory, searchTerm: string, selected: Option<GalleryImage>)

  /** The state at mount: every category, no search, nothing selected. */
  const Initial := AppState(All, "", None)

  datatype Event =
    | ChooseFilter(category: FilterCategory)
    | EditSearch(term: string)
    | ClickCard(card: nat)
    | CloseButton
    | PreviousButton
    | NextButton
    | KeyDown(key: string)

  /** The list the grid shows and the overlay navigates. */
  function Visible(catalog: seq<GalleryImage>, st: AppState): (r: seq<GalleryImage>)
    ensures |r| <= |catalog|
    ensures forall x :: x in r ==> x in catalog
  {
    FilteredImages(catalog, st.activeFilter, st.searchTerm)
  }

  /** One overlay callback: close clears the selection; next and previous move it within
      the visible list. */
  function Perform(catalog: seq<GalleryImage>, st: AppState, action: Action): (r: AppState)
    ensures r.activeFilter == st.activeFilter && r.searchTerm == st.searchTerm
    ensures action == CloseOverlay ==> r.selected.None?
    ensures r.selected.Some? ==> r.selected.value in Visible(catalog, st)
  {
    match action
    case CloseOverlay => st.(selected := None)
    case ShowNext => st.(selected := Next(Visible(catalog, st), st.selected))
    case ShowPrevious => st.(selected := Previous(Visible(catalog, st), st.selected))
  }

  /** The callbacks a keydown fires, run in order. */
  function PerformAll(catalog: seq<GalleryImage>, st: AppState, actions: seq<Action>): (r: AppState)
    ensures r.activeFilter == st.activeFilter && r.searchTerm == st.searchTerm
    ensures |actions| > 0 && r.selected.Some? ==> r.selected.value in Visible(catalog, st)
    ensures |actions| == 0 ==> r == st
    decreases |actions|
  {
    if |actions| == 0 then st
    else PerformAll(catalog, Perform(catalog, st, actions[0]), actions[1..])
  }

  /** One user action. The overlay's buttons exist only while a record is selected, and the
      arrow buttons only when the overlay draws them; a press on a button that is not drawn
      cannot happen and leaves the state alone. The key handler is installed only while a
      record is selected. */
  function Step(catalog: seq<GalleryImage>, st: AppState, event: Event): (r: AppState)
    ensures event.ChooseFilter? ==> r == st.(activeFilter := event.category)
    ensures event.EditSearch? ==> r == st.(searchTerm := event.term)
    ensures event.ClickCard? && event.card < |Visible(catalog, st)| ==> r == st.(selected := Some(Visible(catalog, st)[event.card]))
    ensures event.CloseButton? ==> r == st.(selected := None)
    ensures event.KeyDown? && st.selected.None? ==> r == st
    ensures r.selected.Some? ==> r.selected == st.selected || r.selected.value in Visible(catalog, st)
  {
    var visible := Visible(catalog, st);
    match event
    case ChooseFilter(category) => st.(activeFilter := category)
    case EditSearch(term) => st.(searchTerm := term)
    case ClickCard(card) =>
      if card < |visible| then st.(selected := Some(visible[card])) else st
    case CloseButton => st.(selected := None)
    case PreviousButton =>
      var overlay := Render(visible, st.selected);
      if overlay.Some? && overlay.value.ShowsPreviousButton() then Perform(catalog, st, ShowPrevious) else st
    case NextButton =>
      var overlay := Render(visible, st.selected);
      if overlay.Some? && overlay.value.ShowsNextButton() then Perform(catalog, st, ShowNext) else st
    case KeyDown(key) =>
      if st.selected.Some? then PerformAll(catalog, st, KeyActions(key)) else st
  }

  /** A keydown with the overlay open does exactly what its one mapped callback does:
      Escape closes, ArrowRight is next, ArrowLeft is previous, any other key nothing. */
  lemma KeyDownDispatch(catalog: seq<GalleryImage>, st: AppState, key: string)
    requires st.selected.Some?
    ensures key == "Escape" ==> Step(catalog, st, KeyDown(key)) == st.(selected := None)
    ensures key == "ArrowRight" ==> Step(catalog, st, KeyDown(key)) == st.(selected := Next(Visible(catalog, st), st.selected))
    ensures key == "ArrowLeft" ==> Step(catalog, st, KeyDown(key)) == st.(selected := Previous(Visible(catalog, st), st.selected))
    ensures key != "Escape" && key != "ArrowRight" && key != "ArrowLeft" ==> Step(catalog, st, KeyDown(key)) == st
  {
    assert Step(catalog, st, KeyDown(key)) == PerformAll(catalog, st, KeyActions(key));
    if key == "Escape" {
      PerformOne(catalog, st, CloseOverlay);
    } else if key == "ArrowRight" {
      PerformOne(catalog, st, ShowNext);
    } else if key == "ArrowLeft" {
      PerformOne(catalog, st, ShowPrevious);
    }
  }

  lemma PerformOne(catalog: seq<GalleryImage>, st: AppState, action: Action)
    ensures PerformAll(catalog, st, [action]) == Perform(catalog, st, action)
  {
    assert [action][1..] == [];
  }

  /** A drawn next-arrow button does what ArrowRight does; when it is not drawn it cannot be
      pressed, so the state stays as it is. */
  lemma NextButtonMatchesKey(catalog: seq<GalleryImage>, st: AppState)
    requires st.selected.Some?
    ensures Render(Visible(catalog, st), st.selected).value.ShowsNextButton()
      ==> Step(catalog, st, NextButton) == Step(catalog, st, KeyDown("ArrowRight"))
    ensures !Render(Visible(catalog, st), st.selected).value.ShowsNextButton()
      ==> Step(catalog, st, NextButton) == st
  {
    var visible := Visible(catalog, st);
    var right := st.(selected := Next(visible, st.selected));
    assert Step(catalog, st, NextButton)
      == if Render(visible, st.selected).value.ShowsNextButton() then right else st;
    KeyDownDispatch(catalog, st, "ArrowRight");
  }

  /** A drawn previous-arrow button does what ArrowLeft does; when it is not drawn it cannot be
      pressed, so the state stays as it is. */
  lemma PreviousButtonMatchesKey(catalog: seq<GalleryImage>, st: AppState)
    requires st.selected.Some?
    ensures Render(Visible(catalog, st), st.selected).value.ShowsPreviousButton()
      ==> Step(catalog, st, PreviousButton) == Step(catalog, st, KeyDown("ArrowLeft"))
    ensures !Render(Visible(catalog, st), st.selected).value.ShowsPreviousButton()
      ==> Step(catalog, st, PreviousButton) == st
  {
    var visible := Visible(catalog, st);
    var left := st.(selected := Previous(visible, st.selected));
    assert Step(catalog, st, PreviousButton)
      == if Render(visible, st.selected).value.ShowsPreviousButton() then left else st;
    KeyDownDispatch(catalog, st, "ArrowLeft");
  }

  /** With one visible record the overlay hides both arrow buttons, yet the arrow keys still
      wrap onto that same record: every arrow press, by button or by key, leaves the state as
      it is. */
  lemma OneVisibleRecord(catalog: seq<GalleryImage>, st: AppState)
    requires |Visible(catalog, st)| == 1 && st.selected == Some(Visible(catalog, st)[0])
    ensures !Render(Visible(catalog, st), st.selected).value.ShowsNextButton()
    ensures !Render(Visible(catalog, st), st.selected).value.ShowsPreviousButton()
    ensures Step(catalog, st, NextButton) == st && Step(catalog, st, PreviousButton) == st
    ensures Step(catalog, st, KeyDown("ArrowRight")) == st && Step(catalog, st, KeyDown("ArrowLeft")) == st
  {
    var visible := Visible(catalog, st);
    SingleRecordArrowsHiddenKeysWrap(visible);
    NextButtonMatchesKey(catalog, st);
    PreviousButtonMatchesKey(catalog, st);
    KeyDownDispatch(catalog, st, "ArrowRight");
    KeyDownDispatch(catalog, st, "ArrowLeft");
  }

  /** The selection, when present, is a record of the catalog. */
  ghost predicate SelectionInCatalog(catalog: seq<GalleryImage>, st: AppState) {
    st.selected.Some? ==> st.selected.value in catalog
  }

  /** Every step keeps the selection inside the catalog: records are only ever picked from
      the filtered list, which holds nothing the catalog does not. */
  lemma StepKeepsSelectionInCatalog(catalog: seq<GalleryImage>, st: AppState, event: Event)
    requires SelectionInCatalog(catalog, st)
    ensures SelectionInCatalog(catalog, Step(catalog, st, event))
  {
  }

  /** The state after a run of events from `st`. */
  function Run(catalog: seq<GalleryImage>, st: AppState, events: seq<Event>): AppState
    decreases |events|
  {
    if |events| == 0 then st else Run(catalog, Step(catalog, st, events[0]), events[1..])
  }

  /** From mount, however the user clicks, types and presses keys, the selection is always
      nothing or a record of the catalog. */
  lemma {:induction false} RunKeepsSelectionInCatalog(catalog: seq<GalleryImage>, st: AppState, events: seq<Event>)
    requires SelectionInCatalog(catalog, st)
    ensures SelectionInCatalog(catalog, Run(catalog, st, events))
    decreases |events|
  {
    if |events| > 0 {
      StepKeepsSelectionInCatalog(catalog, st, events[0]);
      RunKeepsSelectionInCatalog(catalog, Step(catalog, st, events[0]), events[1..]);
    }
  }

  lemma ReachableSelectionInCatalog(catalog: seq<GalleryImage>, events: seq<Event>)
    ensures SelectionInCatalog(catalog, Run(catalog, Initial, events))
  {
    RunKeepsSelectionInCatalog(catalog, Initial, events);
  }

  /** Changing the filter keeps the overlay open on the same record, even when
      that record drops out of the new list; next then jumps to the first visible record and
      previous closes the overlay. */
  lemma FilterChangeWhileOpen(catalog: seq<GalleryImage>, st: AppState, category: FilterCategory)
    requires st.selected.Some?
    requires !HasId(Visible(catalog, st.(activeFilter := category)), st.selected.value.id)
    ensures Step(catalog, st, ChooseFilter(category)).selected == st.selected
    ensures var after := Step(catalog, st, ChooseFilter(category));
      && (|Visible(catalog, after)| > 0 ==> Step(catalog, after, KeyDown("ArrowRight")).selected == Some(Visible(catalog, after)[0]))
      && (|Visible(catalog, after)| == 0 ==> Step(catalog, after, KeyDown("ArrowRight")).selected.None?)
      && Step(catalog, after, KeyDown("ArrowLeft")).selected.None?
  {
    var after := Step(catalog, st, ChooseFilter(category));
    KeyDownDispatch(catalog, after, "ArrowRight");
    KeyDownDispatch(catalog, after, "ArrowLeft");
  }

  /** With distinct catalog ids, ArrowRight then ArrowLeft from any visible record comes
      back to that record, whatever the filter and search. */
  lemma RightThenLeftRestores(catalog: seq<GalleryImage>, st: AppState, i: int)
    requires UniqueIds(catalog)
    requires 0 <= i < |Visible(catalog, st)| && st.selected == Some(Visible(catalog, st)[i])
    ensures Step(catalog, Step(catalog, st, KeyDown("ArrowRight")), KeyDown("ArrowLeft")) == st
  {
    var visible := Visible(catalog, st);
    FilteredKeepsUniqueIds(catalog, st.activeFilter, st.searchTerm);
    KeyDownDispatch(catalog, st, "ArrowRight");
    NextFrom(visible, i);
    var right := Step(catalog, st, KeyDown("ArrowRight"));
    assert right == st.(selected := Next(visible, st.selected));
    assert Visible(catalog, right) == visible;
    KeyDownDispatch(catalog, right, "ArrowLeft");
    NextThenPrevious(visible, i);
  }

  /** With distinct catalog ids, ArrowLeft then ArrowRight from any visible record comes
      back to that record, whatever the filter and search. */
  lemma LeftThenRightRestores(catalog: seq<GalleryImage>, st: AppState, i: int)
    requires UniqueIds(catalog)
    requires 0 <= i < |Visible(catalog, st)| && st.selected == Some(Visible(catalog, st)[i])
    ensures Step(catalog, Step(catalog, st, KeyDown("ArrowLeft")), KeyDown("ArrowRight")) == st
  {
    var visible := Visible(catalog, st);
    FilteredKeepsUniqueIds(catalog, st.activeFilter, st.searchTerm);
    KeyDownDispatch(catalog, st, "ArrowLeft");
    PreviousFrom(visible, i);
    var left := Step(catalog, st, KeyDown("ArrowLeft"));
    assert left == st.(selected := Previous(visible, st.selected));
    assert Visible(catalog, left) == visible;
    KeyDownDispatch(catalog, left, "ArrowRight");
    PreviousThenNext(visible, i);
  }
}
