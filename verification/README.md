# Image gallery: filter, counts and overlay navigation

This project models the logic of a client-side photo gallery. A static catalog of image
records is narrowed by an active category and a free-text search term. Each category
button shows how many records carry that category. A record opened in a full-screen
overlay ("lightbox") can be stepped through with next/previous buttons and with the
keyboard.

The model is purely functional. Records, categories, the `null`-able selection and the
overlay's derived view are immutable datatypes. The filtered list and the count table are
pure functions of the catalog and the two filter inputs. The top-level component is a
small state machine (`App.Step`) over the three pieces of state it keeps: active filter,
search term, and selected record.

Modules, following the source layout:

- `GalleryTypes` (types.dfy): the record type, the six filter values, and `Option`.
- `Sequences` (sequences.dfy): order-preserving filtering (`Array.prototype.filter`) and
  subsequence facts.
- `Text` (text.dfy): ASCII lower-casing and `String.prototype.includes`.
- `Search` (search.dfy): the `filteredImages` computation.
- `Counts` (counts.dfy): the `categoryCounts` table.
- `Navigation` (navigation.dfy): `findIndex`, JavaScript `%`, and the next/previous handlers.
- `Lightbox` (lightbox.dfy): the key mapping and the overlay's index, boundary and
  position-indicator logic.
- `App` (app.dfy): the component's state machine.
- `ImageCard` (card.dfy): the card's first-three-tags strip.

Behaviour of the code worth knowing:

- A record's `category` is an unconstrained string, so categories need not partition the
  catalog. The five named counts add up to `all` only under a precondition.
- A record whose category is the literal `"all"` pushes the `all` count above the catalog
  length.
- An unknown category adds a key holding NaN to the count table.
- When the selected record is missing from the filtered list, the handlers are not a guarded
  no-op. Next selects the first record of the list. Previous reads index -2, gets
  `undefined`, and closes the overlay.
- On an empty list, next computes `0 % 0`, which is NaN. That also reads `undefined` and
  closes the overlay.
- The record type has no `photographer` field.

Inputs the model takes as parameters: the catalog, which is an arbitrary sequence of
records; the search box's new text (`App.EditSearch`); and the key name of a keydown
(`App.KeyDown`). Nothing reads a clock, the network or the DOM.

## Model

| member | source | states |
|---|---|---|
| `Sequences.Filter` | src/App.tsx:27-31 | `Array.prototype.filter`: the result keeps exactly the elements that pass, and is no longer than the input |
| `Sequences.FilterKeepsPositions` | src/App.tsx:20-32 | filtering keeps exactly the positions whose element passes, in ascending order, so nothing is reordered, duplicated or wrongly dropped |
| `Sequences.FilterFuse` | src/App.tsx:20-32 | filtering by the category predicate and then by the search predicate is one filter by their conjunction |
| `Sequences.FilterAppend` | src/App.tsx:21 | filtering distributes over concatenation |
| `Sequences.SubsequenceKeepsDistinct` | src/App.tsx:20-32 | a subsequence of a list with distinct keys has distinct keys |
| `Text.Lower` | src/App.tsx:26-30 | lower-casing keeps the length, leaves no ASCII capital, and changes each character only by its ASCII case |
| `Text.LowerIdempotent` | src/App.tsx:26 | lower-casing an already lower-cased string changes nothing |
| `Text.Includes` | src/App.tsx:28-30 | `includes` is true exactly when the needle occurs at some offset of the haystack |
| `Text.IncludesEmpty` | src/App.tsx:25-31 | every string includes the empty string |
| `Search.SomeTagIncludes` | src/App.tsx:29 | `tags.some(...)` is true exactly when some tag, lower-cased, contains the needle |
| `Search.MatchesSearch` | src/App.tsx:27-31 | a record passes the search stage exactly when the needle occurs in its lower-cased title, in some lower-cased tag, or in its lower-cased alt text |
| `Search.ByCategory` | src/App.tsx:19-22 | the category stage keeps exactly the records whose category string equals the active filter's key; under `all` it keeps everything |
| `Search.FilteredImages` | src/App.tsx:16-35 | a record is in the filtered list exactly when it is in the catalog, matches the category (or the filter is `all`), and passes the search (or the term is empty); with `all` and the empty term the list is the catalog |
| `Search.FilteredIsOneFilter` | src/App.tsx:17-34 | the two-stage computation equals one filter of the catalog by the conjunction of both stages, which fixes order and multiplicity and not just membership |
| `Search.FilteredIsSubsequence` | src/App.tsx:20-32 | the filtered list is a subsequence of the catalog |
| `Search.EmptyTermSkipsNothing` | src/App.tsx:25-31 | the `if (searchTerm)` guard is redundant: with the empty term the search stage would keep every record anyway |
| `Search.SearchIgnoresCase` | src/App.tsx:26-30 | a term and its lower-cased form give the same filtered list |
| `Search.FilteredKeepsUniqueIds` | src/App.tsx:20-32 | if catalog ids are distinct, the ids in every filtered list are distinct |
| `Search.SearchExampleByTerm` | src/App.tsx:24-31 | on a two-record catalog, "circ" finds only "Circuit", through its capitalised title |
| `Search.SearchExampleByCategory` | src/App.tsx:19-22 | on the same catalog, the nature filter with an empty term finds only the lake |
| `Counts.Increment` | src/App.tsx:49 | `counts[key]++` adds `key` to the table and leaves every other key as it was |
| `Counts.Tally` | src/App.tsx:48-50 | the `forEach` of increments keeps every key it started with, and leaves unchanged every key that no record carries as its category |
| `Counts.CategoryCounts` | src/App.tsx:38-53 | the finished table holds `all` and the five named keys, whatever the catalog |
| `Counts.TallyNumber` | src/App.tsx:48-50 | a key that starts with a number ends with that number plus the count of records carrying it |
| `Counts.TallyKey` | src/App.tsx:48-50 | after the tally a key is present exactly when it was present before or some record carries it; a NaN key stays NaN; a key that was absent and is carried by some record ends as NaN |
| `Counts.CountsAll` | src/App.tsx:40-50 | the `all` count is the catalog length plus the number of records whose category is the literal "all" |
| `Counts.CountsNamedKey` | src/App.tsx:41-50 | each of the five named keys ends with the number of records carrying it, having started at zero |
| `Counts.CountsNamed` | src/App.tsx:41-50 | each named category's count is the number of records carrying it |
| `Counts.ButtonsShowNumbers` | src/App.tsx:73-108 | every one of the six buttons laid out in `categories` order reads a whole number from the table, never NaN or a missing key, whatever categories the records carry |
| `Counts.CountsOtherKeys` | src/App.tsx:48-50 | any other key is in the table exactly when some record carries it, and then it holds NaN |
| `Counts.NamedCountsPartition` | src/App.tsx:48-50 | when every category is a named one, the five per-category numbers add up to the record count |
| `Counts.CountsSumToAll` | src/App.tsx:38-53 | when every record's category is one of the five named ones, `all` equals the catalog length and the five counts add up to it |
| `Counts.CountIsFilterLength` | src/App.tsx:21 | counting a category equals the length of the list filtered by it |
| `Counts.ButtonCountMatchesGrid` | src/App.tsx:38-53 | a named category's button count is the length of the grid that button selects while the search box is empty |
| `Navigation.FindIndex` | src/App.tsx:61 | `findIndex` is -1 exactly when no record has the id; otherwise it is the first position holding that id |
| `Navigation.NatRem` | src/App.tsx:62 | the remainder of a non-negative number is below the divisor and differs from the dividend by a multiple of it |
| `Navigation.JsRem` | src/App.tsx:62 | JavaScript `%` gives NaN exactly for divisor zero; otherwise a remainder of magnitude below the divisor, with the dividend's sign, differing from it by a multiple of the divisor |
| `Navigation.Next` | src/App.tsx:59-64 | no selection stays none; an empty list gives none; an absent id selects the first record; a present id at first position `i` selects position `i + 1`, wrapping from last to first; any result is a record of the list |
| `Navigation.Previous` | src/App.tsx:66-71 | no selection stays none; an absent id, including in an empty list, gives none; a present id at first position `i` selects position `i - 1`, wrapping from first to last; any result is a record of the list |
| `Navigation.PositionOfRecord` | src/App.tsx:61 | with distinct ids, `findIndex` of a record's id is that record's position |
| `Navigation.NextFrom` | src/App.tsx:61-63 | with distinct ids, next from position `i` lands on `i + 1`, or on 0 from the last position |
| `Navigation.PreviousFrom` | src/App.tsx:68-70 | with distinct ids, previous from position `i` lands on `i - 1`, or on the last position from 0 |
| `Navigation.NextThenPrevious` | src/App.tsx:59-71 | previous undoes next |
| `Navigation.PreviousThenNext` | src/App.tsx:59-71 | next undoes previous |
| `Navigation.NextTimesFrom` | src/App.tsx:61-63 | `k <= n` presses of next from position `i` land `k` places on around the ring |
| `Navigation.PreviousTimesFrom` | src/App.tsx:68-70 | `k <= n` presses of previous from position `i` land `k` places back around the ring |
| `Navigation.FullCycle` | src/App.tsx:59-71 | `n` presses of next, or of previous, return to the starting record |
| `Navigation.SingleRecordStays` | src/App.tsx:61-70 | in a one-record list, next and previous both keep that record |
| `Lightbox.KeyActions` | src/components/Lightbox.tsx:24-28 | Escape fires close, ArrowRight fires next, ArrowLeft fires previous, any other key fires nothing, and no key fires more than one callback |
| `Lightbox.Render` | src/components/Lightbox.tsx:39-43 | nothing is rendered exactly when nothing is selected; otherwise the current index is -1 exactly when the id is absent, and it is the first position of the id when present |
| `Lightbox.Overlay.ShowsPreviousButton` | src/components/Lightbox.tsx:56 | the previous arrow is drawn unless `isFirst`; its meaning in positions is stated by `Lightbox.ButtonsAtPosition` and `Lightbox.AbsentRecordOverlay` |
| `Lightbox.Overlay.ShowsNextButton` | src/components/Lightbox.tsx:65 | the next arrow is drawn unless `isLast`; its meaning in positions is stated by `Lightbox.ButtonsAtPosition` and `Lightbox.AbsentRecordOverlay` |
| `Lightbox.Overlay.Position` | src/components/Lightbox.tsx:125 | the `i` of "Image i of n"; bounded by `Lightbox.PositionInRange` |
| `Lightbox.PositionInRange` | src/components/Lightbox.tsx:125 | for a selected record present in the list, "Image i of n" has `1 <= i <= n` |
| `Lightbox.ButtonsAtPosition` | src/components/Lightbox.tsx:41-72 | with distinct ids, the record at position `i` shows `i + 1`; the previous arrow is drawn exactly when `i` is not first and the next arrow exactly when `i` is not last |
| `Lightbox.AbsentRecordOverlay` | src/components/Lightbox.tsx:41-43 | a selected record missing from the list shows "Image 0 of n", always draws the previous arrow, and draws the next arrow unless the list is empty |
| `Lightbox.SingleRecordArrowsHiddenKeysWrap` | src/components/Lightbox.tsx:42-72 | with one record both arrows are hidden, yet the arrow keys still keep that same record selected |
| `App.Perform` | src/App.tsx:157-163 | an overlay callback never touches the filter or the term; close clears the selection; any selection it makes is a record of the visible list |
| `App.PerformAll` | src/components/Lightbox.tsx:24-28 | running the fired callbacks in order keeps the filter and the term; with none fired the state is unchanged |
| `App.Visible` | src/App.tsx:159 | the list handed to the overlay is the filtered list: no longer than the catalog and holding only catalog records |
| `App.Step` | src/App.tsx:55-71 | a filter click changes only the filter; a search edit changes only the term; a card click selects exactly the clicked visible record; the close button clears the selection; a keydown with nothing selected changes nothing; any new selection is a record of the visible list |
| `App.KeyDownDispatch` | src/components/Lightbox.tsx:20-37 | with the overlay open, Escape clears the selection, ArrowRight applies next, ArrowLeft applies previous, and any other key leaves the state unchanged; nothing else in the state moves |
| `App.PerformOne` | src/components/Lightbox.tsx:24-28 | firing a single callback is performing it |
| `App.NextButtonMatchesKey` | src/components/Lightbox.tsx:65-72 | a drawn next-arrow button does exactly what ArrowRight does; an undrawn one cannot be pressed and leaves the state alone |
| `App.PreviousButtonMatchesKey` | src/components/Lightbox.tsx:56-63 | a drawn previous-arrow button does exactly what ArrowLeft does; an undrawn one cannot be pressed and leaves the state alone |
| `App.OneVisibleRecord` | src/components/Lightbox.tsx:42-72 | with one visible record both arrow buttons are hidden, yet the arrow keys still wrap onto that record: every arrow press, by button or key, leaves the state unchanged |
| `App.StepKeepsSelectionInCatalog` | src/App.tsx:55-71 | every step keeps the selection either empty or a record of the catalog |
| `App.RunKeepsSelectionInCatalog` | src/App.tsx:55-71 | any run of events keeps the selection either empty or a record of the catalog |
| `App.ReachableSelectionInCatalog` | src/App.tsx:11-13 | from the mount state, the selection is always empty or a record of the catalog |
| `App.FilterChangeWhileOpen` | src/App.tsx:59-71 | changing the filter keeps the selection; if the record has left the list, ArrowRight jumps to the first visible record, or closes the overlay on an empty list, and ArrowLeft closes the overlay |
| `App.RightThenLeftRestores` | src/App.tsx:59-71 | with distinct catalog ids, ArrowRight then ArrowLeft from a visible record restores the whole state |
| `App.LeftThenRightRestores` | src/App.tsx:59-71 | with distinct catalog ids, ArrowLeft then ArrowRight from a visible record restores the whole state |
| `GalleryTypes.KeysDistinct` | src/types/gallery.ts:10 | the six filter values have distinct keys, and the five named ones are exactly the named-category keys |
| `ImageCard.CardTags` | src/components/ImageCard.tsx:73 | a card shows a prefix of the tags, of length `min(3, number of tags)` |

## Left out

- Rendering: JSX, Tailwind class strings, icons and layout are presentational only. This
  covers the "Showing X of Y" line, the empty-state message, the filter-button label table
  and the overlay's detail panel.
- DOM side effects of the overlay are browser plumbing: the body's scroll lock and the
  add/remove of the keydown listener. The model assumes only what they achieve. The key
  handler is live exactly while a record is selected (`App.Step` ignores keydowns otherwise).
- React mechanics: `useState` and `useMemo` become an explicit state record and pure
  recomputation.
- The card's `isLoaded`/`isHovered` flags are per-card visual state.
- The catalog module and the search-box component are not part of this model. The catalog
  is an arbitrary input sequence, and a search edit is an event carrying the new string.
- The `photographer` attribution is read only for display and is absent from the record
  type.
- Event reachability: the overlay covers the page, but the model still lets filter, search
  and card events happen while it is open. It therefore admits the selected-record-not-in-list
  states, which the navigation lemmas describe.
- `Text.Lower`: only ASCII capitals are lower-cased. Full Unicode `toLowerCase` is not
  modelled.
- `Counts.Increment`: the table is a plain string map. Keys inherited from
  `Object.prototype` (such as `toString` or `__proto__`) are not modelled.
- `Navigation.JsRem`: this covers only whole-number operands. Those are the only operands
  the source produces, so fractional and infinite operands are left out.
