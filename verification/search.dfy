/** The gallery's derived view: the catalog narrowed by the active category and then by the
    free-text search term, recomputed from scratch whenever either input changes. */
module Search {
  import opened GalleryTypes
  import opened Sequences
  import opened Text

  /** Whether `tags.some(tag => lower(tag).includes(needle))`. */
  function SomeTagIncludes(tags: seq<string>, needle: string): (r: bool)
    ensures r <==> exists k :: 0 <= k < |tags| && OccursIn(needle, Lower(tags[k]))
  {
    if |tags| == 0 then false
    else Includes(Lower(tags[0]), needle) || SomeTagIncludes(tags[1..], needle)
  }

  /** The search predicate against an already lower-cased term: title, then some tag, then alt. */
  function MatchesSearch(image: GalleryImage, needle: string): (r: bool)
    ensures r <==>
      || OccursIn(needle, Lower(image.title))
      || (exists k :: 0 <= k < |image.tags| && OccursIn(needle, Lower(image.tags[k])))
      || OccursIn(needle, Lower(image.alt))
  {
    || Includes(Lower(image.title), needle)
    || SomeTagIncludes(image.tags, needle)
    || Includes(Lower(image.alt), needle)
  }

  /** The first stage: records of the active category, or every record under `All`. */
  function ByCategory(catalog: seq<GalleryImage>, active: FilterCategory): (r: seq<GalleryImage>)
    ensures forall image :: image in r <==> image in catalog && InCategory(image, active)
  {
    if active != All then Filter(catalog, (image: GalleryImage) => image.category == active.Key())
    else catalog
  }

  /** Whether a record survives the category stage. */
  predicate InCategory(image: GalleryImage, active: FilterCategory) {
    active == All || image.category == active.Key()
  }

  /** Whether a record survives the search stage: the term is empty (the stage is skipped),
      or its lower-cased form occurs in the lower-cased title, some tag, or the alt text. */
  ghost predicate PassesSearch(image: GalleryImage, term: string) {
    || term == ""
    || OccursIn(Lower(term), Lower(image.title))
    || (exists k :: 0 <= k < |image.tags| && OccursIn(Lower(term), Lower(image.tags[k])))
    || OccursIn(Lower(term), Lower(image.alt))
  }

  /** The filtered list the grid shows and the overlay navigates. */
  function FilteredImages(catalog: seq<GalleryImage>, active: FilterCategory, term: string): (r: seq<GalleryImage>)
    ensures |r| <= |catalog|
    ensures forall image :: image in r <==> image in catalog && InCategory(image, active) && PassesSearch(image, term)
    ensures active == All && term == "" ==> r == catalog
  {
    var filtered := ByCategory(catalog, active);
    if |term| > 0 then
      var needle := Lower(term);
      Filter(filtered, (image: GalleryImage) => MatchesSearch(image, needle))
    else filtered
  }

  /** The two stages are one filter by the conjunction of their predicates: the result is the
      catalog's passing records, in catalog order, each exactly as often as in the catalog. */
  lemma FilteredIsOneFilter(catalog: seq<GalleryImage>, active: FilterCategory, term: string)
    ensures FilteredImages(catalog, active, term)
      == Filter(catalog, (image: GalleryImage) => InCategory(image, active) && MatchesSearch(image, Lower(term)))
  {
    var both := (image: GalleryImage) => InCategory(image, active) && MatchesSearch(image, Lower(term));
    var cat := (image: GalleryImage) => image.category == active.Key();
    var search := (image: GalleryImage) => MatchesSearch(image, Lower(term));
    if term == "" {
      forall image: GalleryImage ensures MatchesSearch(image, Lower(term)) {
        IncludesEmpty(Lower(image.title));
      }
    }
    if active != All {
      if term == "" {
        FilterAgree(catalog, cat, both);
      } else {
        FilterFuse(catalog, cat, search, both);
      }
    } else {
      FilterAgree(catalog, search, both);
      if term == "" {
        FilterAllPass(catalog, search);
      }
    }
  }

  /** The filtered list is a subsequence of the catalog: nothing is reordered or duplicated. */
  lemma FilteredIsSubsequence(catalog: seq<GalleryImage>, active: FilterCategory, term: string)
    ensures IsSubsequence(FilteredImages(catalog, active, term), catalog)
  {
    FilteredIsOneFilter(catalog, active, term);
    FilterIsSubsequence(catalog, (image: GalleryImage) => InCategory(image, active) && MatchesSearch(image, Lower(term)));
  }

  /** The `if (searchTerm)` guard changes nothing: with the empty term every record
      would pass the search stage anyway. */
  lemma EmptyTermSkipsNothing(catalog: seq<GalleryImage>, active: FilterCategory)
    ensures FilteredImages(catalog, active, "")
      == Filter(ByCategory(catalog, active), (image: GalleryImage) => MatchesSearch(image, Lower("")))
  {
    var search := (image: GalleryImage) => MatchesSearch(image, Lower(""));
    forall image | image in ByCategory(catalog, active) ensures search(image) {
      IncludesEmpty(Lower(image.title));
    }
    FilterAllPass(ByCategory(catalog, active), search);
  }

  /** Search ignores case: a term and its lower-cased form select the same records. */
  lemma SearchIgnoresCase(catalog: seq<GalleryImage>, active: FilterCategory, term: string)
    ensures FilteredImages(catalog, active, Lower(term)) == FilteredImages(catalog, active, term)
  {
    LowerIdempotent(term);
    FilteredIsOneFilter(catalog, active, term);
    FilteredIsOneFilter(catalog, active, Lower(term));
  }

  /** Ids that are distinct in the catalog stay distinct in every filtered view. */
  lemma FilteredKeepsUniqueIds(catalog: seq<GalleryImage>, active: FilterCategory, term: string)
    requires UniqueIds(catalog)
    ensures UniqueIds(FilteredImages(catalog, active, term))
  {
    FilteredIsSubsequence(catalog, active, term);
    SubsequenceKeepsDistinct(FilteredImages(catalog, active, term), catalog, (image: GalleryImage) => image.id);
  }

  /** The lake record of the two-record example below. */
  function ExampleLake(): GalleryImage {
    GalleryImage("1", "", "", "nature", ["water", "calm"], "Lake")
  }

  /** The circuit record of the two-record example below. */
  function ExampleChip(): GalleryImage {
    GalleryImage("2", "", "", "tech", ["chip"], "Circuit")
  }

  lemma ExampleLakeMisses()
    ensures !MatchesSearch(ExampleLake(), "circ")
  {
    assert Lower("Lake")[0] == 'l';
    assert !Includes(Lower("Lake")[1..], "circ");
    assert !Includes(Lower("water"), "circ") by {
      assert Lower("water")[0] == 'w' && Lower("water")[1] == 'a';
      assert !Includes(Lower("water")[1..], "circ");
      assert !Includes(Lower("water")[2..], "circ");
    }
    assert !Includes(Lower("calm"), "circ") by {
      assert Lower("calm")[1] == 'a';
      assert !Includes(Lower("calm")[1..], "circ");
    }
    assert !SomeTagIncludes(["water", "calm"], "circ");
  }

  lemma ExampleChipMatches()
    ensures MatchesSearch(ExampleChip(), "circ")
  {
    assert Lower("Circuit")[..4] == "circ";
  }

  /** On the two-record example, "circ" finds only the circuit board, through its
      capitalised title. */
  lemma SearchExampleByTerm()
    ensures FilteredImages([ExampleLake(), ExampleChip()], All, "circ") == [ExampleChip()]
  {
    var catalog := [ExampleLake(), ExampleChip()];
    assert catalog[..1] == [ExampleLake()];
    assert [ExampleLake()][..0] == [];
    ExampleLakeMisses();
    ExampleChipMatches();
    assert Lower("circ") == "circ";
  }

  /** On the two-record example, the nature filter finds only the lake. */
  lemma SearchExampleByCategory()
    ensures FilteredImages([ExampleLake(), ExampleChip()], Nature, "") == [ExampleLake()]
  {
    var catalog := [ExampleLake(), ExampleChip()];
    assert catalog[..1] == [ExampleLake()];
    assert [ExampleLake()][..0] == [];
    assert ExampleLake().category == Nature.Key() && ExampleChip().category != Nature.Key();
  }
}
