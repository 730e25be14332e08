/** The per-category counts shown on the filter buttons. The source keeps them in a plain
    JavaScript object keyed by category string, starts `all` at the catalog length and the
    five named categories at zero, then does `counts[image.category]++` for every record.
    Because a record's category is an arbitrary string, that increment can land on `all`
    or on a key that does not exist yet (where `undefined++` stores NaN). */
module Counts {
  import opened GalleryTypes
  import opened Sequences
  import opened Search

  /** A JavaScript number as it can arise here: a whole count, or NaN. */
  datatype Count = Num(n: nat) | NaN

  type CountTable = map<string, Count>

  /** The table before any record is tallied. */
  function InitialCounts(total: nat): CountTable
  {
    map["all" := Num(total), "nature" := Num(0), "architecture" := Num(0),
        "technology" := Num(0), "people" := Num(0), "ghibli" := Num(0)]
  }

  /** `counts[key]++`: a present number goes up by one; NaN and a missing key both end as NaN. */
  function Increment(counts: CountTable, key: string): (r: CountTable)
    ensures r.Keys == counts.Keys + {key}
    ensures forall k :: k in counts && k != key ==> r[k] == counts[k]
  {
    var bumped := if key in counts && counts[key].Num? then Num(counts[key].n + 1) else NaN;
    counts[key := bumped]
  }

  /** `forEach` over the records, in order, incrementing each record's category. */
  function Tally(counts: CountTable, images: seq<GalleryImage>): (r: CountTable)
    ensures counts.Keys <= r.Keys
    ensures forall k :: k in counts && !Occurs(images, k) ==> r[k] == counts[k]
  {
    if |images| == 0 then counts
    else
      var init := images[..|images| - 1];
      assert forall k :: Occurs(init, k) ==> Occurs(images, k) by {
        forall k | Occurs(init, k) ensures Occurs(images, k) {
          var i :| 0 <= i < |init| && init[i].category == k;
          assert images[i].category == k;
        }
      }
      Increment(Tally(counts, init), images[|images| - 1].category)
  }

  /** The `categoryCounts` table for a catalog. */
  function CategoryCounts(catalog: seq<GalleryImage>): (r: CountTable)
    ensures NamedKeys + {"all"} <= r.Keys
  {
    Tally(InitialCounts(|catalog|), catalog)
  }

  /** How many records carry category `key`. */
  function CountOf(images: seq<GalleryImage>, key: string): nat
  {
    if |images| == 0 then 0
    else CountOf(images[..|images| - 1], key) + (if images[|images| - 1].category == key then 1 else 0)
  }

  /** Whether some record carries category `key`. */
  ghost predicate Occurs(images: seq<GalleryImage>, key: string) {
    exists i :: 0 <= i < |images| && images[i].category == key
  }

  /** A key that starts with a number ends with that number plus the records carrying it. */
  lemma {:induction false} TallyNumber(counts: CountTable, images: seq<GalleryImage>, key: string, start: nat)
    requires key in counts && counts[key] == Num(start)
    ensures Tally(counts, images)[key] == Num(start + CountOf(images, key))
  {
    if |images| > 0 {
      TallyNumber(counts, images[..|images| - 1], key, start);
    }
  }

  /** What tallying does to a key that does not start with a number: it is present afterwards
      exactly when it was before or some record carries it, and a key that starts absent or
      NaN ends NaN if some record carries it. */
  lemma {:induction false} TallyKey(counts: CountTable, images: seq<GalleryImage>, key: string)
    ensures key in Tally(counts, images) <==> key in counts || Occurs(images, key)
    ensures key in counts && counts[key].NaN? ==> Tally(counts, images)[key] == NaN
    ensures key !in counts && Occurs(images, key) ==> Tally(counts, images)[key] == NaN
  {
    if |images| > 0 {
      var init := images[..|images| - 1];
      TallyKey(counts, init, key);
      if Occurs(images, key) && images[|images| - 1].category != key {
        var i :| 0 <= i < |images| && images[i].category == key;
        assert init[i].category == key;
      }
      if Occurs(init, key) {
        var i :| 0 <= i < |init| && init[i].category == key;
        assert images[i].category == key;
      }
    }
  }

  /** The `all` button shows the catalog length, plus one for every record that carries the
      literal category "all" (the increment lands on the same key). */
  lemma {:induction false} CountsAll(catalog: seq<GalleryImage>)
    ensures CategoryCounts(catalog)["all"] == Num(|catalog| + CountOf(catalog, "all"))
  {
    var init := InitialCounts(|catalog|);
    assert "all" in init && init["all"] == Num(|catalog|);
    TallyNumber(init, catalog, "all", |catalog|);
    assert CategoryCounts(catalog)["all"] == Tally(init, catalog)["all"];
  }

  /** A named key's count is the number of records carrying it. */
  lemma {:induction false} CountsNamedKey(catalog: seq<GalleryImage>, key: string)
    requires key in NamedKeys
    ensures CategoryCounts(catalog)[key] == Num(CountOf(catalog, key))
  {
    var init := InitialCounts(|catalog|);
    assert key in init && init[key] == Num(0);
    TallyNumber(init, catalog, key, 0);
    assert CategoryCounts(catalog)[key] == Tally(init, catalog)[key];
  }

  /** Each named category's button shows how many records carry that category. */
  lemma CountsNamed(catalog: seq<GalleryImage>, c: FilterCategory)
    requires c != All
    ensures CategoryCounts(catalog)[c.Key()] == Num(CountOf(catalog, c.Key()))
  {
    KeysDistinct(c, All);
    CountsNamedKey(catalog, c.Key());
  }

  /** Every filter button, laid out in `Categories` order, reads a whole number from the
      table: its key is there from the start and never turns NaN, whatever categories the
      records carry. */
  lemma ButtonsShowNumbers(catalog: seq<GalleryImage>)
    ensures forall i :: 0 <= i < |Categories| ==>
      Categories[i].Key() in CategoryCounts(catalog) && CategoryCounts(catalog)[Categories[i].Key()].Num?
  {
    CountsAll(catalog);
    forall i | 0 <= i < |Categories|
      ensures Categories[i].Key() in CategoryCounts(catalog) && CategoryCounts(catalog)[Categories[i].Key()].Num?
    {
      if Categories[i] != All {
        CountsNamed(catalog, Categories[i]);
      }
    }
  }

  /** Any other key is in the table exactly when some record carries it as its category,
      and then it holds NaN. */
  lemma CountsOtherKeys(catalog: seq<GalleryImage>, key: string)
    requires key !in NamedKeys && key != "all"
    ensures key in CategoryCounts(catalog) <==> Occurs(catalog, key)
    ensures key in CategoryCounts(catalog) ==> CategoryCounts(catalog)[key] == NaN
  {
    TallyKey(InitialCounts(|catalog|), catalog, key);
  }

  /** Records whose category is one of the five named ones split the catalog: the five
      counts add up to its length. */
  lemma {:induction false} NamedCountsPartition(images: seq<GalleryImage>)
    requires forall i :: 0 <= i < |images| ==> images[i].category in NamedKeys
    ensures CountOf(images, "nature") + CountOf(images, "architecture") + CountOf(images, "technology")
          + CountOf(images, "people") + CountOf(images, "ghibli") == |images|
  {
    if |images| > 0 {
      NamedCountsPartition(images[..|images| - 1]);
    }
  }

  /** When every record's category is a named one, `all` is exactly the catalog length and
      equals the sum of the five named counts. */
  lemma {:induction false} CountsSumToAll(catalog: seq<GalleryImage>)
    requires forall i :: 0 <= i < |catalog| ==> catalog[i].category in NamedKeys
    ensures CategoryCounts(catalog)["all"] == Num(|catalog|)
    ensures forall k :: k in NamedKeys ==> CategoryCounts(catalog)[k].Num?
    ensures CategoryCounts(catalog)["nature"].n + CategoryCounts(catalog)["architecture"].n
          + CategoryCounts(catalog)["technology"].n + CategoryCounts(catalog)["people"].n
          + CategoryCounts(catalog)["ghibli"].n == |catalog|
  {
    CountsAll(catalog);
    forall k | k in NamedKeys
      ensures CategoryCounts(catalog)[k].Num?
    {
      CountsNamedKey(catalog, k);
    }
    CountsNamedKey(catalog, "nature");
    CountsNamedKey(catalog, "architecture");
    CountsNamedKey(catalog, "technology");
    CountsNamedKey(catalog, "people");
    CountsNamedKey(catalog, "ghibli");
    assert "all" !in NamedKeys;
    NoRecordOf(catalog, "all");
    NamedCountsPartition(catalog);
  }

  lemma {:induction false} NoRecordOf(images: seq<GalleryImage>, key: string)
    requires forall i :: 0 <= i < |images| ==> images[i].category != key
    ensures CountOf(images, key) == 0
  {
    if |images| > 0 {
      NoRecordOf(images[..|images| - 1], key);
    }
  }

  /** Counting by category agrees with filtering by it: `|Filter(catalog, c)|` is `CountOf`. */
  lemma {:induction false} CountIsFilterLength(images: seq<GalleryImage>, key: string)
    ensures |Filter(images, (image: GalleryImage) => image.category == key)| == CountOf(images, key)
  {
    if |images| > 0 {
      CountIsFilterLength(images[..|images| - 1], key);
    }
  }

  /** A named category's button count is the length of the grid that button selects while
      the search box is empty. */
  lemma ButtonCountMatchesGrid(catalog: seq<GalleryImage>, c: FilterCategory)
    requires c != All
    ensures CategoryCounts(catalog)[c.Key()] == Num(|FilteredImages(catalog, c, "")|)
  {
    CountsNamed(catalog, c);
    CountIsFilterLength(catalog, c.Key());
    FilterAgree(catalog, (image: GalleryImage) => image.category == c.Key(), (image: GalleryImage) => image.category == c.Key());
  }
}
