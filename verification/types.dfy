/** The gallery's record and category types, and the small Option wrapper that stands in
    for JavaScript's `null`/`undefined` ("no image"). */
module GalleryTypes {

  /** `Some(x)` is a present value; `None` is `null` or `undefined`. */
  datatype Option<+T> = None | Some(value: T)

  /** One catalog entry. `category` is a free string, not a FilterCategory: nothing in the
      type system stops a record from carrying "all" or an unknown category. */
  datatype GalleryImage = GalleryImage(
    id: string,
    src: string,
    alt: string,
    category: string,
    tags: seq<string>,
    title: string
  )

  /** The six filter values; `All` is the pseudo-category meaning "no category filter". */
  datatype FilterCategory = All | Nature | Architecture | Technology | People | Ghibli {

    /** The string literal the category stands for. */
    function Key(): string {
      match this
      case All => "all"
      case Nature => "nature"
      case Architecture => "architecture"
      case Technology => "technology"
      case People => "people"
      case Ghibli => "ghibli"
    }
  }

  /** The order in which the filter buttons are laid out. */
  const Categories: seq<FilterCategory> := [All, Nature, Architecture, Technology, People, Ghibli]

  /** The string keys of the five real (non-`all`) categories. */
  const NamedKeys: set<string> := {"nature", "architecture", "technology", "people", "ghibli"}

  /** Every filter value's key is distinct, and the named ones are exactly NamedKeys. */
  lemma KeysDistinct(a: FilterCategory, b: FilterCategory)
    ensures a.Key() == b.Key() <==> a == b
    ensures a != All <==> a.Key() in NamedKeys
  {
  }

  /** Record ids are pairwise distinct. */
  ghost predicate UniqueIds(images: seq<GalleryImage>) {
    forall i, j :: 0 <= i < j < |images| ==> images[i].id != images[j].id
  }
}
