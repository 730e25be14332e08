/** The grid card's tag strip: a card shows at most the first three of a record's tags,
    while the overlay shows them all. */
module ImageCard {

  /** `tags.slice(0, 3)`. */
  function CardTags(tags: seq<string>): (r: seq<string>)
    ensures |r| == if |tags| < 3 then |tags| else 3
    ensures r <= tags
  {
    if |tags| <= 3 then tags else tags[..3]
  }
}
