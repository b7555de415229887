/** The trail record the scraper writes and the resolver reads back. */
module HikeRecord {
  import opened Wrappers

  /**
   * One coordinate: the decimal text the scraper cut out of a maps link, or
   * a number the geocoder returned (kept opaque: nothing computes with it).
   */
  datatype Coord = Decimal(text: string) | Number(value: real)

  /**
   * A record's location: a free-text place name still to be geocoded, or a
   * pair (a Python tuple, or a list once it has been through JSON).
   */
  datatype Location = Place(name: string) | Coordinates(lat: Coord, lon: Coord)

  /** One trail: the four keys of the dictionary the scraper builds. */
  datatype Hike = Hike(name: string, description: seq<string>, location: Location, mapEmbed: Option<string>)
}
