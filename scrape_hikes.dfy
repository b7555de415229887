/**
 * The scrape command: turns each `li.detail-list__item` of the listing page
 * into a trail record. Fetching the page and parsing the HTML are left to
 * the caller: the page arrives as its items, each item as the text of its
 * first anchor and its content block, and the block as its direct children
 * plus the hrefs found inside it in document order.
 */
module ScrapeHikes {
  import opened Wrappers
  import opened PyStrings
  import opened HikeRecord
  import opened HikeLinks

  /**
   * A direct child of the content block: a text node, a comment, or a tag
   * with its class list and the text strings nested inside it.
   */
  datatype Node = Text(text: string) | Comment(text: string) | Element(classes: seq<string>, strings: seq<string>)

  /** The `detail-list__content` tag of one item. */
  datatype Block = Block(children: seq<Node>, hrefs: seq<string>)

  /** One `li.detail-list__item`: its first `<a>` (as its text strings) and its content block, each possibly absent. */
  datatype Item = Item(anchor: Option<seq<string>>, content: Option<Block>)

  /** The listing page: the items of its `div.primary`, or None when the page has no such div. */
  datatype Page = Page(primary: Option<seq<Item>>)

  /**
   * Why a scrape aborts. The first three are the attribute errors Python
   * raises on a missing div, anchor or content block; the last is `.group`
   * called on the failed match of a Trimble href without a trip id.
   */
  datatype ScrapeError = NoPrimaryDiv | NoAnchor | NoContentBlock | NoTripId

  const ActionsClass := "detail-list__actions-list"
  /** The embed link of a trip is this prefix followed by the trip id. */
  const TrimbleSite := "http://www." + TrimbleHost + "/"
  const EmbedPage := "Maps/EmbeddedMap.aspx?"
  const EmbedPrefix := TrimbleSite + EmbedPage + TripTag

  // ---------------------------------------------------------------------
  // Name and description
  // ---------------------------------------------------------------------

  /** `' '.join(anchor.stripped_strings)`. */
  function Name(anchor: seq<string>): (r: string)
    ensures IsStripped(r)
    ensures r == [] <==> StrippedStrings(anchor) == []
  {
    StrippedStringsClean(anchor);
    JoinStripped(StrippedStrings(anchor));
    Join(StrippedStrings(anchor), " ")
  }

  /** The name of a single text string is that string stripped. */
  lemma NameOfOne(t: string)
    ensures Name([t]) == Strip(t)
  {
    assert [t][1..] == [];
    assert StrippedStrings([t]) == if Strip(t) == [] then [] else [Strip(t)];
  }

  /**
   * Strings of the anchor taken in two runs: the name is the two names
   * joined by one space, with no space when either run is blank.
   */
  lemma NameAppend(a: seq<string>, b: seq<string>)
    ensures Name(a + b) ==
      if Name(a) == [] then Name(b)
      else if Name(b) == [] then Name(a)
      else Name(a) + " " + Name(b)
  {
    StrippedStringsAppend(a, b);
    JoinAppend(StrippedStrings(a), StrippedStrings(b), " ");
  }

  /** An anchor whose words are split over a line break and a blank string is named by its words, one space apart. */
  lemma NameOfSplitAnchor(first: string, blank: string, second: string)
    requires first != [] && IsStripped(first) && AllSpace(blank) && second != [] && IsStripped(second)
    ensures Name([" " + first + "\n", blank, second + " "]) == first + " " + second
  {
    var a, b, c := " " + first + "\n", blank, second + " ";
    assert [a] + [b] == [a, b] && [a, b] + [c] == [a, b, c];
    assert b == blank + [] + [] && c == [] + second + " ";
    StripPadded(" ", first, "\n");
    StripPadded(blank, [], []);
    StripPadded([], second, " ");
    NameOfOne(a);
    NameOfOne(b);
    NameOfOne(c);
    NameAppend([a], [b]);
    NameAppend([a, b], [c]);
  }

  /** A child that adds nothing to the description: a comment or the actions list. */
  predicate Ignored(node: Node) {
    node.Comment? || (node.Element? && ActionsClass in node.classes)
  }

  /** What the description generator yields for one child. */
  function ChildParts(node: Node): (r: seq<string>)
    ensures forall k :: 0 <= k < |r| ==> IsStripped(r[k])
  {
    match node
    case Text(t) => [Strip(t)]
    case Comment(_) => []
    case Element(classes, strings) =>
      if ActionsClass in classes then []
      else
        StrippedStringsClean(strings);
        StrippedStrings(strings)
  }

  /** `_description_from_content`: everything the generator yields, child by child. */
  function DescriptionParts(children: seq<Node>): (r: seq<string>)
    ensures forall k :: 0 <= k < |r| ==> IsStripped(r[k])
  {
    if children == [] then [] else ChildParts(children[0]) + DescriptionParts(children[1..])
  }

  /** `filter(None, ...)` over strings: the empty ones are dropped. */
  function DropEmpty(xs: seq<string>): (r: seq<string>)
    ensures |r| <= |xs|
    ensures forall k :: 0 <= k < |r| ==> r[k] != [] && r[k] in xs
  {
    if xs == [] then []
    else (if xs[0] == [] then [] else [xs[0]]) + DropEmpty(xs[1..])
  }

  /** The description list of a record. */
  function Description(children: seq<Node>): (r: seq<string>)
    ensures forall k :: 0 <= k < |r| ==> r[k] != [] && IsStripped(r[k])
  {
    DropEmpty(DescriptionParts(children))
  }

  lemma {:induction false} DropEmptyAppend(a: seq<string>, b: seq<string>)
    ensures DropEmpty(a + b) == DropEmpty(a) + DropEmpty(b)
  {
    if a == [] {
      assert a + b == b;
    } else {
      assert (a + b)[1..] == a[1..] + b;
      DropEmptyAppend(a[1..], b);
      assert DropEmpty(a + b) == (if a[0] == [] then [] else [a[0]]) + DropEmpty(a[1..] + b);
    }
  }

  lemma {:induction false} DropEmptyKeepsNonEmpty(xs: seq<string>)
    requires forall k :: 0 <= k < |xs| ==> xs[k] != []
    ensures DropEmpty(xs) == xs
  {
    if xs != [] {
      DropEmptyKeepsNonEmpty(xs[1..]);
    }
  }

  lemma {:induction false} DescriptionPartsAppend(a: seq<Node>, b: seq<Node>)
    ensures DescriptionParts(a + b) == DescriptionParts(a) + DescriptionParts(b)
  {
    if a == [] {
      assert a + b == b;
    } else {
      assert (a + b)[1..] == a[1..] + b;
      DescriptionPartsAppend(a[1..], b);
      assert DescriptionParts(a + b) == ChildParts(a[0]) + DescriptionParts(a[1..] + b);
    }
  }

  /** Children contribute in document order: the description of a concatenation is the concatenation. */
  lemma DescriptionAppend(a: seq<Node>, b: seq<Node>)
    ensures Description(a + b) == Description(a) + Description(b)
  {
    DescriptionPartsAppend(a, b);
    DropEmptyAppend(DescriptionParts(a), DescriptionParts(b));
  }

  lemma DescriptionOfIgnored(node: Node)
    requires Ignored(node)
    ensures Description([node]) == []
  {
    assert [node][1..] == [];
    assert DescriptionParts([node]) == ChildParts(node);
  }

  /** A comment or the actions list can be removed from anywhere without changing the description. */
  lemma DescriptionSkipsIgnored(before: seq<Node>, node: Node, after: seq<Node>)
    requires Ignored(node)
    ensures Description(before + [node] + after) == Description(before + after)
  {
    calc {
      Description(before + [node] + after);
      { DescriptionAppend(before + [node], after); }
      Description(before + [node]) + Description(after);
      { DescriptionAppend(before, [node]); DescriptionOfIgnored(node); }
      Description(before) + Description(after);
      { DescriptionAppend(before, after); }
      Description(before + after);
    }
  }

  /** A block made only of comments and actions lists has an empty description (not an error). */
  lemma {:induction false} DescriptionOfIgnoredOnly(children: seq<Node>)
    requires forall k :: 0 <= k < |children| ==> Ignored(children[k])
    ensures Description(children) == []
  {
    if children != [] {
      DescriptionOfIgnoredOnly(children[1..]);
      assert DescriptionParts(children) == DescriptionParts(children[1..]);
    }
  }

  /** A text child gives its stripped text, unless that is empty. */
  lemma DescriptionOfText(t: string)
    ensures Description([Text(t)]) == if AllSpace(t) then [] else [Strip(t)]
  {
    assert DescriptionParts([Text(t)]) == [Strip(t)];
  }

  /** Any other tag gives its stripped strings, all of them. */
  lemma DescriptionOfElement(classes: seq<string>, strings: seq<string>)
    requires ActionsClass !in classes
    ensures Description([Element(classes, strings)]) == StrippedStrings(strings)
  {
    assert DescriptionParts([Element(classes, strings)]) == StrippedStrings(strings);
    StrippedStringsClean(strings);
    DropEmptyKeepsNonEmpty(StrippedStrings(strings));
  }

  // ---------------------------------------------------------------------
  // Location and map embed
  // ---------------------------------------------------------------------

  /** Both patterns of `_location_from_content` on one href, the coordinate pair first. */
  function LocationFromHref(href: string): (r: Option<Location>)
    ensures var line := FirstLine(href);
      && (r.Some? && r.value.Coordinates? <==> exists m, p, c :: PairSite(line, m, p, c))
      && (r.Some? && r.value.Coordinates? ==>
            && r.value.lat.Decimal? && r.value.lon.Decimal?
            && exists m, p, c :: FirstPairSite(line, m, p, c) && PairText(line, c, r.value.lat.text, r.value.lon.text))
      && (r.Some? && r.value.Place? <==> CoordinateMatch(line).None? && Contains(line, PlacePath))
      && (r.Some? && r.value.Place? ==>
            exists m :: && OccursAt(line, PlacePath, m)
                        && (forall m' :: m < m' <= |line| ==> !OccursAt(line, PlacePath, m'))
                        && r.value.name == Replace(line[m + |PlacePath|..], '+', ' '))
  {
    var line := FirstLine(href);
    match CoordinateMatch(line)
    case Some((lat, lon)) => Some(Coordinates(Decimal(lat), Decimal(lon)))
    case None =>
      match PlaceScan(line, |line|)
      case Some(captured) => Some(Place(PlaceName(captured)))
      case None => None
  }

  /** A link to `/maps?q=` followed by two decimals joined by `+` is located at those two decimals, as text. */
  lemma CoordinateLinkLocation(lat: string, lon: string)
    requires IsDecimal(lat) && IsDecimal(lon)
    ensures LocationFromHref(CoordinateLinkPrefix + lat + "+" + lon) == Some(Coordinates(Decimal(lat), Decimal(lon)))
  {
    var href := CoordinateLinkPrefix + lat + "+" + lon;
    CoordinateLinkChars(lat, lon);
    FirstLineWhole(href);
    CoordinateLinkMatch(lat, lon);
  }

  /** `_location_from_content`: only the first Google Maps href is looked at. */
  function LocationFromContent(hrefs: seq<string>): (r: Option<Location>)
    ensures FirstWith(hrefs, MapsHost).None? ==> r.None?
    ensures FirstWith(hrefs, MapsHost).Some? ==> r == LocationFromHref(FirstWith(hrefs, MapsHost).value)
  {
    match FirstWith(hrefs, MapsHost)
    case None => None
    case Some(href) => LocationFromHref(href)
  }

  /** Python truthiness of the location: None and the empty place name are dropped. */
  predicate KeepsLocation(location: Option<Location>) {
    location.Some? && location.value != Place([])
  }

  /** `_map_embed_from_content`. */
  function MapEmbedFromContent(hrefs: seq<string>): (r: Result<Option<string>, ScrapeError>)
    ensures r == Ok(None) <==> forall i :: 0 <= i < |hrefs| ==> !Contains(hrefs[i], TrimbleHost)
    ensures r.Ok? && r.value.Some? ==>
      exists id :: id != [] && AllDigits(id) && r.value.value == EmbedPrefix + id
    ensures r.Err? ==> r.error == NoTripId && exists i :: 0 <= i < |hrefs| && Contains(hrefs[i], TrimbleHost)
    ensures FirstWith(hrefs, TrimbleHost).Some? ==>
      var id := TripIdMatch(FirstLine(FirstWith(hrefs, TrimbleHost).value));
      && (r.Err? <==> id.None?)
      && (r.Ok? ==> r.value == Some(EmbedPrefix + id.value))
  {
    match FirstWith(hrefs, TrimbleHost)
    case None => Ok(None)
    case Some(href) =>
      match TripIdMatch(FirstLine(href))
      case None => Err(NoTripId)
      case Some(id) => Ok(Some(EmbedPrefix + id))
  }

  /** A Trimble link with no trip id in it, such as the site's home page, aborts the scrape. */
  lemma EmbedOfSiteRoot()
    ensures MapEmbedFromContent([TrimbleSite]) == Err(NoTripId)
  {
    SiteChars();
    SiteHasHost("");
    assert TrimbleSite + "" == TrimbleSite;
    FirstLineWhole(TrimbleSite);
    EmbedPageChars();
    TripPathChars();
    PatternAbsent(TrimbleSite, TripTag, 4);
    PatternAbsent(TrimbleSite, TripPath, 0);
  }

  /** A single Trimble link with no line break gives the embed URL of the trip id its pattern captures. */
  lemma EmbedOfLink(s: string)
    requires Contains(s, TrimbleHost) && '\n' !in s && TripIdMatch(s).Some?
    ensures MapEmbedFromContent([s]) == Ok(Some(EmbedPrefix + TripIdMatch(s).value))
  {
    FirstLineWhole(s);
    assert FirstWith([s], TrimbleHost) == Some(s);
  }

  /** Every link on the Trimble site is found by the Trimble pattern. */
  lemma SiteHasHost(rest: string)
    ensures Contains(TrimbleSite + rest, TrimbleHost)
  {
    var s := TrimbleSite + rest;
    assert s[..31] == TrimbleSite;
    assert s[11..30] == TrimbleSite[11..30];
    assert OccursAt(s, TrimbleHost, 11);
  }

  /** A digit string holds no character that is not a digit. */
  lemma NoOtherInDigits(id: string, c: char)
    requires AllDigits(id) && !IsDigit(c)
    ensures c !in id
  {
    forall k | 0 <= k < |id|
      ensures id[k] != c
    {
      assert IsDigit(id[k]);
    }
  }

  /** A pattern with a character that `s` lacks does not occur in `s`. */
  lemma PatternAbsent(s: string, pat: string, i: nat)
    requires i < |pat| && pat[i] !in s
    ensures forall q :: !OccursAt(s, pat, q)
  {
    forall q
      ensures !OccursAt(s, pat, q)
    {
      if 0 <= q && q + |pat| <= |s| {
        assert s[q..q + |pat|][i] == s[q + i] && s[q + i] in s;
      }
    }
  }

  /** A pattern whose `i`-th character occurs in `s` only at `at + i` can occur only at `at`. */
  lemma PatternOnlyAt(s: string, pat: string, i: nat, at: int)
    requires i < |pat| && forall k :: 0 <= k < |s| && k != at + i ==> s[k] != pat[i]
    ensures forall q :: OccursAt(s, pat, q) ==> q == at
  {
    forall q | OccursAt(s, pat, q)
      ensures q == at
    {
      assert s[q + i] == s[q..q + |pat|][i];
    }
  }

  /** A character placed between two strings that lack it occurs only there. */
  lemma OnlyOccurrence(left: string, c: char, right: string)
    requires c !in left && c !in right
    ensures forall k :: 0 <= k < |left + [c] + right| && k != |left| ==> (left + [c] + right)[k] != c
  {
    var s := left + [c] + right;
    forall k | 0 <= k < |s| && k != |left|
      ensures s[k] != c
    {
      if k < |left| {
        assert s[k] == left[k];
      } else {
        assert s[k] == right[k - |left| - 1];
      }
    }
  }

  /** The site prefix holds none of the characters the patterns hinge on. */
  lemma SiteChars()
    ensures '\n' !in TrimbleSite && 'V' !in TrimbleSite && 'I' !in TrimbleSite
  {
    assert '\n' !in TrimbleHost && 'V' !in TrimbleHost && 'I' !in TrimbleHost;
  }

  /** Nor does the embed page, and `tripId=` holds a single `I`, at index 4. */
  lemma EmbedPageChars()
    ensures '\n' !in EmbedPage && 'V' !in EmbedPage && 'I' !in EmbedPage
    ensures '\n' !in TripTag && 'V' !in TripTag && TripTag[4] == 'I'
    ensures 'I' !in TripTag[..4] && 'I' !in TripTag[5..]
  {
  }

  /** `ViewTrip/` holds a single `V`, at its start, and no `I`. */
  lemma TripPathChars()
    ensures '\n' !in TripPath && 'I' !in TripPath && TripPath[0] == 'V' && 'V' !in TripPath[1..]
  {
  }

  /** The characters of a `ViewTrip/<id>` link that the patterns hinge on: its only `V` opens `ViewTrip/`. */
  lemma ViewTripChars(id: string)
    requires AllDigits(id)
    ensures var s := TrimbleSite + TripPath + id;
      && '\n' !in s && 'I' !in s
      && forall k :: 0 <= k < |s| && k != |TrimbleSite| ==> s[k] != 'V'
  {
    var right := TripPath[1..] + id;
    assert TrimbleSite + TripPath + id == TrimbleSite + [TripPath[0]] + right;
    NoOtherInDigits(id, '\n');
    NoOtherInDigits(id, 'I');
    NoOtherInDigits(id, 'V');
    SiteChars();
    TripPathChars();
    OnlyOccurrence(TrimbleSite, 'V', right);
  }

  /** Where the patterns can match in a `ViewTrip/<id>` link. */
  lemma ViewTripLink(id: string)
    requires id != [] && AllDigits(id)
    ensures var s := TrimbleSite + TripPath + id;
      && '\n' !in s && Contains(s, TrimbleHost)
      && OccursAt(s, TripPath, 31) && s[31 + |TripPath|..] == id
      && (forall q :: !OccursAt(s, TripTag, q))
      && (forall m :: OccursAt(s, TripPath, m) ==> m == 31)
  {
    var s := TrimbleSite + TripPath + id;
    ViewTripChars(id);
    SiteHasHost(TripPath + id);
    assert s == TrimbleSite + (TripPath + id);
    EmbedPageChars();
    PatternAbsent(s, TripTag, 4);
    TripPathChars();
    PatternOnlyAt(s, TripPath, 0, 31);
    assert s[31..40] == TripPath && s[40..] == id;
  }

  /** A `ViewTrip/<id>` link gives the embed URL of the same trip, with the whole digit run as its id. */
  lemma ViewTripEmbed(id: string)
    requires id != [] && AllDigits(id)
    ensures MapEmbedFromContent([TrimbleSite + TripPath + id]) == Ok(Some(EmbedPrefix + id))
  {
    var s := TrimbleSite + TripPath + id;
    ViewTripLink(id);
    TripIdViaPath(s, 31);
    EmbedOfLink(s);
  }

  /** The characters of an embed URL that the patterns hinge on: its only `I` is the one in `tripId=`. */
  lemma EmbedChars(id: string)
    requires AllDigits(id)
    ensures var s := EmbedPrefix + id;
      && '\n' !in s && 'V' !in s
      && forall k :: 0 <= k < |s| && k != 57 ==> s[k] != 'I'
  {
    var left := TrimbleSite + EmbedPage + TripTag[..4];
    var right := TripTag[5..] + id;
    assert TripTag == TripTag[..4] + [TripTag[4]] + TripTag[5..];
    assert EmbedPrefix + id == left + [TripTag[4]] + right;
    NoOtherInDigits(id, '\n');
    NoOtherInDigits(id, 'I');
    NoOtherInDigits(id, 'V');
    SiteChars();
    EmbedPageChars();
    OnlyOccurrence(left, 'I', right);
  }

  /** Where the patterns can match in an embed URL. */
  lemma EmbedLink(id: string)
    requires id != [] && AllDigits(id)
    ensures var s := EmbedPrefix + id;
      && '\n' !in s && Contains(s, TrimbleHost)
      && TagSite(s, 35, 53) && s[53 + |TripTag|..] == id
      && (forall q :: OccursAt(s, TripTag, q) ==> q == 53)
      && (forall m :: !OccursAt(s, TripPath, m))
  {
    var s := EmbedPrefix + id;
    EmbedChars(id);
    assert |s| > 57;
    SiteHasHost(EmbedPage + TripTag + id);
    assert s == TrimbleSite + (EmbedPage + TripTag + id);
    assert s[35] == '/' && OccursAt(s, TripTag, 53);
    EmbedPageChars();
    PatternOnlyAt(s, TripTag, 4, 53);
    TripPathChars();
    PatternAbsent(s, TripPath, 0);
    assert s[60..] == id;
  }

  /** The embed URL is itself a Trimble link, and it gives back itself. */
  lemma EmbedFixedPoint(id: string)
    requires id != [] && AllDigits(id)
    ensures MapEmbedFromContent([EmbedPrefix + id]) == Ok(Some(EmbedPrefix + id))
  {
    var s := EmbedPrefix + id;
    EmbedLink(id);
    TripIdViaTag(s, 35, 53);
    EmbedOfLink(s);
  }

  // ---------------------------------------------------------------------
  // One item, and the command's loop
  // ---------------------------------------------------------------------

  /** The item has a content block whose location survives the `if not location` test. */
  predicate HasLocation(item: Item) {
    item.content.Some? && KeepsLocation(LocationFromContent(item.content.value.hrefs))
  }

  /** The body of the loop in `handle` for one item: a record, None for `continue`, or the error raised. */
  function ExtractItem(item: Item): Result<Option<Hike>, ScrapeError> {
    if item.anchor.None? then Err(NoAnchor)
    else
      var name := Name(item.anchor.value);
      if item.content.None? then Err(NoContentBlock)
      else
        var content := item.content.value;
        var description := Description(content.children);
        var location := LocationFromContent(content.hrefs);
        if !KeepsLocation(location) then Ok(None)
        else
          match MapEmbedFromContent(content.hrefs)
          case Err(e) => Err(e)
          case Ok(mapEmbed) => Ok(Some(Hike(name, description, location.value, mapEmbed)))
  }

  /**
   * A record holds the item's name, description, location and map embed as
   * the functions above compute them, has a location that survives
   * `if not location`, a stripped name, a clean description and
   * decimal-string coordinates; the item is skipped exactly when anchor and
   * content exist and it has no location.
   */
  lemma ExtractItemShape(item: Item)
    ensures var r := ExtractItem(item);
      && (r.Ok? && r.value.Some? ==>
            var h := r.value.value;
            && HasLocation(item)
            && item.anchor.Some? && h.name == Name(item.anchor.value)
            && h.description == Description(item.content.value.children)
            && Some(h.location) == LocationFromContent(item.content.value.hrefs)
            && Ok(h.mapEmbed) == MapEmbedFromContent(item.content.value.hrefs)
            && IsStripped(h.name)
            && (forall k :: 0 <= k < |h.description| ==> h.description[k] != [] && IsStripped(h.description[k]))
            && h.location != Place([])
            && (h.location.Coordinates? ==> h.location.lat.Decimal? && h.location.lon.Decimal?))
      && (r == Ok(None) <==> item.anchor.Some? && item.content.Some? && !HasLocation(item))
      && (item.anchor.None? ==> r == Err(NoAnchor))
      && (item.anchor.Some? && item.content.None? ==> r == Err(NoContentBlock))
      && (r.Err? <==> || item.anchor.None? || item.content.None?
                      || (HasLocation(item) && MapEmbedFromContent(item.content.value.hrefs).Err?))
  {
  }

  /** What the loop body does with one item: a record, `continue`, or the error raised. */
  type Outcome = Result<Option<Hike>, ScrapeError>

  /** The outcome of the loop body for each item, in document order. */
  function Outcomes(items: seq<Item>): seq<Outcome> {
    seq(|items|, i requires 0 <= i < |items| => ExtractItem(items[i]))
  }

  /** The loop of `handle`: records appended in order, the first error ends it. */
  function Collect(outcomes: seq<Outcome>): Result<seq<Hike>, ScrapeError> {
    if outcomes == [] then Ok([])
    else
      match Collect(outcomes[..|outcomes| - 1])
      case Err(e) => Err(e)
      case Ok(hikes) =>
        match outcomes[|outcomes| - 1]
        case Err(e) => Err(e)
        case Ok(None) => Ok(hikes)
        case Ok(Some(h)) => Ok(hikes + [h])
  }

  /** The whole scrape of a page. */
  function Scrape(page: Page): Result<seq<Hike>, ScrapeError> {
    match page.primary
    case None => Err(NoPrimaryDiv)
    case Some(items) => Collect(Outcomes(items))
  }

  /** Once a prefix has failed, the whole loop fails with the same error. */
  lemma {:induction false} CollectPrefixErr(outcomes: seq<Outcome>, i: nat)
    requires i <= |outcomes| && Collect(outcomes[..i]).Err?
    ensures Collect(outcomes) == Collect(outcomes[..i])
    decreases |outcomes|
  {
    if i < |outcomes| {
      var init := outcomes[..|outcomes| - 1];
      assert init[..i] == outcomes[..i];
      CollectPrefixErr(init, i);
    } else {
      assert outcomes[..i] == outcomes;
    }
  }

  /** An error at the next item ends the loop with that error. */
  lemma CollectStops(outcomes: seq<Outcome>, i: nat)
    requires i < |outcomes| && Collect(outcomes[..i]).Ok? && outcomes[i].Err?
    ensures Collect(outcomes) == Err(outcomes[i].error)
  {
    assert outcomes[..i + 1][..i] == outcomes[..i];
    CollectPrefixErr(outcomes, i + 1);
  }

  /** A `continue` at the next item leaves the collected records as they are. */
  lemma CollectSkips(outcomes: seq<Outcome>, i: nat, hikes: seq<Hike>)
    requires i < |outcomes| && Collect(outcomes[..i]) == Ok(hikes) && outcomes[i] == Ok(None)
    ensures Collect(outcomes[..i + 1]) == Ok(hikes)
  {
    assert outcomes[..i + 1][..i] == outcomes[..i];
  }

  /** A record at the next item is appended to the collected records. */
  lemma CollectAppends(outcomes: seq<Outcome>, i: nat, hikes: seq<Hike>, h: Hike)
    requires i < |outcomes| && Collect(outcomes[..i]) == Ok(hikes) && outcomes[i] == Ok(Some(h))
    ensures Collect(outcomes[..i + 1]) == Ok(hikes + [h])
  {
    assert outcomes[..i + 1][..i] == outcomes[..i];
  }

  /** The number of items whose location survives, counted front to back. */
  function CountWithLocation(items: seq<Item>): nat {
    if items == [] then 0 else (if HasLocation(items[0]) then 1 else 0) + CountWithLocation(items[1..])
  }

  /** The records among the outcomes, front to back: what the loop should collect. */
  function Kept(outcomes: seq<Outcome>): seq<Hike> {
    if outcomes == [] then []
    else (if outcomes[0].Ok? && outcomes[0].value.Some? then [outcomes[0].value.value] else []) + Kept(outcomes[1..])
  }

  lemma {:induction false} KeptSnoc(outcomes: seq<Outcome>, o: Outcome)
    ensures Kept(outcomes + [o]) == Kept(outcomes) + (if o.Ok? && o.value.Some? then [o.value.value] else [])
  {
    if outcomes == [] {
      assert outcomes + [o] == [o];
    } else {
      var head := if outcomes[0].Ok? && outcomes[0].value.Some? then [outcomes[0].value.value] else [];
      var last := if o.Ok? && o.value.Some? then [o.value.value] else [];
      assert (outcomes + [o])[0] == outcomes[0];
      assert (outcomes + [o])[1..] == outcomes[1..] + [o];
      KeptSnoc(outcomes[1..], o);
      assert Kept(outcomes + [o]) == head + (Kept(outcomes[1..]) + last);
      assert head + (Kept(outcomes[1..]) + last) == (head + Kept(outcomes[1..])) + last;
    }
  }

  /** When no outcome is an error, the loop collects exactly the records, in order. */
  lemma {:induction false} CollectKept(outcomes: seq<Outcome>)
    requires forall i :: 0 <= i < |outcomes| ==> outcomes[i].Ok?
    ensures Collect(outcomes) == Ok(Kept(outcomes))
    decreases |outcomes|
  {
    if outcomes != [] {
      var n := |outcomes| - 1;
      var init := outcomes[..n];
      assert forall i :: 0 <= i < n ==> init[i] == outcomes[i];
      CollectKept(init);
      assert init + [outcomes[n]] == outcomes;
      KeptSnoc(init, outcomes[n]);
      assert Collect(init) == Ok(Kept(init));
      match outcomes[n]
      case Ok(None) =>
        assert Collect(outcomes) == Ok(Kept(init));
        assert Kept(outcomes) == Kept(init) + [] == Kept(init);
      case Ok(Some(h)) =>
        assert Collect(outcomes) == Ok(Kept(init) + [h]);
    }
  }

  /** An item that does not fail gives a record exactly when it has a location. */
  lemma RecordIffLocation(item: Item)
    requires ExtractItem(item).Ok?
    ensures ExtractItem(item).value.Some? <==> HasLocation(item)
  {
    ExtractItemShape(item);
  }

  /**
   * A successful scrape holds the records of the items that have a location,
   * in document order, and nothing else.
   */
  lemma ScrapeOrder(items: seq<Item>)
    requires Collect(Outcomes(items)).Ok?
    ensures Collect(Outcomes(items)) == Ok(Kept(Outcomes(items)))
    ensures forall i :: 0 <= i < |items| ==>
              (Outcomes(items)[i].Ok? && Outcomes(items)[i].value.Some? <==> HasLocation(items[i]))
  {
    var outcomes := Outcomes(items);
    CollectFirstError(outcomes);
    CollectKept(outcomes);
    forall i | 0 <= i < |items|
      ensures outcomes[i].Ok? && outcomes[i].value.Some? <==> HasLocation(items[i])
    {
      assert outcomes[i].Ok?;
      RecordIffLocation(items[i]);
    }
  }

  /** When no item raises, the records kept are as many as the items with a location. */
  lemma {:induction false} KeptCount(items: seq<Item>)
    requires forall i :: 0 <= i < |items| ==> ExtractItem(items[i]).Ok?
    ensures |Kept(Outcomes(items))| == CountWithLocation(items)
  {
    var outcomes := Outcomes(items);
    forall i | 0 <= i < |items|
      ensures outcomes[i].Ok? && (outcomes[i].value.Some? <==> HasLocation(items[i]))
    {
      RecordIffLocation(items[i]);
    }
    KeptCountOf(outcomes, items);
  }

  /** Outcomes that are all records or skips, a record exactly where the item has a location, keep that many records. */
  lemma {:induction false} KeptCountOf(outcomes: seq<Outcome>, items: seq<Item>)
    requires |outcomes| == |items|
    requires forall i :: 0 <= i < |items| ==> outcomes[i].Ok? && (outcomes[i].value.Some? <==> HasLocation(items[i]))
    ensures |Kept(outcomes)| == CountWithLocation(items)
  {
    if items != [] {
      KeptCountOf(outcomes[1..], items[1..]);
    }
  }

  /** A successful scrape yields exactly one record per item that has a location. */
  lemma ScrapeCount(items: seq<Item>)
    requires Collect(Outcomes(items)).Ok?
    ensures |Collect(Outcomes(items)).value| == CountWithLocation(items)
  {
    var outcomes := Outcomes(items);
    CollectFirstError(outcomes);
    CollectKept(outcomes);
    assert forall i :: 0 <= i < |items| ==> ExtractItem(items[i]) == outcomes[i];
    KeptCount(items);
  }

  /** The loop fails exactly when some outcome is an error, and then with the first one. */
  lemma {:induction false} CollectFirstError(outcomes: seq<Outcome>)
    ensures Collect(outcomes).Err? <==> exists i :: 0 <= i < |outcomes| && outcomes[i].Err?
    ensures Collect(outcomes).Err? ==>
      exists i :: && 0 <= i < |outcomes| && outcomes[i] == Err(Collect(outcomes).error)
                  && forall j :: 0 <= j < i ==> outcomes[j].Ok?
    decreases |outcomes|
  {
    if outcomes != [] {
      var n := |outcomes| - 1;
      CollectFirstError(outcomes[..n]);
      assert forall i :: 0 <= i < n ==> outcomes[i] == outcomes[..n][i];
    }
  }

  /** `Command.handle` without the fetch, the parse and the output. */
  method Handle(page: Page) returns (r: Result<seq<Hike>, ScrapeError>)
    ensures r == Scrape(page)
  {
    if page.primary.None? {
      return Err(NoPrimaryDiv);
    }
    var items := page.primary.value;
    ghost var outcomes := Outcomes(items);
    var hikes: seq<Hike> := [];
    var i := 0;
    while i < |items|
      invariant 0 <= i <= |items|
      invariant Collect(outcomes[..i]) == Ok(hikes)
    {
      var item := items[i];
      assert outcomes[i] == ExtractItem(item);
      if item.anchor.None? {
        CollectStops(outcomes, i);
        return Err(NoAnchor);
      }
      var name := Name(item.anchor.value);
      if item.content.None? {
        CollectStops(outcomes, i);
        return Err(NoContentBlock);
      }
      var content := item.content.value;
      var description := Description(content.children);
      var location := LocationFromContent(content.hrefs);
      if !KeepsLocation(location) {
        CollectSkips(outcomes, i, hikes);
        i := i + 1;
        continue;
      }
      var mapEmbed := MapEmbedFromContent(content.hrefs);
      if mapEmbed.Err? {
        CollectStops(outcomes, i);
        return Err(mapEmbed.error);
      }
      var hike := Hike(name, description, location.value, mapEmbed.value);
      CollectAppends(outcomes, i, hikes, hike);
      hikes := hikes + [hike];
      i := i + 1;
    }
    assert outcomes[..i] == outcomes;
    r := Ok(hikes);
  }
}
