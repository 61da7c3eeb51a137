/** `generateHtml` in generate-events.js: the fields it reads from a feature,
    with their fallbacks, and the page it renders from them. */
module Page {
  import opened Wrappers
  import opened Feed
  import Uri

  /** `x || ''` for a field that is a string when present. */
  function OrEmpty(x: Option<string>): (r: string)
    ensures x.None? ==> r == ""
    ensures x.Some? ==> r == x.value
  {
    match x
    case None => ""
    case Some(s) => s
  }

  /** `coords[i] || 0`: a missing slot reads as `undefined` and a falsy value
      is replaced by the number `0`. */
  function Slot(coords: seq<Num>, i: nat): (n: Num)
    ensures i < |coords| && !coords[i].falsy ==> n == coords[i]
    ensures i >= |coords| || coords[i].falsy ==> n == Zero
  {
    if i < |coords| && !coords[i].falsy then coords[i] else Zero
  }

  /** The values `generateHtml` binds before it builds the page. `name` stays
      an `Option` because the template prints an absent name as `undefined`. */
  datatype EventFields = EventFields(
    name: Option<string>,
    longName: string,
    shortName: string,
    location: string,
    latitude: Num,
    longitude: Num)

  /** The first seven lines of `generateHtml`. Reading a field of an absent
      `properties` or `geometry` object throws a TypeError. */
  function Extract(f: Feature): (r: Result<EventFields, Fault>)
    ensures f.properties.None? <==> r == Err(MissingProperties)
    ensures f.properties.Some? && f.geometry.None? <==> r == Err(MissingGeometry)
    ensures r.Ok? <==> f.properties.Some? && f.geometry.Some?
    ensures r.Ok? ==> r.value.name == f.properties.value.eventName
  {
    match f.properties
    case None => Err(MissingProperties)
    case Some(p) =>
      match f.geometry
      case None => Err(MissingGeometry)
      case Some(g) =>
        var coords := g.coordinates.GetOr([]);
        Ok(EventFields(
          p.eventName,
          OrEmpty(p.longName),
          OrEmpty(p.shortName),
          OrEmpty(p.location),
          Slot(coords, 1),
          Slot(coords, 0)))
  }

  /** The CSS and markup of the template, which hold no interpolation: the
      text before the title, between the title and the widget URL, between
      the widget URL and the directions URL, and after the directions link. */
  datatype Template = Template(
    head: string,
    beforeWidget: string,
    beforeDirections: string,
    footer: string)

  const TitleOpen := "<title>accommodation near "
  const TitleClose := "</title>"
  const WidgetUrl := "https://widgets.stay22.com/widget.html?"
  const WidgetTail := "&zoom=13&partnerId=parkrun\""
  const DirectionsUrl := "https://www.google.com/maps/dir/?api=1&destination="
  const DirectionsTail := "\" target=\"_blank\" rel=\"noopener noreferrer\">"

  /** What a template literal prints for the name. */
  function NameText(name: Option<string>): string {
    match name
    case None => "undefined"
    case Some(s) => s
  }

  /** The query of the hotels widget URL. */
  function WidgetQuery(latitude: Num, longitude: Num): string {
    "lat=" + latitude.shown + "&lng=" + longitude.shown
  }

  /** The template literal as a list of pieces: the constant fragments, each
      interpolation with the literal text that surrounds it, in page order. */
  function Pieces(t: Template, e: EventFields): seq<string> {
    [ t.head,
      TitleOpen + NameText(e.name) + TitleClose,
      t.beforeWidget + WidgetUrl,
      WidgetQuery(e.latitude, e.longitude) + WidgetTail,
      t.beforeDirections,
      DirectionsUrl + Uri.EncodeURIComponent(e.location) + DirectionsTail,
      t.footer ]
  }

  /** The concatenation of a list of pieces. */
  function Join(ps: seq<string>): string {
    if ps == [] then [] else ps[0] + Join(ps[1..])
  }

  lemma {:induction false} JoinSplit(ps: seq<string>, i: nat)
    requires i < |ps|
    ensures Join(ps) == Join(ps[..i]) + ps[i] + Join(ps[i + 1..])
  {
    if i > 0 {
      JoinSplit(ps[1..], i - 1);
      assert ps[..i][1..] == ps[1..][..i - 1];
      assert ps[1..][i..] == ps[i + 1..];
    }
  }

  /** `s` holds `sub` at some position. */
  predicate Contains(s: string, sub: string) {
    exists k | 0 <= k <= |s| :: sub <= s[k..]
  }

  lemma ContainsMiddle(a: string, sub: string, b: string)
    ensures Contains(a + sub + b, sub)
  {
    var s := a + sub + b;
    assert s[|a|..] == sub + b;
  }

  /** The page as the template literal builds it. */
  function RenderPage(t: Template, e: EventFields): string {
    Join(Pieces(t, e))
  }

  /** Every piece of the template appears in the page. */
  lemma PieceInPage(t: Template, e: EventFields, i: nat)
    requires i < |Pieces(t, e)|
    ensures Contains(RenderPage(t, e), Pieces(t, e)[i])
  {
    var ps := Pieces(t, e);
    JoinSplit(ps, i);
    ContainsMiddle(Join(ps[..i]), ps[i], Join(ps[i + 1..]));
  }

  /** The three interpolations appear in the page, each between the literal
      text that surrounds it in the template. */
  lemma RenderShowsFields(t: Template, e: EventFields)
    ensures Contains(RenderPage(t, e), TitleOpen + NameText(e.name) + TitleClose)
    ensures Contains(RenderPage(t, e), WidgetQuery(e.latitude, e.longitude) + WidgetTail)
    ensures Contains(RenderPage(t, e), DirectionsUrl + Uri.EncodeURIComponent(e.location) + DirectionsTail)
  {
    PieceInPage(t, e, 1);
    PieceInPage(t, e, 3);
    PieceInPage(t, e, 5);
  }

  /** `generateHtml(event)`. */
  function GenerateHtml(t: Template, f: Feature): (r: Result<string, Fault>)
    ensures r.Ok? <==> f.properties.Some? && f.geometry.Some?
    ensures f.properties.None? ==> r == Err(MissingProperties)
    ensures f.properties.Some? && f.geometry.None? ==> r == Err(MissingGeometry)
  {
    var e :- Extract(f);
    Ok(RenderPage(t, e))
  }

  // ---------------------------------------------------------------------------
  // Properties.

  /** The coordinates a present geometry yields: `[]` when absent. */
  function Coords(g: Geometry): seq<Num> {
    g.coordinates.GetOr([])
  }

  /** The fallbacks of the extraction: absent strings read as `''`, absent or
      falsy coordinates as `0`, and the pair is read as `[longitude, latitude]`. */
  lemma FieldFallbacks(f: Feature)
    requires f.properties.Some? && f.geometry.Some?
    ensures var e := Extract(f).value; var p := f.properties.value; var c := Coords(f.geometry.value);
      && (p.location.None? ==> e.location == "")
      && (p.longName.None? ==> e.longName == "")
      && (p.shortName.None? ==> e.shortName == "")
      && (p.location.Some? ==> e.location == p.location.value)
      && (f.geometry.value.coordinates.None? ==> e.latitude == Zero && e.longitude == Zero)
      && (|c| > 1 && !c[1].falsy ==> e.latitude == c[1])
      && (|c| > 0 && !c[0].falsy ==> e.longitude == c[0])
      && (|c| <= 1 || c[1].falsy ==> e.latitude == Zero)
      && (|c| == 0 || c[0].falsy ==> e.longitude == Zero)
  {
  }

  /** Swapping the first two coordinates swaps latitude and longitude. */
  lemma CoordinateOrder(p: Properties, a: Num, b: Num, rest: seq<Num>)
    ensures var e := Extract(Feature(Some(p), Some(Geometry(Some([a, b] + rest))))).value;
      var s := Extract(Feature(Some(p), Some(Geometry(Some([b, a] + rest))))).value;
      e.latitude == s.longitude && e.longitude == s.latitude
  {
  }

  /** `EventLongName` and `EventShortName` are read but never printed: two
      features that differ only in them render the same page. */
  lemma NamesIgnored(t: Template, f: Feature, longName: Option<string>, shortName: Option<string>)
    requires f.properties.Some?
    ensures var p := f.properties.value;
      GenerateHtml(t, f) == GenerateHtml(t, f.(properties := Some(p.(longName := longName, shortName := shortName))))
  {
  }

  /** The page shows the latitude and longitude read from the feature, in that
      order, and the encoded location in the directions link. */
  lemma PageShowsFields(t: Template, f: Feature)
    requires f.properties.Some? && f.geometry.Some?
    ensures var page := GenerateHtml(t, f).value;
      var c := Coords(f.geometry.value);
      && Contains(page, WidgetQuery(Slot(c, 1), Slot(c, 0)) + WidgetTail)
      && Contains(page, DirectionsUrl + Uri.EncodeURIComponent(OrEmpty(f.properties.value.location)) + DirectionsTail)
  {
    RenderShowsFields(t, Extract(f).value);
  }

  lemma CancelSuffix(a: string, b: string, s: string)
    requires a + s == b + s
    ensures a == b
  {
    assert |a| == |b|;
    assert a == (a + s)[..|a|];
    assert b == (b + s)[..|b|];
  }

  lemma CancelPrefix(p: string, a: string, b: string)
    requires p + a == p + b
    ensures a == b
  {
    assert a == (p + a)[|p|..];
    assert b == (p + b)[|p|..];
  }

  /** Two events that differ only in their location render different pages:
      the directions link identifies the location. */
  lemma CancelAround(x: string, a: string, b: string, y: string)
    requires x + a + y == x + b + y
    ensures a == b
  {
    assert x + a + y == x + (a + y);
    assert x + b + y == x + (b + y);
    CancelPrefix(x, a + y, b + y);
    CancelSuffix(a, b, y);
  }

  /** Two lists of pieces that agree everywhere but at `i` and join to the
      same text agree at `i` too. */
  lemma JoinDeterminesPiece(p: seq<string>, q: seq<string>, i: nat)
    requires |p| == |q| && i < |p|
    requires forall j | 0 <= j < |p| && j != i :: p[j] == q[j]
    requires Join(p) == Join(q)
    ensures p[i] == q[i]
  {
    JoinSplit(p, i);
    JoinSplit(q, i);
    assert p[..i] == q[..i];
    assert p[i + 1..] == q[i + 1..];
    CancelAround(Join(p[..i]), p[i], q[i], Join(p[i + 1..]));
  }

  lemma PageDeterminesLocation(t: Template, e: EventFields, location: string)
    requires RenderPage(t, e) == RenderPage(t, e.(location := location))
    ensures e.location == location
  {
    var p := Pieces(t, e);
    var q := Pieces(t, e.(location := location));
    JoinDeterminesPiece(p, q, 5);
    CancelAround(DirectionsUrl, Uri.EncodeURIComponent(e.location), Uri.EncodeURIComponent(location), DirectionsTail);
    Uri.EncodeInjective(e.location, location);
  }

  /** The encoded location cannot end the `href` attribute or open a tag: it
      holds no quote, angle bracket, ampersand or space. */
  lemma LocationStaysInAttribute(location: string)
    ensures var enc := Uri.EncodeURIComponent(location);
      forall i | 0 <= i < |enc| :: enc[i] !in {'"', '<', '>', '&', ' '}
  {
    Uri.EncodeAlphabet(location);
  }
}
