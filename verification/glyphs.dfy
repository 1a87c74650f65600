/**
 * The glyph labels drawn next to events.  A fixed table maps body and aspect
 * names to code points of the astrology font; a name the table lacks is drawn
 * as `?`.  A transit label is "p1 aspect p2"; a progression label marks both
 * bodies with the "progressed" glyph: "p1(P) aspect p2(P)".
 */
module Glyphs {
  import opened Wrappers
  import Aspects

  datatype Entry = Entry(name: string, glyph: char)

  /** The glyph table, in its declaration order. */
  const GlyphMap: seq<Entry> := [
    Entry("Sun", '\U{E50A}'), Entry("Moon", '\U{E50B}'), Entry("Mercury", '\U{E50C}'),
    Entry("Venus", '\U{E50D}'), Entry("Mars", '\U{E50E}'), Entry("Jupiter", '\U{E50F}'),
    Entry("Saturn", '\U{E510}'), Entry("Uranus", '\U{E511}'), Entry("Neptune", '\U{E512}'),
    Entry("Pluto", '\U{E513}'), Entry("Chiron", '\U{E515}'), Entry("Lilith", '\U{E51A}'),
    Entry("N. Node", '\U{E518}'),
    Entry("Conjunction", '\U{E520}'), Entry("Sextile", '\U{E523}'), Entry("Square", '\U{E524}'),
    Entry("Trine", '\U{E525}'), Entry("Opposition", '\U{E526}'),
    Entry("(P)", '\U{E530}')
  ]

  const Unknown: char := '?'

  /** A table usable as a dictionary in both directions: no name and no glyph twice. */
  predicate Bijective(es: seq<Entry>) {
    forall i, j :: 0 <= i < j < |es| ==> es[i].name != es[j].name && es[i].glyph != es[j].glyph
  }

  predicate Known(es: seq<Entry>, name: string) {
    exists i :: 0 <= i < |es| && es[i].name == name
  }

  /** `table.get(name, default)` */
  function Get(es: seq<Entry>, name: string, default: char): (g: char)
    ensures forall i :: 0 <= i < |es| && es[i].name == name && (forall j :: 0 <= j < i ==> es[j].name != name) ==> g == es[i].glyph
    ensures !Known(es, name) ==> g == default
  {
    if es == [] then default
    else if es[0].name == name then es[0].glyph
    else
      var g := Get(es[1..], name, default);
      assert forall i :: 1 <= i < |es| ==> es[1..][i - 1] == es[i];
      g
  }

  /** The name drawn by a glyph, if the table has one. */
  function NameOf(es: seq<Entry>, g: char): (r: Option<string>)
    ensures r.Some? ==> exists i :: 0 <= i < |es| && es[i].glyph == g && es[i].name == r.value
    ensures r.None? ==> forall i :: 0 <= i < |es| ==> es[i].glyph != g
  {
    if es == [] then None
    else if es[0].glyph == g then Some(es[0].name)
    else
      var r := NameOf(es[1..], g);
      assert forall i :: 1 <= i < |es| ==> es[1..][i - 1] == es[i];
      r
  }

  function GlyphOf(name: string): char {
    Get(GlyphMap, name, Unknown)
  }

  /** `GLYPH_MAP.get('(P)', 'P')` */
  function ProgressedGlyph(): char {
    Get(GlyphMap, "(P)", 'P')
  }

  /** The glyph table lists no name and no glyph twice, and neither `?` nor the blank is one of its glyphs. */
  lemma GlyphMapBijective()
    ensures Bijective(GlyphMap)
    ensures forall i :: 0 <= i < |GlyphMap| ==> GlyphMap[i].glyph != Unknown && GlyphMap[i].glyph != ' '
  {
    GlyphMapNames();
    GlyphMapGlyphs();
  }

  lemma GlyphMapNames()
    ensures forall i, j :: 0 <= i < j < |GlyphMap| ==> GlyphMap[i].name != GlyphMap[j].name
  {
  }

  lemma GlyphMapGlyphs()
    ensures forall i, j :: 0 <= i < j < |GlyphMap| ==> GlyphMap[i].glyph != GlyphMap[j].glyph
    ensures forall i :: 0 <= i < |GlyphMap| ==> '\U{E50A}' <= GlyphMap[i].glyph <= '\U{E530}'
  {
  }

  /** In a bijective table, looking a known name up and the glyph back gives the name again. */
  lemma {:induction false} GlyphRoundTrip(es: seq<Entry>, name: string, default: char)
    requires Bijective(es) && Known(es, name)
    ensures NameOf(es, Get(es, name, default)) == Some(name)
  {
    var i :| 0 <= i < |es| && es[i].name == name;
    assert Get(es, name, default) == es[i].glyph;
    var r := NameOf(es, es[i].glyph);
    var k :| 0 <= k < |es| && es[k].glyph == es[i].glyph && es[k].name == r.value;
    assert k == i;
  }

  /** A name the table lacks is drawn as `?`, which draws no name. */
  lemma UnknownName(name: string)
    ensures !Known(GlyphMap, name) <==> GlyphOf(name) == Unknown
    ensures NameOf(GlyphMap, Unknown) == None
  {
    GlyphMapBijective();
    if Known(GlyphMap, name) {
      var i :| 0 <= i < |GlyphMap| && GlyphMap[i].name == name;
      assert GlyphOf(name) == GlyphMap[i].glyph;
    }
  }

  /** In a table without repeated names, a listed name is drawn with its own glyph. */
  lemma GlyphAt(es: seq<Entry>, i: nat, default: char)
    requires Bijective(es) && i < |es|
    ensures Get(es, es[i].name, default) == es[i].glyph
  {
  }

  /** The progressed marker is the table's own `(P)` glyph; its fallback `P` is never used. */
  lemma ProgressedIsTableGlyph()
    ensures ProgressedGlyph() == '\U{E530}'
  {
    GlyphMapBijective();
    GlyphAt(GlyphMap, 18, 'P');
  }

  /** Two of the seven aspect kinds the scan reports have no glyph and are drawn as `?`. */
  lemma AspectGlyphs(k: Aspects.Kind)
    ensures GlyphOf(Aspects.KindName(k)) == Unknown <==> k == Aspects.SemiSextile || k == Aspects.Inconjunct
  {
    match k
    case Conjunction => ListedAspect(13, k);
    case SemiSextile => NotListed("Semi-Sextile");
    case Sextile => ListedAspect(14, k);
    case Square => ListedAspect(15, k);
    case Trine => ListedAspect(16, k);
    case Inconjunct => NotListed("Inconjunct");
    case Opposition => ListedAspect(17, k);
  }

  lemma ListedAspect(i: nat, k: Aspects.Kind)
    requires 13 <= i < 18 && GlyphMap[i].name == Aspects.KindName(k)
    ensures GlyphOf(Aspects.KindName(k)) != Unknown
  {
    GlyphMapBijective();
    GlyphAt(GlyphMap, i, Unknown);
  }

  /** No listed name has twelve characters, as "Semi-Sextile" does, or begins with an I, as "Inconjunct" does. */
  lemma NotListed(name: string)
    requires |name| == 12 || (|name| > 0 && name[0] == 'I')
    ensures GlyphOf(name) == Unknown
  {
    assert forall i :: 0 <= i < |GlyphMap| ==> |GlyphMap[i].name| != 12 && GlyphMap[i].name[0] != 'I';
  }

  // ---------------------------------------------------------------------------
  // Labels
  // ---------------------------------------------------------------------------

  /** The glyphs a label shows: the two bodies, the aspect, and whether it is a transit label. */
  datatype LabelParts = LabelParts(p1: char, aspect: char, p2: char, transit: bool)

  /** The label text for given glyphs, with the progressed marker `mark`. */
  function Render(x: LabelParts, mark: char): string {
    if x.transit then [x.p1, ' ', x.aspect, ' ', x.p2]
    else [x.p1, mark, ' ', x.aspect, ' ', x.p2, mark]
  }

  /**
   * `_get_glyph_label`: a transit label has five characters, a progression
   * label seven, and reading the label back gives the three glyphs and the kind.
   */
  function GlyphLabel(p1: string, aspect: string, p2: string, isTransit: bool): (text: string)
    ensures |text| == if isTransit then 5 else 7
    ensures Parse(text, ProgressedGlyph()) == Some(LabelParts(GlyphOf(p1), GlyphOf(aspect), GlyphOf(p2), isTransit))
  {
    var x := LabelParts(GlyphOf(p1), GlyphOf(aspect), GlyphOf(p2), isTransit);
    ParseRender(x, ProgressedGlyph(), "");
    Render(x, ProgressedGlyph())
  }

  /** Reads a label back into its glyphs: five characters for a transit, seven for a progression. */
  function Parse(text: string, mark: char): Option<LabelParts> {
    if |text| == 5 && text[1] == ' ' && text[3] == ' ' then
      Some(LabelParts(text[0], text[2], text[4], true))
    else if |text| == 7 && text[1] == mark && text[2] == ' ' && text[4] == ' ' && text[6] == mark then
      Some(LabelParts(text[0], text[3], text[5], false))
    else None
  }

  /** Rendering then parsing gives the glyphs back, and a label that parses is the rendering of what it parses to. */
  lemma ParseRender(x: LabelParts, mark: char, text: string)
    ensures Parse(Render(x, mark), mark) == Some(x)
    ensures Parse(text, mark).Some? ==> Render(Parse(text, mark).value, mark) == text
  {
  }

  /** Turns a label back into the names it was drawn from. */
  function Decode(text: string): Option<(string, string, string, bool)> {
    match Parse(text, ProgressedGlyph())
    case None => None
    case Some(x) =>
      match (NameOf(GlyphMap, x.p1), NameOf(GlyphMap, x.aspect), NameOf(GlyphMap, x.p2))
      case (Some(a), Some(b), Some(c)) => Some((a, b, c, x.transit))
      case _ => None
  }

  /** A label drawn from names the table knows decodes to exactly those names and the label's kind. */
  lemma LabelRoundTrip(p1: string, aspect: string, p2: string, isTransit: bool)
    requires Known(GlyphMap, p1) && Known(GlyphMap, aspect) && Known(GlyphMap, p2)
    ensures Decode(GlyphLabel(p1, aspect, p2, isTransit)) == Some((p1, aspect, p2, isTransit))
  {
    GlyphMapBijective();
    GlyphRoundTrip(GlyphMap, p1, Unknown);
    GlyphRoundTrip(GlyphMap, aspect, Unknown);
    GlyphRoundTrip(GlyphMap, p2, Unknown);
  }

  /** A label with an unknown name in it does not decode. */
  lemma UnknownLabel(p1: string, aspect: string, p2: string, isTransit: bool)
    requires !Known(GlyphMap, p1) || !Known(GlyphMap, aspect) || !Known(GlyphMap, p2)
    ensures Decode(GlyphLabel(p1, aspect, p2, isTransit)) == None
  {
    UnknownName(p1);
    UnknownName(aspect);
    UnknownName(p2);
  }
}
