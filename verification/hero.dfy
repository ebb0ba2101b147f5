/** The hero block (blocks/hero/hero.js): a callout, heading, body and
    call-to-action read from the four cells of one content row. */
module Hero {
  import opened Wrappers
  import opened Strings
  import opened Dom

  const Div: Selector := Tags({"DIV"})

  /** `row.querySelector('div:first-child')`: the first `div` in the row
      that is the first element child of its parent. */
  function FirstDivCell(row: Node): Option<Node> {
    First(FirstChildMatches(Kids(row), false, Div))
  }

  /** `isHeaderRow(row)`: the row's first `div:first-child` has text that,
      trimmed and lower-cased, starts with `hero`. */
  predicate IsHeaderRow(row: Node) {
    match FirstDivCell(row)
    case None => false
    case Some(cell) => StartsWith(Lower(Trim(TextContent(cell))), "hero")
  }

  /** The row the hero is read from: the second row when there is one and
      the first is a header row, else the first row. */
  function ContentRow(rows: seq<Node>): (r: Node)
    requires |rows| > 0
    ensures r == rows[0] || (|rows| > 1 && r == rows[1] && IsHeaderRow(rows[0]))
  {
    if |rows| > 1 && IsHeaderRow(rows[0]) then rows[1] else rows[0]
  }

  /** A header row is skipped exactly when another row follows it. */
  lemma HeaderRowSkipped(rows: seq<Node>)
    requires |rows| > 0
    ensures |rows| > 1 && IsHeaderRow(rows[0]) ==> ContentRow(rows) == rows[1]
    ensures |rows| == 1 || !IsHeaderRow(rows[0]) ==> ContentRow(rows) == rows[0]
  {
  }

  /** A header row's first cell really does start with `hero` once
      trimmed and lower-cased, so it has at least four characters. */
  lemma HeaderRowText(row: Node)
    requires IsHeaderRow(row)
    ensures FirstDivCell(row).Some?
    ensures var t := Trim(TextContent(FirstDivCell(row).value));
      |t| >= 4 && Lower(t)[..4] == "hero"
  {
  }

  /** `cells[i]`, absent past the end. */
  function Cell(cells: seq<Node>, i: nat): Option<Node> {
    if i < |cells| then Some(cells[i]) else None
  }

  // ---------------------------------------------------------------------
  // the cell parsers

  function ParseCallout(cell: Option<Node>): (r: string)
    ensures r == [] || (!IsSpace(r[0]) && !IsSpace(r[|r| - 1]))
    ensures cell.None? ==> r == ""
    ensures cell.Some? ==> r == Trim(TextContent(cell.value))
  {
    match cell
    case None => ""
    case Some(c) => Trim(TextContent(c))
  }

  function ParseHeading(cell: Option<Node>): (r: string)
    ensures r == [] || (!IsSpace(r[0]) && !IsSpace(r[|r| - 1]))
    ensures cell.None? ==> r == ""
  {
    match cell
    case None => ""
    case Some(c) =>
      match Query(Kids(c), Headings)
      case Some(h) => Trim(TextContent(h))
      case None => Trim(TextContent(c))
  }

  /** The heading is the trimmed text of the cell's first heading element
      in document order, or of the whole cell when it has none. */
  lemma ParseHeadingSource(c: Node)
    ensures QueryAll(Kids(c), Headings) != [] ==>
      ParseHeading(Some(c)) == Trim(TextContent(QueryAll(Kids(c), Headings)[0]))
    ensures QueryAll(Kids(c), Headings) == [] ==> ParseHeading(Some(c)) == Trim(TextContent(c))
  {
    QueryIsFirstOfQueryAll(Kids(c), Headings);
  }

  function ParseBody(cell: Option<Node>): (r: string)
    ensures r == [] || (!IsSpace(r[0]) && !IsSpace(r[|r| - 1]))
    ensures cell.None? ==> r == ""
    ensures cell.Some? ==> r == Trim(InnerHtml(Kids(cell.value)))
  {
    match cell
    case None => ""
    case Some(c) => Trim(InnerHtml(Kids(c)))
  }

  /** The call to action: a link's `href` and text. */
  datatype Cta = Cta(href: string, text: string)

  const DefaultCtaText: string := "Call to action"

  function ParseLink(cell: Option<Node>): (r: Option<Cta>)
    ensures cell.None? ==> r.None?
  {
    match cell
    case None => None
    case Some(c) =>
      match Query(Kids(c), Anchors)
      case Some(a) => Some(Cta(a.attrs.href.GetOr(""), Trim(TextContent(a))))
      case None =>
        var t := Trim(TextContent(c));
        if t != "" then Some(Cta(t, DefaultCtaText)) else None
  }

  /** The link comes from the cell's first anchor when it has one;
      otherwise the cell's non-blank text is the address and the button
      says `Call to action`; otherwise there is no link. */
  lemma ParseLinkCases(c: Node)
    ensures QueryAll(Kids(c), Anchors) != [] ==>
      var a := QueryAll(Kids(c), Anchors)[0];
      a.Element? && ParseLink(Some(c)) == Some(Cta(a.attrs.href.GetOr(""), Trim(TextContent(a))))
    ensures QueryAll(Kids(c), Anchors) == [] ==>
      (ParseLink(Some(c)).None? <==> AllSpace(TextContent(c)))
    ensures QueryAll(Kids(c), Anchors) == [] && ParseLink(Some(c)).Some? ==>
      ParseLink(Some(c)).value == Cta(Trim(TextContent(c)), DefaultCtaText)
      && ParseLink(Some(c)).value.href != ""
  {
    QueryIsFirstOfQueryAll(Kids(c), Anchors);
  }

  // ---------------------------------------------------------------------
  // output

  datatype HeroContent = HeroContent(callout: string, heading: string, body: string, link: Option<Cta>)

  /** What goes in the callout box: the `h1` (with the callout span inside
      it when there is a callout), the paragraph, the button. */
  datatype HeroPart = Heading1(callout: Option<string>, heading: string) | Paragraph(html: string) | Button(cta: Cta)

  function Rank(p: HeroPart): nat {
    match p
    case Heading1(_, _) => 0
    case Paragraph(_) => 1
    case Button(_) => 2
  }

  function Output(h: HeroContent): (ps: seq<HeroPart>)
    ensures forall i, j :: 0 <= i < j < |ps| ==> Rank(ps[i]) < Rank(ps[j])
    ensures forall p :: p in ps <==>
      || (h.heading != "" && p == Heading1(if h.callout != "" then Some(h.callout) else None, h.heading))
      || (h.body != "" && p == Paragraph(h.body))
      || (h.link.Some? && p == Button(h.link.value))
  {
    (if h.heading != "" then [Heading1(if h.callout != "" then Some(h.callout) else None, h.heading)] else [])
      + (if h.body != "" then [Paragraph(h.body)] else [])
      + (if h.link.Some? then [Button(h.link.value)] else [])
  }

  /** The callout only ever appears inside the heading: with no heading it
      is dropped. */
  lemma CalloutOnlyWithHeading(h: HeroContent)
    ensures h.heading == "" ==> forall p :: p in Output(h) ==> !p.Heading1?
    ensures h.heading != "" && h.callout != "" ==> Output(h)[0] == Heading1(Some(h.callout), h.heading)
  {
  }

  /** The four cells of the content row, read in order. */
  function ContentOf(row: Node): HeroContent {
    var cells := ElementChildren(Kids(row));
    HeroContent(ParseCallout(Cell(cells, 0)), ParseHeading(Cell(cells, 1)), ParseBody(Cell(cells, 2)), ParseLink(Cell(cells, 3)))
  }

  /** `decorate(block)` on a block whose children are `blockChildren`. */
  function Decorate(blockChildren: seq<Node>): (o: Outcome<seq<HeroPart>>)
    ensures !o.Threw?
    ensures o.Unchanged? <==> ElementChildren(blockChildren) == []
    ensures o.Rendered? ==> o.value == Output(ContentOf(ContentRow(ElementChildren(blockChildren))))
  {
    var rows := ElementChildren(blockChildren);
    if rows == [] then Unchanged else Rendered(Output(ContentOf(ContentRow(rows))))
  }

  /** A row with fewer than four cells yields an empty value for each
      missing cell. */
  lemma MissingCells(row: Node)
    ensures var n := |ElementChildren(Kids(row))|;
      && (n < 1 ==> ContentOf(row).callout == "")
      && (n < 2 ==> ContentOf(row).heading == "")
      && (n < 3 ==> ContentOf(row).body == "")
      && (n < 4 ==> ContentOf(row).link.None?)
  {
  }
}
