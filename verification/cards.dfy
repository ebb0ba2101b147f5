/** The cards block (blocks/cards/cards.js): each row of the block becomes
    one USWDS card, read from up to three cells. */
module Cards {
  import opened Wrappers
  import opened Strings
  import opened Dom

  /** The card's button: the link's `href` and trimmed text. */
  datatype Action = Action(href: string, text: string)

  /** What `createUSWDSCard` collects from a row before building markup.
      An empty `image` stands for a missing or empty `src`. */
  datatype Card = Card(heading: string, body: string, image: string, action: Option<Action>)

  const Br: string := "<br>"

  // ---------------------------------------------------------------------
  // first cell

  /** The heading and body read from the first cell. */
  datatype Lead = Lead(heading: string, body: string)

  function LeadOf(cell: Node): (l: Lead)
    ensures l.heading == [] || (!IsSpace(l.heading[0]) && !IsSpace(l.heading[|l.heading| - 1]))
    ensures l.body == [] || (!IsSpace(l.body[0]) && !IsSpace(l.body[|l.body| - 1]))
  {
    var raw := RawLead(cell);
    Lead(Trim(raw.heading), Trim(raw.body))
  }

  /** The heading and body as read from the cell, before trimming: from a
      heading element, else from the lines between `<br>`s, else the
      cell's text with no body. */
  function RawLead(cell: Node): Lead {
    match Query(Kids(cell), Headings)
    case Some(h) => Lead(TextContent(h), InnerHtml(RemoveFirst(Kids(cell), Headings)))
    case None =>
      var lines := Split(InnerHtml(Kids(cell)), Br);
      if |lines| > 1 then Lead(StripTags(lines[0]), Join(lines[1..], " "))
      else Lead(TextOf(Kids(cell)), "")
  }

  /** Trimming keeps a string free of markup: it is a slice. */
  lemma TrimKeepsNoMarkup(s: string)
    requires !HasMarkup(s)
    ensures !HasMarkup(Trim(s))
  {
    TrimIsSlice(s);
    var a := SpaceRunEnd(s, 0);
    var t := Trim(s);
    forall i, j | 0 <= i < j < |t| && t[i] == '<' ensures t[j] != '>' {
      assert t[i] == s[a + i] && t[j] == s[a + j];
    }
  }

  /** With a heading element in the first cell, the card's heading is that
      element's trimmed text, and the body is the cell's markup with that
      one element (and its subtree) cut out. */
  lemma LeadFromHeading(cell: Node)
    requires Query(Kids(cell), Headings).Some?
    ensures var all := QueryAll(Kids(cell), Headings);
      var rest := RemoveFirst(Kids(cell), Headings);
      && |all| > 0
      && LeadOf(cell).heading == Trim(TextContent(all[0]))
      && LeadOf(cell).body == Trim(InnerHtml(rest))
      && RemovesFirstMatch(Kids(cell), Headings)
  {
    QueryIsFirstOfQueryAll(Kids(cell), Headings);
    RemoveFirstOutline(Kids(cell), Headings);
  }

  /** Without a heading element but with a `<br>` in the markup, the
      heading is the markup before the first `<br>` with its tags stripped
      and trimmed, so it holds no `<` followed by a `>`; the body is every
      later segment, the `<br>`s between them turned into spaces. */
  lemma LeadFromLines(cell: Node)
    requires Query(Kids(cell), Headings).None?
    requires Contains(InnerHtml(Kids(cell)), Br)
    ensures var html := InnerHtml(Kids(cell));
      var lines := Split(html, Br);
      && |lines| > 1
      && html == lines[0] + Br + Join(lines[1..], Br)
      && !Contains(lines[0], Br)
      && LeadOf(cell).heading == Trim(StripTags(lines[0]))
      && !HasMarkup(LeadOf(cell).heading)
      && LeadOf(cell).body == Trim(Join(lines[1..], " "))
  {
    var html := InnerHtml(Kids(cell));
    var lines := Split(html, Br);
    SplitSingle(html, Br);
    SplitJoin(html, Br);
    SplitPiecesAreFree(html, Br);
    assert Join(lines, Br) == lines[0] + Br + Join(lines[1..], Br);
    TrimKeepsNoMarkup(StripTags(lines[0]));
  }

  /** Without a heading element and without a `<br>`, the heading is the
      cell's trimmed text and the body is empty. */
  lemma LeadFromText(cell: Node)
    requires Query(Kids(cell), Headings).None?
    requires !Contains(InnerHtml(Kids(cell)), Br)
    ensures LeadOf(cell) == Lead(Trim(TextOf(Kids(cell))), "")
  {
    SplitSingle(InnerHtml(Kids(cell)), Br);
  }

  // ---------------------------------------------------------------------
  // second and third cells

  function SrcOf(img: Node): string {
    match img
    case Text(_) => ""
    case Element(a, _) => a.src.GetOr("")
  }

  function ActionOf(link: Node): Action {
    match link
    case Text(_) => Action("", Trim(TextContent(link)))
    case Element(a, _) => Action(a.href.GetOr(""), Trim(TextContent(link)))
  }

  /** The second cell: an image, else a link, else body markup when the
      first cell left the body empty. */
  function ApplySecond(cell: Node, c: Card): Card {
    match Query(Kids(cell), Images)
    case Some(img) => c.(image := SrcOf(img))
    case None =>
      match Query(Kids(cell), Anchors)
      case Some(link) => c.(action := Some(ActionOf(link)))
      case None => if c.body == "" then c.(body := Trim(InnerHtml(Kids(cell)))) else c
  }

  /** The second cell supplies exactly one thing, chosen by precedence:
      an image and nothing else when it has one; otherwise the action when
      it has a link; otherwise the body, and only when the body is still
      empty. The heading is never touched. */
  lemma SecondCellPrecedence(cell: Node, c: Card)
    ensures ApplySecond(cell, c).heading == c.heading
    ensures Query(Kids(cell), Images).Some? ==>
      ApplySecond(cell, c) == c.(image := Query(Kids(cell), Images).value.attrs.src.GetOr(""))
    ensures Query(Kids(cell), Images).None? && Query(Kids(cell), Anchors).Some? ==>
      && ApplySecond(cell, c).action.Some?
      && ApplySecond(cell, c) == c.(action := ApplySecond(cell, c).action)
      && ApplySecond(cell, c).action.value.text == Trim(TextContent(Query(Kids(cell), Anchors).value))
    ensures Query(Kids(cell), Images).None? && Query(Kids(cell), Anchors).None? ==>
      ApplySecond(cell, c) == c.(body := if c.body == "" then Trim(InnerHtml(Kids(cell))) else c.body)
    ensures ApplySecond(cell, c).body != c.body ==> c.body == "" && Query(Kids(cell), Images).None?
  {
  }

  /** The third cell: a link, used only when no action was found yet. */
  function ApplyThird(cell: Node, c: Card): (r: Card)
    ensures c.action.Some? ==> r == c
    ensures r == c.(action := r.action)
    ensures r.action.None? <==> c.action.None? && Query(Kids(cell), Anchors).None?
  {
    if c.action.Some? then c
    else
      match Query(Kids(cell), Anchors)
      case Some(link) => c.(action := Some(ActionOf(link)))
      case None => c
  }

  /** `createUSWDSCard(row)`: the cells are the row's element children. */
  function CardOf(row: Node): Card {
    var cells := ElementChildren(Kids(row));
    var lead := if |cells| > 0 then LeadOf(cells[0]) else Lead("", "");
    var c := Card(lead.heading, lead.body, "", None);
    var c := if |cells| > 1 then ApplySecond(cells[1], c) else c;
    if |cells| > 2 then ApplyThird(cells[2], c) else c
  }

  /** The action comes from the second cell's link when it has one and no
      image, else from the third cell's first link; a card whose second
      cell supplied the action ignores the third. */
  lemma ActionSource(row: Node)
    ensures var cells := ElementChildren(Kids(row));
      && (|cells| > 1 && Query(Kids(cells[1]), Images).None? && Query(Kids(cells[1]), Anchors).Some? ==>
            CardOf(row).action == Some(ActionOf(Query(Kids(cells[1]), Anchors).value)))
      && (CardOf(row).action.Some? && (|cells| <= 1 || Query(Kids(cells[1]), Images).Some? || Query(Kids(cells[1]), Anchors).None?) ==>
            |cells| > 2 && CardOf(row).action == Some(ActionOf(Query(Kids(cells[2]), Anchors).value)))
      && (|cells| <= 1 ==> CardOf(row).action.None? && CardOf(row).image == "")
  {
  }

  // ---------------------------------------------------------------------
  // card markup

  /** The four fragments a card may hold. `Media`'s second field is the
      picture's alt text. */
  datatype Part = Header(heading: string) | Media(src: string, alt: string) | Body(html: string) | Footer(action: Action)

  function Rank(p: Part): nat {
    match p
    case Header(_) => 0
    case Media(_, _) => 1
    case Body(_) => 2
    case Footer(_) => 3
  }

  /** The picture's alt text: the heading, or `Card image` without one. */
  function AltText(heading: string): string {
    if heading != "" then heading else "Card image"
  }

  /** The card's fragments, each present only when its field is not empty. */
  function Parts(c: Card): (ps: seq<Part>)
    ensures forall i, j :: 0 <= i < j < |ps| ==> Rank(ps[i]) < Rank(ps[j])
    ensures forall p :: p in ps <==>
      || (c.heading != "" && p == Header(c.heading))
      || (c.image != "" && p == Media(c.image, AltText(c.heading)))
      || (c.body != "" && p == Body(c.body))
      || (c.action.Some? && p == Footer(c.action.value))
  {
    (if c.heading != "" then [Header(c.heading)] else [])
      + (if c.image != "" then [Media(c.image, AltText(c.heading))] else [])
      + (if c.body != "" then [Body(c.body)] else [])
      + (if c.action.Some? then [Footer(c.action.value)] else [])
  }

  /** The picture's alt text is never empty. */
  lemma AltTextNonEmpty(heading: string)
    ensures AltText(heading) != ""
    ensures heading != "" ==> AltText(heading) == heading
  {
  }

  /** `decorate(block)`: one card per element child of the block, in
      order; a block without rows becomes an empty card group. */
  function Decorate(blockChildren: seq<Node>): (cards: seq<seq<Part>>)
    ensures |cards| == |ElementChildren(blockChildren)|
    ensures forall i :: 0 <= i < |cards| ==> cards[i] == Parts(CardOf(ElementChildren(blockChildren)[i]))
  {
    var rows := ElementChildren(blockChildren);
    seq(|rows|, i requires 0 <= i < |rows| => Parts(CardOf(rows[i])))
  }
}
