/** The footer block (blocks/footer/footer.js): the decisions it takes when
    it turns the keyed sections of the footer fragment into the USWDS big
    footer. The output is the footer's content, not its static markup. */
module Footer {
  import opened Wrappers
  import opened Strings
  import opened Dom
  import opened Sections

  // ---------------------------------------------------------------------
  // links

  /** A link the footer emits: its `href` and its text. */
  datatype Link = Link(href: string, text: string)

  /** The `href` of an anchor, `""` when it has none. */
  function HrefOf(a: Node): string {
    if a.Element? then a.attrs.href.GetOr("") else ""
  }

  function LinkOf(a: Node): Link {
    Link(HrefOf(a), TextContent(a))
  }

  function Links(anchors: seq<Node>): (r: seq<Link>)
    ensures |r| == |anchors|
    ensures forall i :: 0 <= i < |r| ==> r[i] == LinkOf(anchors[i])
  {
    seq(|anchors|, i requires 0 <= i < |anchors| => LinkOf(anchors[i]))
  }

  /** `el.querySelectorAll('a')` for each element of a section, one after
      the other. */
  function AnchorsIn(content: seq<Node>): (r: seq<Node>)
    ensures forall i :: 0 <= i < |r| ==> IsTag(r[i], "A")
  {
    if content == [] then [] else QueryAll(Kids(content[0]), Anchors) + AnchorsIn(content[1..])
  }

  lemma {:induction false} AnchorsInConcat(a: seq<Node>, b: seq<Node>)
    ensures AnchorsIn(a + b) == AnchorsIn(a) + AnchorsIn(b)
  {
    if a == [] {
      assert a + b == b;
    } else {
      assert (a + b)[0] == a[0] && (a + b)[1..] == a[1..] + b;
      AnchorsInConcat(a[1..], b);
    }
  }

  // ---------------------------------------------------------------------
  // makeLinksRelative

  /** Whether the footer rewrites this element's `href`: an anchor whose
      non-empty `href` contains `.aem.page`. */
  predicate Rewritten(a: Attrs) {
    a.tag == "A" && a.href.Some? && Contains(a.href.value, ".aem.page")
  }

  /** The rewrite of one element. `urlPath` stands for
      `new URL(href).pathname`; None means the constructor throws. */
  function Relativise(urlPath: string -> Option<string>): Attrs -> Attrs {
    a => if Rewritten(a) && urlPath(a.href.value).Some? then a.(href := urlPath(a.href.value)) else a
  }

  /** Whether some rewritten `href` makes `new URL` throw. */
  predicate Fails(ns: seq<Node>, urlPath: string -> Option<string>) {
    exists i :: 0 <= i < |Descendants(ns)| && Descendants(ns)[i].Element?
      && Rewritten(Descendants(ns)[i].attrs) && urlPath(Descendants(ns)[i].attrs.href.value).None?
  }

  /** `makeLinksRelative(fragment)`: None when it throws. */
  function MakeLinksRelative(ns: seq<Node>, urlPath: string -> Option<string>): (r: Option<seq<Node>>)
    ensures r.None? <==> Fails(ns, urlPath)
  {
    if Fails(ns, urlPath) then None else Some(MapAttrs(ns, Relativise(urlPath)))
  }

  /** Only the `href` of rewritten anchors changes: every other element,
      every text node and the shape of the tree stay as they were. */
  lemma RelativiseOnlyTouchesAemLinks(ns: seq<Node>, urlPath: string -> Option<string>)
    requires MakeLinksRelative(ns, urlPath).Some?
    ensures Outline(MakeLinksRelative(ns, urlPath).value) == Relabel(Outline(ns), Relativise(urlPath))
    ensures TextOf(MakeLinksRelative(ns, urlPath).value) == TextOf(ns)
    ensures forall a: Attrs :: !Rewritten(a) ==> Relativise(urlPath)(a) == a
    ensures forall a: Attrs :: Relativise(urlPath)(a) == a.(href := Relativise(urlPath)(a).href)
  {
    MapAttrsOutline(ns, Relativise(urlPath));
    MapAttrsText(ns, Relativise(urlPath));
  }

  // ---------------------------------------------------------------------
  // navigation columns

  datatype Column = Column(heading: string, links: seq<Link>)

  /** `createFooterColumn(heading, content)` */
  function FooterColumn(heading: string, content: seq<Node>): (c: Column)
    ensures c.heading == heading && c.links == Links(AnchorsIn(content))
  {
    Column(heading, Links(AnchorsIn(content)))
  }

  const ColumnKeys: seq<string> := ["about-mhs", "services", "resources"]
  const ColumnHeadings: seq<string> := ["About MHS", "Services", "Resources"]

  /** The positions, from `i` on, of the fixed keys that `sections` has:
      the three `if (sections[key])` tests in order. A key counts even when
      its section is empty, since an empty array is truthy. */
  function PresentFrom(sections: map<string, seq<Node>>, i: nat): (ks: seq<nat>)
    requires i <= 3
    ensures forall j :: 0 <= j < |ks| ==> i <= ks[j] < 3 && ColumnKeys[ks[j]] in sections
    ensures forall j, j' :: 0 <= j < j' < |ks| ==> ks[j] < ks[j']
    decreases 3 - i
  {
    if i == 3 then []
    else (if ColumnKeys[i] in sections then [i] else []) + PresentFrom(sections, i + 1)
  }

  /** No present key is skipped. */
  lemma {:induction false} PresentFromComplete(sections: map<string, seq<Node>>, i: nat, k: nat)
    requires i <= k < 3 && ColumnKeys[k] in sections
    ensures k in PresentFrom(sections, i)
    decreases 3 - i
  {
    if k > i {
      PresentFromComplete(sections, i + 1, k);
    }
  }

  /** The navigation columns, one per present key, in key order. */
  function Columns(sections: map<string, seq<Node>>): (cs: seq<Column>)
    ensures |cs| == |PresentFrom(sections, 0)|
  {
    var ks := PresentFrom(sections, 0);
    seq(|ks|, j requires 0 <= j < |ks| => FooterColumn(ColumnHeadings[ks[j]], sections[ColumnKeys[ks[j]]]))
  }

  /** Which of the fixed headings a heading is. */
  function Rank(heading: string): nat {
    if heading == "About MHS" then 0 else if heading == "Services" then 1 else 2
  }

  lemma RankOfHeading(k: nat)
    requires k < 3
    ensures Rank(ColumnHeadings[k]) == k
  {
  }

  /** Each column carries one of the fixed headings, with the links of
      that heading's section. */
  lemma ColumnsAreKnown(sections: map<string, seq<Node>>)
    ensures var cs := Columns(sections);
      forall j :: 0 <= j < |cs| ==>
        && Rank(cs[j].heading) < 3
        && cs[j].heading == ColumnHeadings[Rank(cs[j].heading)]
        && ColumnKeys[Rank(cs[j].heading)] in sections
        && cs[j].links == Links(AnchorsIn(sections[ColumnKeys[Rank(cs[j].heading)]]))
  {
    var ks := PresentFrom(sections, 0);
    forall j | 0 <= j < |ks| ensures Rank(ColumnHeadings[ks[j]]) == ks[j] {
      RankOfHeading(ks[j]);
    }
  }

  /** The columns come in the fixed order About MHS, Services, Resources. */
  lemma ColumnsInFixedOrder(sections: map<string, seq<Node>>)
    ensures var cs := Columns(sections);
      forall j, j' :: 0 <= j < j' < |cs| ==> Rank(cs[j].heading) < Rank(cs[j'].heading)
  {
    var ks := PresentFrom(sections, 0);
    forall j | 0 <= j < |ks| ensures Rank(ColumnHeadings[ks[j]]) == ks[j] {
      RankOfHeading(ks[j]);
    }
  }

  /** A column is there exactly when its key is, even when that key's
      section is empty. */
  lemma ColumnPresentIffKey(sections: map<string, seq<Node>>, k: nat)
    requires k < 3
    ensures ColumnKeys[k] in sections <==>
      exists j :: 0 <= j < |Columns(sections)| && Columns(sections)[j].heading == ColumnHeadings[k]
  {
    var ks := PresentFrom(sections, 0);
    var cs := Columns(sections);
    if ColumnKeys[k] in sections {
      PresentFromComplete(sections, 0, k);
      var j :| 0 <= j < |ks| && ks[j] == k;
      assert cs[j].heading == ColumnHeadings[k];
    }
    if exists j :: 0 <= j < |cs| && cs[j].heading == ColumnHeadings[k] {
      var j :| 0 <= j < |cs| && cs[j].heading == ColumnHeadings[k];
      RankOfHeading(k);
      RankOfHeading(ks[j]);
      assert ks[j] == k;
    }
  }

  // ---------------------------------------------------------------------
  // social links

  const Platforms: seq<string> := ["facebook", "twitter", "youtube", "instagram", "linkedin"]

  predicate Mentions(linkText: string, href: string, platform: string) {
    Contains(linkText, platform) || Contains(href, platform)
  }

  /** The `Object.entries(socialIcons)` walk from entry `i` on, starting
      from `icon`: every entry that matches overwrites the choice. */
  function IconWalk(linkText: string, href: string, i: nat, icon: string): string
    requires i <= |Platforms|
    decreases |Platforms| - i
  {
    if i == |Platforms| then icon
    else IconWalk(linkText, href, i + 1, if Mentions(linkText, href, Platforms[i]) then Platforms[i] else icon)
  }

  /** The icon name for a social link. */
  function IconName(linkText: string, href: string): string {
    IconWalk(linkText, href, 0, "link")
  }

  /** The last platform at or after `i` that the link mentions. */
  function LastMention(linkText: string, href: string, i: nat): (r: Option<nat>)
    requires i <= |Platforms|
    ensures r.Some? ==> i <= r.value < |Platforms| && Mentions(linkText, href, Platforms[r.value])
    ensures r.Some? ==> forall j :: r.value < j < |Platforms| ==> !Mentions(linkText, href, Platforms[j])
    ensures r.None? ==> forall j :: i <= j < |Platforms| ==> !Mentions(linkText, href, Platforms[j])
    decreases |Platforms| - i
  {
    if i == |Platforms| then None
    else match LastMention(linkText, href, i + 1)
      case Some(j) => Some(j)
      case None => if Mentions(linkText, href, Platforms[i]) then Some(i) else None
  }

  /** Walking forwards and overwriting picks the last mention. */
  lemma {:induction false} IconWalkPicksLastMention(linkText: string, href: string, i: nat, icon: string)
    requires i <= |Platforms|
    ensures IconWalk(linkText, href, i, icon)
      == match LastMention(linkText, href, i) case None => icon case Some(j) => Platforms[j]
    decreases |Platforms| - i
  {
    if i < |Platforms| {
      var next := if Mentions(linkText, href, Platforms[i]) then Platforms[i] else icon;
      IconWalkPicksLastMention(linkText, href, i + 1, next);
    }
  }

  /** The icon is `link` exactly when no platform is mentioned, and
      otherwise the platform mentioned last in the list. */
  lemma IconIsLastMentionedPlatform(linkText: string, href: string)
    ensures IconName(linkText, href) == "link" || IconName(linkText, href) in Platforms
    ensures IconName(linkText, href) == "link" <==>
      forall j :: 0 <= j < |Platforms| ==> !Mentions(linkText, href, Platforms[j])
    ensures forall j :: 0 <= j < |Platforms| && Mentions(linkText, href, Platforms[j])
                        && (forall k :: j < k < |Platforms| ==> !Mentions(linkText, href, Platforms[k]))
                        ==> IconName(linkText, href) == Platforms[j]
  {
    IconWalkPicksLastMention(linkText, href, 0, "link");
    var m := LastMention(linkText, href, 0);
    if m.Some? {
      assert Platforms[m.value] != "link";
    }
  }

  /** One social link: `href`, the `aria-label`/`alt` text and the icon. */
  datatype SocialLink = SocialLink(href: string, ariaLabel: string, icon: string)

  function SocialLinkOf(a: Node): SocialLink {
    var linkText := Trim(Lower(TextContent(a)));
    SocialLink(HrefOf(a), TextContent(a), IconName(linkText, HrefOf(a)))
  }

  /** The text of a section element outside its links, trimmed. */
  function Description(el: Node): string {
    Trim(TextOutside(Kids(el), {"A"}))
  }

  /** The non-empty descriptions, one per element, in order. */
  function Descriptions(content: seq<Node>): (ds: seq<string>)
    ensures forall i :: 0 <= i < |ds| ==> ds[i] != []
    ensures |ds| <= |content|
    ensures |content| == 1 ==> ds == if Description(content[0]) == [] then [] else [Description(content[0])]
  {
    if content == [] then []
    else (if Description(content[0]) == [] then [] else [Description(content[0])]) + Descriptions(content[1..])
  }

  /** The descriptions of a section are those of each part, one after the
      other; with the one-element case this fixes them and their order. */
  lemma {:induction false} DescriptionsConcat(a: seq<Node>, b: seq<Node>)
    ensures Descriptions(a + b) == Descriptions(a) + Descriptions(b)
  {
    if a == [] {
      assert a + b == b;
    } else {
      DescriptionsConcat(a[1..], b);
      DescriptionsConcatStep(a, b);
    }
  }

  /** One element moved from the front of the first part. */
  lemma DescriptionsConcatStep(a: seq<Node>, b: seq<Node>)
    requires a != []
    requires Descriptions(a[1..] + b) == Descriptions(a[1..]) + Descriptions(b)
    ensures Descriptions(a + b) == Descriptions(a) + Descriptions(b)
  {
    JoinSplit(a, b);
    DescriptionsUnfold(a + b);
    DescriptionsUnfold(a);
    JoinRegroup(Descriptions([a[0]]), Descriptions(a[1..]), Descriptions(b));
  }

  // The two facts about a join that the step needs, proved away from
  // `Descriptions` so that its unfolding does not get in the way.
  lemma JoinSplit(a: seq<Node>, b: seq<Node>)
    requires a != []
    ensures (a + b)[0] == a[0] && (a + b)[1..] == a[1..] + b
  {
  }

  lemma JoinRegroup(h: seq<string>, m: seq<string>, z: seq<string>)
    ensures h + (m + z) == (h + m) + z
  {
  }

  /** The first element's description comes first. */
  lemma DescriptionsUnfold(s: seq<Node>)
    requires s != []
    ensures Descriptions(s) == Descriptions([s[0]]) + Descriptions(s[1..])
  {
    assert [s[0]][1..] == [];
  }

  /** Every element's non-empty description is kept, and nothing else. */
  lemma {:induction false} DescriptionsKept(content: seq<Node>)
    ensures forall t :: t in Descriptions(content) <==>
      t != [] && exists i :: 0 <= i < |content| && Description(content[i]) == t
  {
    if content != [] {
      DescriptionsKept(content[1..]);
      DescriptionsUnfold(content);
      assert Descriptions([content[0]])
        == if Description(content[0]) == [] then [] else [Description(content[0])];
      forall t | t != [] && (exists i :: 0 <= i < |content| && Description(content[i]) == t)
        ensures t in Descriptions(content)
      {
        var i :| 0 <= i < |content| && Description(content[i]) == t;
        if i > 0 {
          assert Description(content[1..][i - 1]) == t;
        }
      }
      forall t | t in Descriptions(content[1..])
        ensures exists i :: 0 <= i < |content| && Description(content[i]) == t
      {
        var i :| 0 <= i < |content[1..]| && Description(content[1..][i]) == t;
        assert Description(content[i + 1]) == t;
      }
    }
  }

  datatype Social = Social(descriptions: seq<string>, links: seq<SocialLink>)

  /** `createSocialLinks(content)` */
  function SocialLinks(content: seq<Node>): (s: Social)
    ensures s.descriptions == Descriptions(content)
    ensures |s.links| == |AnchorsIn(content)|
    ensures forall i :: 0 <= i < |s.links| ==>
      var a := AnchorsIn(content)[i];
      && s.links[i].href == HrefOf(a)
      && s.links[i].ariaLabel == TextContent(a)
      && s.links[i].icon == IconName(Trim(Lower(TextContent(a))), HrefOf(a))
  {
    var anchors := AnchorsIn(content);
    Social(Descriptions(content), seq(|anchors|, i requires 0 <= i < |anchors| => SocialLinkOf(anchors[i])))
  }

  /** A social link's icon is `link` exactly when neither its lower-cased,
      trimmed text nor its `href` names a platform, and otherwise the
      platform named last in the list. */
  lemma SocialLinkIcon(content: seq<Node>, i: nat)
    requires i < |AnchorsIn(content)|
    ensures var a := AnchorsIn(content)[i];
      var t, l := Trim(Lower(TextContent(a))), SocialLinks(content).links[i];
      && (l.icon == "link" || l.icon in Platforms)
      && (l.icon == "link" <==> forall j :: 0 <= j < |Platforms| ==> !Mentions(t, HrefOf(a), Platforms[j]))
      && forall j :: 0 <= j < |Platforms| && Mentions(t, HrefOf(a), Platforms[j])
                     && (forall k :: j < k < |Platforms| ==> !Mentions(t, HrefOf(a), Platforms[k]))
                     ==> l.icon == Platforms[j]
  {
    var a := AnchorsIn(content)[i];
    IconIsLastMentionedPlatform(Trim(Lower(TextContent(a))), HrefOf(a));
  }

  // ---------------------------------------------------------------------
  // secondary section

  /** `sections['privacy-links'] || sections['legal-links'] || sections['legal']` */
  function LegalContent(sections: map<string, seq<Node>>): (r: Option<seq<Node>>)
    ensures r.None? <==> ("privacy-links" !in sections && "legal-links" !in sections && "legal" !in sections)
    ensures "privacy-links" in sections ==> r == Some(sections["privacy-links"])
    ensures "privacy-links" !in sections && "legal-links" in sections ==> r == Some(sections["legal-links"])
    ensures "privacy-links" !in sections && "legal-links" !in sections && "legal" in sections ==>
      r == Some(sections["legal"])
  {
    if "privacy-links" in sections then Some(sections["privacy-links"])
    else if "legal-links" in sections then Some(sections["legal-links"])
    else if "legal" in sections then Some(sections["legal"])
    else None
  }

  const Copyright: string := "\U{00A9}"

  function DefaultCopyright(year: nat): string {
    Copyright + " " + NatToString(year) + " Community Health Clinic"
  }

  /** Whether an element's text claims to be a copyright line. */
  predicate IsCopyrightLine(t: string) {
    Contains(t, Copyright) || Contains(Lower(t), "copyright")
  }

  /** The copyright text: the first copyright element's trimmed text when
      it reads as a copyright line, else the default for `year`. */
  function CopyrightText(year: nat, content: seq<Node>): (r: string)
    ensures content != [] && IsCopyrightLine(Trim(TextContent(content[0]))) ==> r == Trim(TextContent(content[0]))
    ensures (content == [] || !IsCopyrightLine(Trim(TextContent(content[0])))) ==> r == DefaultCopyright(year)
  {
    if content != [] && IsCopyrightLine(Trim(TextContent(content[0]))) then Trim(TextContent(content[0]))
    else DefaultCopyright(year)
  }

  /** The chosen text is the default or a trimmed copyright line. */
  lemma CopyrightIsDefaultOrTrimmedLine(year: nat, content: seq<Node>)
    ensures var r := CopyrightText(year, content);
      r == DefaultCopyright(year) || (IsCopyrightLine(r) && Trim(r) == r)
  {
    if content != [] {
      TrimIdempotent(TextContent(content[0]));
    }
  }

  datatype Secondary = Secondary(legal: seq<Link>, copyright: string)

  /** `createSecondarySection(legal, copyright)` */
  function SecondarySection(legal: seq<Node>, copyright: seq<Node>, year: nat): (s: Secondary)
    ensures s.legal == Links(AnchorsIn(legal))
    ensures s.copyright == CopyrightText(year, copyright)
  {
    Secondary(Links(AnchorsIn(legal)), CopyrightText(year, copyright))
  }

  // ---------------------------------------------------------------------
  // identifier

  const DefaultDomain: string := "Community Health Clinic"
  const DefaultDisclaimer: string :=
    "An official website of the <a href=\"https://www.defense.gov\">Department of War</a>"
  const DefaultRequiredLinks: seq<Link> := [
    Link("https://www.defense.gov/About/", "About DoD"),
    Link("/accessibility", "Accessibility"),
    Link("/foia", "FOIA Requests")
  ]

  datatype Identifier = Identifier(domain: string, disclaimerHtml: string, required: seq<Link>)

  function Domain(content: seq<Node>): (d: string)
    ensures content != [] && Trim(TextContent(content[0])) != [] ==> d == Trim(TextContent(content[0]))
    ensures (content == [] || Trim(TextContent(content[0])) == []) ==> d == DefaultDomain
    ensures d != [] && !IsSpace(d[0]) && !IsSpace(d[|d| - 1])
  {
    if content != [] && Trim(TextContent(content[0])) != [] then Trim(TextContent(content[0])) else DefaultDomain
  }

  function Disclaimer(content: seq<Node>): (h: string)
    ensures |content| > 1 ==> h == OuterHtml(content[1])
    ensures |content| <= 1 ==> h == DefaultDisclaimer
  {
    if |content| > 1 then OuterHtml(content[1]) else DefaultDisclaimer
  }

  /** The anchors of the elements from the third on, or the three default
      links when there are none. */
  function RequiredLinks(content: seq<Node>): (r: seq<Link>)
    ensures |content| > 2 && AnchorsIn(content[2..]) != [] ==> r == Links(AnchorsIn(content[2..]))
    ensures (|content| <= 2 || AnchorsIn(content[2..]) == []) ==> r == DefaultRequiredLinks
  {
    var found := if |content| > 2 then Links(AnchorsIn(content[2..])) else [];
    if found == [] then DefaultRequiredLinks else found
  }

  /** The required links never come out empty, and the anchors of the
      first two elements never count among them. */
  lemma RequiredLinksNeverEmpty(content: seq<Node>)
    ensures |RequiredLinks(content)| >= 1
    ensures forall e0: Node, e1: Node :: |content| >= 2 ==>
      RequiredLinks(content) == RequiredLinks([e0, e1] + content[2..])
  {
    forall e0: Node, e1: Node | |content| >= 2
      ensures RequiredLinks(content) == RequiredLinks([e0, e1] + content[2..])
    {
      assert ([e0, e1] + content[2..])[2..] == content[2..];
    }
  }

  /** `createIdentifier(content)` */
  function IdentifierOf(content: seq<Node>): Identifier {
    Identifier(Domain(content), Disclaimer(content), RequiredLinks(content))
  }

  // ---------------------------------------------------------------------
  // decorate

  datatype FooterView = FooterView(
    columns: seq<Column>,
    social: Option<Social>,
    secondary: Option<Secondary>,
    identifier: Option<Identifier>)

  function Lookup(sections: map<string, seq<Node>>, key: string): Option<seq<Node>> {
    if key in sections then Some(sections[key]) else None
  }

  /** The footer built from the section map. */
  function Assemble(sections: map<string, seq<Node>>, year: nat): (v: FooterView)
    ensures v.columns == Columns(sections)
    ensures v.social.Some? <==> "connect-with-us" in sections
    ensures v.secondary.Some? <==> LegalContent(sections).Some?
    ensures v.identifier.Some? <==> "identifier" in sections
    ensures v.secondary.Some? ==>
      v.secondary.value.copyright == CopyrightText(year, Lookup(sections, "copyright").GetOr([]))
    ensures v.secondary.Some? ==> v.secondary.value.legal == Links(AnchorsIn(LegalContent(sections).value))
    ensures v.social.Some? ==> v.social.value == SocialLinks(sections["connect-with-us"])
    ensures v.identifier.Some? ==> v.identifier.value == IdentifierOf(sections["identifier"])
  {
    var social := if "connect-with-us" in sections then Some(SocialLinks(sections["connect-with-us"])) else None;
    var secondary := match LegalContent(sections)
      case None => None
      case Some(legal) => Some(SecondarySection(legal, Lookup(sections, "copyright").GetOr([]), year));
    var identifier := if "identifier" in sections then Some(IdentifierOf(sections["identifier"])) else None;
    FooterView(Columns(sections), social, secondary, identifier)
  }

  /** The footer's `decorate`. `fragment` is the loaded fragment's content
      (None when it could not be loaded), `year` the current year and
      `urlPath` the `new URL(href).pathname` conversion. */
  function Decorate(fragment: Option<seq<Node>>, year: nat, urlPath: string -> Option<string>): (o: Outcome<FooterView>)
    ensures o.Unchanged? <==> fragment.None?
    ensures o.Threw? <==> fragment.Some? && Fails(fragment.value, urlPath)
    ensures o.Rendered? ==> o.value == Assemble(FooterSections(MakeLinksRelative(fragment.value, urlPath).value), year)
  {
    match fragment
    case None => Unchanged
    case Some(f) =>
      match MakeLinksRelative(f, urlPath)
      case None => Threw
      case Some(g) => Rendered(Assemble(FooterSections(g), year))
  }
}
