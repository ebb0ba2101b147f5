/** The header block (blocks/header/header.js): link relativisation, the
    logo, the tool links, the primary navigation items, and what `decorate`
    does with the header fragment. The open/closed behaviour of the menu
    and the accordion is in module NavState. */
module Header {
  import opened Wrappers
  import opened Strings
  import opened Dom
  import opened Sections

  // ---------------------------------------------------------------------
  // makeLinksRelative: /^https?:\/\/[^/]+\.aem\.(page|live)(\/.*)?$/

  /** The characters `.` does not match in a JavaScript regular expression
      without the `s` flag. */
  predicate IsLineTerminator(c: char) {
    c == '\n' || c == '\r' || c == '\U{2028}' || c == '\U{2029}'
  }

  predicate NoLineTerminator(s: string) {
    forall i :: 0 <= i < |s| ==> !IsLineTerminator(s[i])
  }

  /** What `[^/]+\.aem\.(page|live)` accepts: no slash, and at least one
      character before an `.aem.page` or `.aem.live` ending. */
  predicate IsAemHost(host: string) {
    && |host| >= 10
    && (forall i :: 0 <= i < |host| ==> host[i] != '/')
    && (host[|host| - 9..] == ".aem.page" || host[|host| - 9..] == ".aem.live")
  }

  /** What is left after the `http://` or `https://` prefix. */
  function AfterScheme(href: string): Option<string> {
    if StartsWith(href, "https://") then Some(href[8..])
    else if StartsWith(href, "http://") then Some(href[7..])
    else None
  }

  /** Up to the first slash: what `[^/]+` can cover. */
  function HostPart(rest: string): string {
    match FindChar(rest, '/', 0)
    case Some(c) => rest[..c]
    case None => rest
  }

  /** From the first slash on: the capture group `(\/.*)?`. */
  function PathPart(rest: string): string {
    rest[|HostPart(rest)|..]
  }

  /** The path the pattern captures for an AEM preview/live URL (`/` when
      the capture group is empty), or None when `href` does not match. */
  function AemPath(href: string): (r: Option<string>)
    ensures r.Some? ==> |r.value| >= 1 && r.value[0] == '/'
  {
    match AfterScheme(href)
    case None => None
    case Some(rest) =>
      var host, path := HostPart(rest), PathPart(rest);
      if IsAemHost(host) && NoLineTerminator(path) then Some(if path == "" then "/" else path)
      else None
  }

  /** A path never matches again: it does not start with `http`. */
  lemma PathsDoNotMatch(p: string)
    requires |p| >= 1 && p[0] == '/'
    ensures AemPath(p).None?
  {
    assert !StartsWith(p, "https://") && !StartsWith(p, "http://");
  }

  /** Every URL the pattern accepts is a scheme, an AEM host and an
      optional path, and the result is that path or `/`. */
  lemma AemPathDecomposes(href: string)
    requires AemPath(href).Some?
    ensures var scheme := if StartsWith(href, "https://") then "https://" else "http://";
      var rest := href[|scheme|..];
      var host, path := HostPart(rest), PathPart(rest);
      && href == scheme + host + path
      && IsAemHost(host)
      && (path == "" || path[0] == '/')
      && NoLineTerminator(path)
      && AemPath(href) == Some(if path == "" then "/" else path)
  {
    var rest := SchemeSplit(href);
    HostSplit(rest);
  }

  /** The scheme and what follows it. */
  lemma SchemeSplit(href: string) returns (rest: string)
    requires AfterScheme(href).Some?
    ensures var scheme := if StartsWith(href, "https://") then "https://" else "http://";
      && |scheme| <= |href|
      && rest == href[|scheme|..] == AfterScheme(href).value
      && href == scheme + rest
  {
    rest := AfterScheme(href).value;
    var scheme := if StartsWith(href, "https://") then "https://" else "http://";
    assert href == href[..|scheme|] + href[|scheme|..];
  }

  /** The host runs up to the first slash; the path is the rest. */
  lemma HostSplit(rest: string)
    ensures rest == HostPart(rest) + PathPart(rest)
    ensures PathPart(rest) == "" || PathPart(rest)[0] == '/'
  {
    assert rest == HostPart(rest) + rest[|HostPart(rest)|..];
  }

  /** Conversely, any URL built from a scheme, an AEM host and a path that
      is empty or starts with `/` and has no line break is rewritten to that
      path, or to `/` when it is empty. */
  lemma AemUrlIsRewritten(scheme: string, host: string, path: string)
    requires scheme == "http://" || scheme == "https://"
    requires IsAemHost(host)
    requires path == [] || path[0] == '/'
    requires NoLineTerminator(path)
    ensures AemPath(scheme + host + path) == Some(if path == [] then "/" else path)
  {
    var href := scheme + host + path;
    assert StartsWith(href, scheme);
    if scheme == "http://" {
      assert href[4] == ':';
      assert !StartsWith(href, "https://") by {
        if |href| >= 8 { assert href[..8][4] != "https://"[4]; }
      }
    }
    var rest := host + path;
    assert href[|scheme|..] == rest;
    assert forall j :: 0 <= j < |host| ==> rest[j] != '/';
    if path == [] {
      assert rest == host;
    } else {
      assert rest[|host|] == '/';
      assert FindChar(rest, '/', 0) == Some(|host|);
      assert rest[..|host|] == host && rest[|host|..] == path;
    }
  }

  /** The rewrite of one element: anchors whose `href` matches get the
      captured path. */
  function RelativiseAttrs(a: Attrs): (b: Attrs)
    ensures b == a.(href := b.href)
  {
    if a.tag == "A" && a.href.Some? && AemPath(a.href.value).Some? then a.(href := AemPath(a.href.value))
    else a
  }

  /** `makeLinksRelative(container)` */
  function MakeLinksRelative(ns: seq<Node>): seq<Node> {
    MapAttrs(ns, RelativiseAttrs)
  }

  /** An `href` the pattern does not accept stays as it was; one it accepts
      becomes a path. */
  lemma RelativiseAttrsCases(a: Attrs)
    ensures a.tag != "A" || a.href.None? || AemPath(a.href.value).None? ==> RelativiseAttrs(a) == a
    ensures a.tag == "A" && a.href.Some? && AemPath(a.href.value).Some? ==>
      && RelativiseAttrs(a).href.Some?
      && |RelativiseAttrs(a).href.value| >= 1 && RelativiseAttrs(a).href.value[0] == '/'
  {
  }

  /** Relativising twice is relativising once. */
  lemma MakeLinksRelativeIdempotent(ns: seq<Node>)
    ensures MakeLinksRelative(MakeLinksRelative(ns)) == MakeLinksRelative(ns)
    ensures Outline(MakeLinksRelative(ns)) == Relabel(Outline(ns), RelativiseAttrs)
    ensures TextOf(MakeLinksRelative(ns)) == TextOf(ns)
  {
    forall a: Attrs ensures RelativiseAttrs(RelativiseAttrs(a)) == RelativiseAttrs(a) {
      if a.tag == "A" && a.href.Some? && AemPath(a.href.value).Some? {
        PathsDoNotMatch(AemPath(a.href.value).value);
      }
    }
    MapAttrsIdempotent(ns, RelativiseAttrs);
    MapAttrsOutline(ns, RelativiseAttrs);
    MapAttrsText(ns, RelativiseAttrs);
  }

  // ---------------------------------------------------------------------
  // logo

  /** The logo's link: a clone of the brand's first link with `title` set
      to its text, or a link to `/` with the given markup as its content. */
  datatype LogoLink = BrandLink(link: Node, title: string) | HomeLink(html: string)

  datatype Logo = Logo(image: Option<Node>, link: LogoLink)

  /** The brand image's clone, its class list replaced by `usa-logo__img`. */
  function LogoImage(img: Node): Node {
    match img
    case Text(_) => img
    case Element(a, cs) => Element(a.(classes := ["usa-logo__img"]), cs)
  }

  function LogoOf(brand: Option<seq<Node>>): (l: Logo)
    ensures brand.None? ==> l == Logo(None, HomeLink("Home"))
    ensures brand.Some? && Query(brand.value, Anchors).None? ==> l.link == HomeLink(Trim(TextOf(brand.value)))
    ensures brand.Some? && Query(brand.value, Anchors).Some? ==>
      && l.link.BrandLink?
      && l.link.link == Query(brand.value, Anchors).value
      && QueryAll(brand.value, Anchors) != [] && l.link.link == QueryAll(brand.value, Anchors)[0]
      && IsTag(l.link.link, "A") && l.link.title == TextContent(l.link.link)
    ensures l.image.Some? <==> brand.Some? && Query(brand.value, Images).Some?
    ensures l.image.Some? ==> l.image.value == LogoImage(Query(brand.value, Images).value)
  {
    match brand
    case None => Logo(None, HomeLink("Home"))
    case Some(b) =>
      var image := match Query(b, Images) case Some(img) => Some(LogoImage(img)) case None => None;
      match Query(b, Anchors)
      case Some(a) =>
        QueryIsFirstOfQueryAll(b, Anchors);
        Logo(image, BrandLink(a, TextContent(a)))
      case None => Logo(image, HomeLink(Trim(TextOf(b))))
  }

  // ---------------------------------------------------------------------
  // tool links

  datatype ToolIcon = SearchIcon | UserIcon | NoIcon

  /** The icon a tool link gets from its trimmed, lower-cased text. */
  function ToolIconFor(linkText: string): ToolIcon {
    if linkText == "search" || Contains(linkText, "search") then SearchIcon
    else if linkText == "login" || linkText == "sign in" || Contains(linkText, "login") then UserIcon
    else NoIcon
  }

  /** The search icon wins over the user icon, and each icon is given for
      exactly the texts the rules name. */
  lemma ToolIconRules(linkText: string)
    ensures ToolIconFor(linkText) == SearchIcon <==> Contains(linkText, "search")
    ensures ToolIconFor(linkText) == UserIcon <==>
      !Contains(linkText, "search") && (linkText == "sign in" || Contains(linkText, "login"))
    ensures ToolIconFor(linkText) == NoIcon <==>
      !Contains(linkText, "search") && !Contains(linkText, "login") && linkText != "sign in"
  {
    assert OccursAt(linkText, linkText, 0) by {
      assert linkText[0..|linkText|] == linkText;
    }
  }

  /** The tool text of a link: `textContent.trim().toLowerCase()`. */
  function ToolText(link: Node): string {
    Lower(Trim(TextContent(link)))
  }

  /** One entry of the tools list: an empty item when the list item has no
      link, else a clone of the link and its icon. */
  datatype ToolItem = EmptyItem | ToolLink(link: Node, icon: ToolIcon)

  const UlSel: Selector := Tags({"UL"})
  const LiSel: Selector := Tags({"LI"})

  function ToolItemOf(li: Node): (t: ToolItem)
    ensures t.EmptyItem? <==> Query(Kids(li), Anchors).None?
    ensures t.ToolLink? ==> t.link == Query(Kids(li), Anchors).value && t.icon == ToolIconFor(ToolText(t.link))
  {
    match Query(Kids(li), Anchors)
    case None => EmptyItem
    case Some(a) => ToolLink(a, ToolIconFor(ToolText(a)))
  }

  /** The tools list: absent without a tools section, empty when the
      section has no list, else one item per `li` of its first list. */
  function ToolsOf(tools: Option<seq<Node>>): (r: Option<seq<ToolItem>>)
    ensures r.None? <==> tools.None?
    ensures tools.Some? && Query(tools.value, UlSel).None? ==> r == Some([])
    ensures tools.Some? && Query(tools.value, UlSel).Some? ==>
      var lis := QueryAll(Kids(Query(tools.value, UlSel).value), LiSel);
      |r.value| == |lis| && forall i :: 0 <= i < |lis| ==> r.value[i] == ToolItemOf(lis[i])
  {
    match tools
    case None => None
    case Some(t) =>
      match Query(t, UlSel)
      case None => Some([])
      case Some(ul) =>
        var lis := QueryAll(Kids(ul), LiSel);
        Some(seq(|lis|, i requires 0 <= i < |lis| => ToolItemOf(lis[i])))
  }

  // ---------------------------------------------------------------------
  // primary navigation

  const SubmenuPrefix: string := "extended-nav-section-"

  /** The `aria-controls` of the accordion button of the item at `index`,
      which is also its submenu's id. */
  function SubmenuId(index: nat): string {
    SubmenuPrefix + NatToString(index)
  }

  /** Different items get different submenu ids. */
  lemma SubmenuIdsDistinct(i: nat, j: nat)
    requires SubmenuId(i) == SubmenuId(j)
    ensures i == j
  {
    var p := |SubmenuPrefix|;
    assert NatToString(i) == SubmenuId(i)[p..];
    assert NatToString(j) == SubmenuId(j)[p..];
    NatToStringInjective(i, j);
  }

  /** What a nav item becomes: an accordion button with its submenu, a
      plain link, or the bare item. */
  datatype NavItem =
    | Accordion(caption: string, controls: string, submenu: Node)
    | NavLink(link: Node)
    | Bare

  /** The first direct child of `item` with the given tag (`:scope > tag`). */
  function DirectChild(item: Node, tag: string): (r: Option<Node>)
    ensures r.None? <==> forall c :: c in Kids(item) ==> !IsTag(c, tag)
    ensures r.Some? ==> IsTag(r.value, tag)
    ensures r.Some? ==> exists k :: (0 <= k < |Kids(item)| && Kids(item)[k] == r.value
      && forall j :: 0 <= j < k ==> !IsTag(Kids(item)[j], tag))
  {
    var cs, sel := Kids(item), Tags({tag});
    IndexWhereNone(cs, sel);
    var k := IndexWhere(cs, sel);
    assert forall j :: 0 <= j < k ==> !IsTag(cs[j], tag) by {
      forall j | 0 <= j < k ensures !IsTag(cs[j], tag) {
        IndexWhereIsFirst(cs, sel, j);
      }
    }
    First(Filter(cs, sel))
  }

  function SetSubItemClass(a: Attrs): Attrs {
    if a.tag == "LI" then a.(classes := ["usa-nav__submenu-item"]) else a
  }

  /** The submenu after styling: its classes and id replaced, and every
      `li` inside it marked as a submenu item. */
  function StyledSubmenu(ul: Node, id: string): (r: Node)
    ensures r.Element? ==> r.attrs.id == Some(id) && r.attrs.classes == ["usa-nav__submenu"]
    ensures Outline(Kids(r)) == Relabel(Outline(Kids(ul)), SetSubItemClass)
  {
    MapAttrsOutline(Kids(ul), SetSubItemClass);
    match ul
    case Text(_) => ul
    case Element(a, cs) => Element(a.(classes := ["usa-nav__submenu"], id := Some(id)), MapAttrs(cs, SetSubItemClass))
  }

  /** The link restyled in place: class `usa-nav__link`, its content
      replaced by a span holding its text. Setting `textContent` to ""
      inserts no text node, so an empty link gets an empty span. */
  function StyledLink(link: Node): (r: Node)
    ensures link.Element? ==> r.Element? && r.attrs == link.attrs.(classes := ["usa-nav__link"])
    ensures link.Element? ==> |Kids(r)| == 1 && Kids(r)[0] == Plain("SPAN", Kids(Kids(r)[0]))
    ensures link.Element? ==> (Kids(Kids(r)[0]) == [] <==> TextContent(link) == "")
    ensures TextContent(r) == TextContent(link)
  {
    match link
    case Text(_) => link
    case Element(a, _) =>
      var t := TextContent(link);
      var span := Plain("SPAN", if t == "" then [] else [Text(t)]);
      assert TextContent(span) == t by {
        if t != "" {
          assert TextOf([Text(t)]) == t + TextOf([]);
        }
      }
      assert TextOf([span]) == TextContent(span) + TextOf([]);
      Element(a.(classes := ["usa-nav__link"]), [span])
  }

  /** Restyling a restyled link changes nothing more. */
  lemma StyledLinkIdempotent(link: Node)
    ensures StyledLink(StyledLink(link)) == StyledLink(link)
  {
  }

  /** One nav item, None when it has a submenu but no direct link (then
      `link.textContent` throws a TypeError). */
  function NavItemOf(item: Node, index: nat): (r: Option<NavItem>)
    ensures r.None? <==> DirectChild(item, "UL").Some? && DirectChild(item, "A").None?
    ensures r.Some? && r.value.Accordion? <==> DirectChild(item, "UL").Some? && DirectChild(item, "A").Some?
    ensures r.Some? && r.value.Accordion? ==>
      r.value.controls == SubmenuId(index) && r.value.caption == TextContent(DirectChild(item, "A").value)
    ensures r == Some(Bare) <==> DirectChild(item, "UL").None? && DirectChild(item, "A").None?
    ensures r.Some? && r.value.Accordion? ==>
      && r.value.submenu == StyledSubmenu(DirectChild(item, "UL").value, SubmenuId(index))
      && r.value.submenu.Element? && r.value.submenu.attrs.id == Some(r.value.controls)
    ensures r.Some? && r.value.NavLink? ==> r.value.link == StyledLink(DirectChild(item, "A").value)
  {
    match DirectChild(item, "UL")
    case Some(sub) =>
      (match DirectChild(item, "A")
       case None => None
       case Some(link) => Some(Accordion(TextContent(link), SubmenuId(index), StyledSubmenu(sub, SubmenuId(index)))))
    case None =>
      match DirectChild(item, "A")
      case Some(link) => Some(NavLink(StyledLink(link)))
      case None => Some(Bare)
  }

  /** The items from position `index` on, None when one of them throws. */
  function NavItemsFrom(items: seq<Node>, index: nat): (r: Option<seq<NavItem>>)
    ensures r.Some? ==> |r.value| == |items|
  {
    if items == [] then Some([])
    else
      match NavItemOf(items[0], index)
      case None => None
      case Some(first) =>
        match NavItemsFrom(items[1..], index + 1)
        case None => None
        case Some(rest) => Some([first] + rest)
  }

  /** The navigation throws exactly when one of its items does. */
  lemma {:induction false} NavItemsFromThrows(items: seq<Node>, index: nat)
    ensures NavItemsFrom(items, index).None? <==>
      exists i :: 0 <= i < |items| && NavItemOf(items[i], index + i).None?
  {
    if items != [] && NavItemOf(items[0], index).Some? {
      NavItemsFromThrows(items[1..], index + 1);
      assert NavItemsFrom(items, index).None? == NavItemsFrom(items[1..], index + 1).None?;
      if NavItemsFrom(items, index).None? {
        var j :| 0 <= j < |items[1..]| && NavItemOf(items[1..][j], index + 1 + j).None?;
        assert NavItemOf(items[j + 1], index + (j + 1)).None?;
      }
      if exists i :: 0 <= i < |items| && NavItemOf(items[i], index + i).None? {
        var i :| 0 <= i < |items| && NavItemOf(items[i], index + i).None?;
        assert i > 0 && NavItemOf(items[1..][i - 1], index + 1 + (i - 1)).None?;
      }
    } else if items != [] {
      assert NavItemOf(items[0], index + 0).None?;
    }
  }

  /** Otherwise item `i` is what `NavItemOf` makes of the `i`-th list item,
      numbered from `index`. */
  lemma {:induction false} NavItemsFromItems(items: seq<Node>, index: nat, i: nat, k: nat)
    requires NavItemsFrom(items, index).Some? && i < |items| && k == index + i
    ensures Some(NavItemsFrom(items, index).value[i]) == NavItemOf(items[i], k)
  {
    NavItemsFromUnfold(items, index);
    if i > 0 {
      NavItemsFromItems(items[1..], index + 1, i - 1, k);
      assert items[1..][i - 1] == items[i];
    }
  }

  lemma NavItemsFromUnfold(items: seq<Node>, index: nat)
    requires NavItemsFrom(items, index).Some? && items != []
    ensures var r := NavItemsFrom(items, index).value;
      && NavItemOf(items[0], index) == Some(r[0])
      && NavItemsFrom(items[1..], index + 1) == Some(r[1..])
  {
  }

  datatype NavOutcome = NoList | Throws | Items(items: seq<NavItem>)

  /** The primary navigation: nothing without a sections part or without a
      list in it, else one item per direct `li` of its first list. */
  function NavOf(sections: Option<seq<Node>>): (r: NavOutcome)
    ensures r.NoList? <==> sections.None? || Query(sections.value, UlSel).None?
  {
    match sections
    case None => NoList
    case Some(s) =>
      match Query(s, UlSel)
      case None => NoList
      case Some(ul) =>
        match NavItemsFrom(Filter(Kids(ul), LiSel), 0)
        case None => Throws
        case Some(items) => Items(items)
  }

  /** Item `i` of the navigation is what `NavItemOf` makes of the `i`-th
      direct `li` of the first list. */
  lemma NavItemAt(sections: seq<Node>, i: nat)
    requires NavOf(Some(sections)).Items? && i < |NavOf(Some(sections)).items|
    ensures var ul := Query(sections, UlSel).value;
      var lis := Filter(Kids(ul), LiSel);
      i < |lis| && Some(NavOf(Some(sections)).items[i]) == NavItemOf(lis[i], i)
  {
    var lis := NavOfItems(sections);
    NavItemsFromItems(lis, 0, i, i);
  }

  lemma NavOfItems(sections: seq<Node>) returns (lis: seq<Node>)
    requires NavOf(Some(sections)).Items?
    ensures Query(sections, UlSel).Some?
    ensures lis == Filter(Kids(Query(sections, UlSel).value), LiSel)
    ensures NavItemsFrom(lis, 0) == Some(NavOf(Some(sections)).items)
    ensures |lis| == |NavOf(Some(sections)).items|
  {
    lis := Filter(Kids(Query(sections, UlSel).value), LiSel);
  }

  /** An accordion at position `i` controls `extended-nav-section-i`, so no
      two accordions share an id. */
  lemma NavAccordionIds(sections: seq<Node>, i: nat, j: nat)
    requires NavOf(Some(sections)).Items?
    requires i < |NavOf(Some(sections)).items| && j < |NavOf(Some(sections)).items|
    requires NavOf(Some(sections)).items[i].Accordion? && NavOf(Some(sections)).items[j].Accordion?
    requires i != j
    ensures NavOf(Some(sections)).items[i].controls == SubmenuId(i)
    ensures NavOf(Some(sections)).items[i].controls != NavOf(Some(sections)).items[j].controls
  {
    NavItemAt(sections, i);
    NavItemAt(sections, j);
    if SubmenuId(i) == SubmenuId(j) {
      SubmenuIdsDistinct(i, j);
    }
  }

  // ---------------------------------------------------------------------
  // decorate

  datatype HeaderView = HeaderView(logo: Logo, tools: Option<seq<ToolItem>>, nav: Option<seq<NavItem>>)

  /** The header's `decorate`; `fragment` is the loaded header fragment,
      None when it could not be loaded. */
  function Decorate(fragment: Option<seq<Node>>): (o: Outcome<HeaderView>)
    ensures fragment.None? ==> o.Unchanged?
    ensures fragment.Some? ==>
      var parts := HeaderSections(MakeLinksRelative(fragment.value));
      && (o.Unchanged? <==> parts.brand.None? && parts.sections.None?)
      && (o.Threw? <==> (parts.brand.Some? || parts.sections.Some?) && NavOf(parts.sections).Throws?)
      && (o.Rendered? ==> o.value.logo == LogoOf(parts.brand) && o.value.tools == ToolsOf(parts.tools))
      && (o.Rendered? ==> (o.value.nav.None? <==> NavOf(parts.sections).NoList?))
      && (o.Rendered? && o.value.nav.Some? ==> NavOf(parts.sections) == Items(o.value.nav.value))
  {
    match fragment
    case None => Unchanged
    case Some(f) =>
      var parts := HeaderSections(MakeLinksRelative(f));
      if parts.brand.None? && parts.sections.None? then Unchanged
      else
        match NavOf(parts.sections)
        case Throws => Threw
        case NoList => Rendered(HeaderView(LogoOf(parts.brand), ToolsOf(parts.tools), None))
        case Items(items) => Rendered(HeaderView(LogoOf(parts.brand), ToolsOf(parts.tools), Some(items)))
  }
}
