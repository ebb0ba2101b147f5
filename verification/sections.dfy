/** Splitting a fragment into sections at its `H2` headings: the footer's
    keyed sections (footer.js, `parseFragmentByHeadings`) and the header's
    three named sections (header.js, `parseFragmentByHeadings` and
    `getNextSiblingContent`). */
module Sections {
  import opened Wrappers
  import opened Strings
  import opened Dom

  // ---------------------------------------------------------------------
  // sibling runs

  /** The element siblings met by following `nextElementSibling` from the
      start of `ns` until an element whose tag is one of `stops`. Text
      nodes are stepped over. */
  function Run(ns: seq<Node>, stops: set<string>): (r: seq<Node>)
    ensures forall i :: 0 <= i < |r| ==> r[i].Element? && r[i].attrs.tag !in stops
  {
    if ns == [] then []
    else match ns[0]
      case Text(_) => Run(ns[1..], stops)
      case Element(a, _) => if a.tag in stops then [] else [ns[0]] + Run(ns[1..], stops)
  }

  /** The run is all the elements before the first stop heading: it is
      maximal, and in sibling order. */
  lemma {:induction false} RunIsElementsBeforeStop(ns: seq<Node>, stops: set<string>)
    ensures Run(ns, stops) == ElementChildren(ns[..IndexWhere(ns, Tags(stops))])
  {
    if ns != [] {
      var k := IndexWhere(ns, Tags(stops));
      if Matches(ns[0], Tags(stops)) {
        assert k == 0;
      } else {
        RunIsElementsBeforeStop(ns[1..], stops);
        assert k == 1 + IndexWhere(ns[1..], Tags(stops));
        assert ns[..k][0] == ns[0] && ns[..k][1..] == ns[1..][..k - 1];
      }
    }
  }

  // ---------------------------------------------------------------------
  // footer: every H2 opens a keyed section

  const H2: Selector := Tags({"H2"})

  /** One `sections[key] = content` step of the footer's heading walk. */
  datatype Entry = Entry(key: string, content: seq<Node>)

  function EntryOf(h: Hit): Entry {
    Entry(SectionKey(TextContent(h.node)), Run(h.following, {"H2"}))
  }

  /** The writes the footer's walk makes, one per `H2` in document order. */
  function Entries(fragment: seq<Node>): (es: seq<Entry>)
    ensures |es| == |QueryAll(fragment, H2)|
    ensures forall i :: 0 <= i < |es| ==>
      es[i].key == SectionKey(TextContent(QueryAll(fragment, H2)[i]))
  {
    var hs := AllHits(fragment, H2);
    AllHitsAreQueryAll(fragment, H2);
    seq(|hs|, i requires 0 <= i < |hs| => EntryOf(hs[i]))
  }

  /** A section's content is the maximal run of element siblings after
      its heading, and never holds an `H2`. */
  lemma EntryContentIsRun(fragment: seq<Node>, i: nat)
    requires i < |Entries(fragment)|
    ensures var h := AllHits(fragment, H2)[i];
      && Entries(fragment)[i].content == ElementChildren(h.following[..IndexWhere(h.following, H2)])
      && forall j :: 0 <= j < |Entries(fragment)[i].content| ==> !IsTag(Entries(fragment)[i].content[j], "H2")
  {
    var h := AllHits(fragment, H2)[i];
    RunIsElementsBeforeStop(h.following, {"H2"});
  }

  /** Writes applied in order to an initially empty object. */
  function LastWins(es: seq<Entry>): (m: map<string, seq<Node>>)
    ensures forall k :: k in m <==> exists i :: 0 <= i < |es| && es[i].key == k
  {
    if es == [] then map[]
    else
      var m := LastWins(es[..|es| - 1]);
      assert forall i :: 0 <= i < |es| - 1 ==> es[..|es| - 1][i] == es[i];
      m[es[|es| - 1].key := es[|es| - 1].content]
  }

  /** The value stored under a key is the content of the last write to
      it: a later heading with the same key replaces an earlier one. */
  lemma {:induction false} LastWriteWins(es: seq<Entry>, i: nat)
    requires i < |es|
    requires forall j :: i < j < |es| ==> es[j].key != es[i].key
    ensures es[i].key in LastWins(es) && LastWins(es)[es[i].key] == es[i].content
  {
    if i < |es| - 1 {
      var init := es[..|es| - 1];
      assert forall j :: i < j < |init| ==> init[j] == es[j];
      LastWriteWins(init, i);
    }
  }

  /** The footer's `sections` object. */
  function FooterSections(fragment: seq<Node>): map<string, seq<Node>> {
    LastWins(Entries(fragment))
  }

  // ---------------------------------------------------------------------
  // header: three sections picked out by heading id

  const DefaultContentWrapper: Selector := ClassSel("default-content-wrapper")
  const SectionClass: Selector := ClassSel("section")
  const Div: Selector := Tags({"DIV"})

  /** Where the header looks for its headings, as the list of children to
      search: the first `.default-content-wrapper`, else the first
      `.section > div`, else the whole fragment. */
  function ContentWrapper(fragment: seq<Node>): (scope: seq<Node>)
    ensures Query(fragment, DefaultContentWrapper).Some? ==>
      scope == Kids(Query(fragment, DefaultContentWrapper).value)
    ensures Query(fragment, DefaultContentWrapper).None? && ChildMatches(fragment, false, SectionClass, Div) == [] ==>
      scope == fragment
    ensures Query(fragment, DefaultContentWrapper).None? && ChildMatches(fragment, false, SectionClass, Div) != [] ==>
      scope == Kids(ChildMatches(fragment, false, SectionClass, Div)[0])
  {
    match Query(fragment, DefaultContentWrapper)
    case Some(w) => Kids(w)
    case None =>
      match First(ChildMatches(fragment, false, SectionClass, Div))
      case Some(w) => Kids(w)
      case None => fragment
  }

  /** Without a `.default-content-wrapper`, the headings are searched
      among the children of a `DIV` whose parent carries the class
      `section`, whenever the fragment holds one. */
  lemma ContentWrapperIsSectionDiv(fragment: seq<Node>)
    requires Query(fragment, DefaultContentWrapper).None?
    requires ChildMatches(fragment, false, SectionClass, Div) != []
    ensures exists w, d :: && ContentWrapper(fragment) == Kids(w) && IsTag(w, "DIV")
                           && d in Descendants(fragment) && Matches(d, SectionClass) && w in Kids(d)
  {
    var ws := ChildMatches(fragment, false, SectionClass, Div);
    var w := ws[0];
    assert ContentWrapper(fragment) == Kids(w);
    assert IsTag(w, "DIV") by {
      assert Matches(w, Div);
    }
    assert ChildIn(fragment, false, SectionClass, w) by {
      ChildMatchesExactly(fragment, false, SectionClass, Div);
      assert w in ws;
    }
    var d :| d in Descendants(fragment) && Matches(d, SectionClass) && w in Kids(d);
  }

  /** `h2#id` */
  function HeadingWithId(id: string): Selector {
    Selector(Some({"H2"}), Some(id), None)
  }

  /** The element siblings after the first `h2#id`, up to the next `H2` or
      `H1`; absent when there is no such heading or nothing follows it. */
  function NamedSection(scope: seq<Node>, id: string): (r: Option<seq<Node>>)
    ensures r.Some? ==> |r.value| > 0
    ensures r.Some? ==> forall i :: 0 <= i < |r.value| ==>
      r.value[i].Element? && r.value[i].attrs.tag != "H2" && r.value[i].attrs.tag != "H1"
    ensures Query(scope, HeadingWithId(id)).None? ==> r.None?
  {
    match Find(scope, HeadingWithId(id))
    case None => None
    case Some(h) =>
      var run := Run(h.following, {"H2", "H1"});
      if run == [] then None else Some(run)
  }

  /** The section, when present, is exactly the elements between the
      heading and the next `H2`/`H1`. */
  lemma NamedSectionIsRun(scope: seq<Node>, id: string)
    requires Find(scope, HeadingWithId(id)).Some?
    ensures var f := Find(scope, HeadingWithId(id)).value.following;
      var body := ElementChildren(f[..IndexWhere(f, Tags({"H2", "H1"}))]);
      NamedSection(scope, id) == if body == [] then None else Some(body)
  {
    RunIsElementsBeforeStop(Find(scope, HeadingWithId(id)).value.following, {"H2", "H1"});
  }

  /** The three sections the header reads. */
  datatype HeaderParts = HeaderParts(brand: Option<seq<Node>>, sections: Option<seq<Node>>, tools: Option<seq<Node>>)

  function HeaderSections(fragment: seq<Node>): HeaderParts {
    var scope := ContentWrapper(fragment);
    HeaderParts(NamedSection(scope, "brand"), NamedSection(scope, "sections"), NamedSection(scope, "tools"))
  }
}
