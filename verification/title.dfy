/** The title block (blocks/title/title.js): the first `h1`/`h2`/`h3`
    becomes the block's only child, with a class list computed from its
    level and the block's `center` variation. */
module TitleBlock {
  import opened Wrappers
  import opened Strings
  import opened Dom

  const TitleHeadings: Selector := Tags({"H1", "H2", "H3"})

  /** `className = 'usa-prose'`, then `text-center` when centered, then
      `title-<level>`. */
  function TitleClasses(tag: string, centered: bool): seq<string> {
    ["usa-prose"] + (if centered then ["text-center"] else []) + ["title-" + Lower(tag)]
  }

  /** The level classes of the three heading tags. */
  lemma LevelClasses()
    ensures forall centered: bool ::
      TitleClasses("H1", centered) == ["usa-prose"] + (if centered then ["text-center"] else []) + ["title-h1"]
    ensures forall centered: bool ::
      TitleClasses("H2", centered) == ["usa-prose"] + (if centered then ["text-center"] else []) + ["title-h2"]
    ensures forall centered: bool ::
      TitleClasses("H3", centered) == ["usa-prose"] + (if centered then ["text-center"] else []) + ["title-h3"]
    ensures TitleClasses("H1", false) == ["usa-prose", "title-h1"]
    ensures TitleClasses("H3", true) == ["usa-prose", "text-center", "title-h3"]
  {
    LowerLevel('1');
    LowerLevel('2');
    LowerLevel('3');
    assert "H1" == ['H', '1'] && "H2" == ['H', '2'] && "H3" == ['H', '3'];
    assert "title-" + "h1" == "title-h1";
    assert "title-" + "h2" == "title-h2";
    assert "title-" + "h3" == "title-h3";
  }

  lemma LowerLevel(d: char)
    requires '0' <= d <= '9'
    ensures Lower(['H', d]) == ['h', d]
  {
    assert LowerChar('H') == 'h';
  }

  /** `decorate(block)` for a block with attributes `a` and children `cs`. */
  function Decorate(a: Attrs, cs: seq<Node>): (o: Outcome<Node>)
    ensures !o.Threw?
    ensures o.Unchanged? <==> Query(cs, TitleHeadings).None?
    ensures o.Rendered? ==>
      var h := Query(cs, TitleHeadings).value;
      && o.value.Element?
      && o.value.attrs == a.(classes := o.value.attrs.classes)
      && |o.value.children| == 1
      && o.value.children[0].Element?
      && o.value.children[0].attrs == h.attrs.(classes := o.value.children[0].attrs.classes)
      && o.value.children[0].children == h.children
  {
    match Query(cs, TitleHeadings)
    case None => Unchanged
    case Some(h) =>
      var centered := "center" in a.classes;
      var heading := Element(h.attrs.(classes := TitleClasses(h.attrs.tag, centered)), h.children);
      Rendered(Element(a.(classes := if centered then AddClass(a.classes, "text-center") else a.classes), [heading]))
  }

  /** The block's only child is the first `h1`, `h2` or `h3` in document
      order; its earlier classes are gone and it has exactly `usa-prose`,
      `text-center` iff the block is centered, and its level class; the
      block gains `text-center` iff it is centered and keeps its classes. */
  lemma DecorateKeepsFirstHeading(a: Attrs, cs: seq<Node>)
    requires Decorate(a, cs).Rendered?
    ensures var b := Decorate(a, cs).value; var h := b.children[0];
      && h.attrs.tag in {"H1", "H2", "H3"}
      && QueryAll(cs, TitleHeadings) != []
      && h.attrs == QueryAll(cs, TitleHeadings)[0].attrs.(classes := h.attrs.classes)
      && h.children == QueryAll(cs, TitleHeadings)[0].children
      && (forall x :: x in h.attrs.classes <==>
            x == "usa-prose" || ("center" in a.classes && x == "text-center") || x == "title-" + Lower(h.attrs.tag))
      && b.attrs.classes[..|a.classes|] == a.classes
      && (forall x :: x in b.attrs.classes <==> x in a.classes || ("center" in a.classes && x == "text-center"))
  {
    QueryIsFirstOfQueryAll(cs, TitleHeadings);
  }
}
