/** The text block (blocks/text/text.js): paragraph and block classes
    chosen from the block's `center` and `intro` variations. */
module TextBlock {
  import opened Wrappers
  import opened Dom

  const Paragraphs: Selector := Tags({"P"})

  /** `classList.add(c)` when `cond` holds. */
  function AddIf(cs: seq<string>, cond: bool, c: string): seq<string> {
    if cond then AddClass(cs, c) else cs
  }

  /** The classes one paragraph ends up with. */
  function ParagraphClasses(cs: seq<string>, centered: bool, intro: bool): (r: seq<string>)
    ensures |r| >= |cs| && r[..|cs|] == cs
    ensures "usa-prose" in r
    ensures "usa-intro" in r <==> intro || "usa-intro" in cs
    ensures "text-center" in r <==> centered || "text-center" in cs
    ensures forall x :: x in r <==>
      x in cs || x == "usa-prose" || (intro && x == "usa-intro") || (centered && x == "text-center")
  {
    var r := AddIf(AddIf(AddClass(cs, "usa-prose"), intro, "usa-intro"), centered, "text-center");
    assert r[..|cs|] == cs by {
      var a := AddClass(cs, "usa-prose");
      var b := AddIf(a, intro, "usa-intro");
      assert b[..|a|] == a;
      assert r[..|b|] == b;
    }
    r
  }

  /** The rewrite applied to every element of the block: paragraphs get
      their classes, other elements are left alone. */
  function StyleParagraph(centered: bool, intro: bool): Attrs -> Attrs {
    (a: Attrs) => if a.tag == "P" then a.(classes := ParagraphClasses(a.classes, centered, intro)) else a
  }

  /** The block's own classes afterwards: `intro` is only re-added when
      it is already there. */
  function BlockClasses(cs: seq<string>): (r: seq<string>)
    ensures |r| >= |cs| && r[..|cs|] == cs
    ensures forall x :: x in r <==> x in cs || ("center" in cs && x == "text-center")
  {
    AddIf(AddIf(cs, "center" in cs, "text-center"), "intro" in cs, "intro")
  }

  /** `decorate(block)` for a block with attributes `a` and children `cs`. */
  function Decorate(a: Attrs, cs: seq<Node>): (o: Outcome<Node>)
    ensures !o.Threw?
    ensures o.Unchanged? <==> QueryAll(cs, Paragraphs) == []
    ensures o.Rendered? ==> o.value.Element? && o.value.attrs.tag == a.tag
  {
    if QueryAll(cs, Paragraphs) == [] then Unchanged
    else
      var centered := "center" in a.classes;
      var intro := "intro" in a.classes;
      Rendered(Element(a.(classes := BlockClasses(a.classes)), MapAttrs(cs, StyleParagraph(centered, intro))))
  }

  /** Decorating touches only class lists: the same nodes in the same order
      with the same text; every paragraph keeps its classes and gains
      `usa-prose`, `usa-intro` iff the block has `intro` and `text-center`
      iff it has `center`; every other element is as it was; the block
      gains `text-center` iff centered. */
  lemma DecorateOnlyAddsClasses(a: Attrs, cs: seq<Node>)
    requires Decorate(a, cs).Rendered?
    ensures var centered, intro := "center" in a.classes, "intro" in a.classes;
      var b := Decorate(a, cs).value;
      && Outline(Kids(b)) == Relabel(Outline(cs), StyleParagraph(centered, intro))
      && TextOf(Kids(b)) == TextOf(cs)
      && b.attrs == a.(classes := b.attrs.classes)
      && b.attrs.classes[..|a.classes|] == a.classes
      && ("text-center" in b.attrs.classes <==> centered || "text-center" in a.classes)
  {
    var centered, intro := "center" in a.classes, "intro" in a.classes;
    MapAttrsOutline(cs, StyleParagraph(centered, intro));
    MapAttrsText(cs, StyleParagraph(centered, intro));
  }

  /** What the rewrite does to one element. */
  lemma StyleParagraphCases(x: Attrs, centered: bool, intro: bool)
    ensures x.tag != "P" ==> StyleParagraph(centered, intro)(x) == x
    ensures x.tag == "P" ==>
      var y := StyleParagraph(centered, intro)(x);
      && y == x.(classes := y.classes)
      && y.classes[..|x.classes|] == x.classes
      && "usa-prose" in y.classes
      && ("usa-intro" in y.classes <==> intro || "usa-intro" in x.classes)
      && ("text-center" in y.classes <==> centered || "text-center" in x.classes)
  {
  }

  /** Decorating a decorated block again changes nothing. */
  lemma DecorateIdempotent(a: Attrs, cs: seq<Node>)
    requires Decorate(a, cs).Rendered?
    ensures var b := Decorate(a, cs).value; Decorate(b.attrs, Kids(b)) == Decorate(a, cs)
  {
    var centered, intro := "center" in a.classes, "intro" in a.classes;
    var f := StyleParagraph(centered, intro);
    var b := Decorate(a, cs).value;
    assert ("center" in b.attrs.classes) == centered;
    assert ("intro" in b.attrs.classes) == intro;
    forall x: Attrs ensures f(f(x)) == f(x) {
      if x.tag == "P" {
        var c1 := ParagraphClasses(x.classes, centered, intro);
        assert ParagraphClasses(c1, centered, intro) == c1;
      }
    }
    MapAttrsIdempotent(cs, f);
    assert QueryAll(Kids(b), Paragraphs) != [] by {
      ParagraphsSurvive(cs, f);
    }
    assert BlockClasses(b.attrs.classes) == b.attrs.classes;
  }

  /** A rewrite that keeps every tag keeps the block's
      paragraphs, so it has some exactly when it had some before. */
  lemma {:induction false} ParagraphsSurvive(ns: seq<Node>, f: Attrs -> Attrs)
    requires forall x :: f(x).tag == x.tag
    ensures (QueryAll(MapAttrs(ns, f), Paragraphs) == []) == (QueryAll(ns, Paragraphs) == [])
  {
    if ns != [] {
      var m := MapAttrs(ns, f);
      match ns[0] {
        case Text(_) =>
        case Element(_, kids) => ParagraphsSurvive(kids, f);
      }
      ParagraphsSurvive(ns[1..], f);
      assert m[0] == MapNode(ns[0], f) && m[1..] == MapAttrs(ns[1..], f);
      assert Kids(m[0]) == MapAttrs(Kids(ns[0]), f);
      QueryAllEmptyUnfold(ns, Paragraphs);
      QueryAllEmptyUnfold(m, Paragraphs);
      assert Matches(m[0], Paragraphs) == Matches(ns[0], Paragraphs);
    }
  }
}
