/** Worked examples: the two pages of `unit_test`. For each page the events
    the recorder keeps are written out (whitespace-only data is not recorded),
    the builder is shown to build exactly the tree given here, and that tree
    is pruned with the default lists and flattened to text.
    Several lemmas take the concrete tree or text as a parameter fixed by
    their `requires` instead of naming the literal in their `ensures`: a
    literal there is unfolded by the verifier in every proof obligation. */
module Scenarios {
  import opened PyStr
  import opened Nodes
  import opened Recorder
  import opened Scanner
  import opened HtmlTree
  import opened Prune
  import opened Text

  /** The events of one element: its start tag, its content, its end tag. */
  function Element(t: string, a: seq<(string, string)>, content: seq<Event>): seq<Event>
  {
    [StartTag(t, a)] + content + [EndTag(t)]
  }

  /** `<div>This is a test text.</div>` */
  function TestEvents(): seq<Event>
  {
    Element("div", [], [Text("This is a test text.")])
  }

  function TestTree(): Node
  {
    Tag(RootTag, map[], [Tag("div", map[], [Data("This is a test text.", 2)], true, 1)], true, 0)
  }

  /** The tree given for the first page walks through its events. */
  lemma TestTreeWalk()
    ensures Settled(TestTree())
    ensures SerForest(TestTree().children) == Normalize(TestEvents())
  {
    var d := "This is a test text.";
    DataWalk(d, 2);
    SingleWalk(Data(d, 2), [Text(d)]);
    assert "div" !in SelfClosingTags;
    TagWalk("div", [], [Data(d, 2)], [Text(d)], 1);
    SingleWalk(TestTree().children[0], TestEvents());
  }

  /** `html_to_tree` builds exactly that tree from the first page. */
  method BuildTestPage() returns (r: BuildResult)
    ensures r == Built(TestTree())
  {
    r := HtmlToTree(TestEvents());
    TestTreeWalk();
    SerForestAccepted(TestTree().children, []);
    WalkDeterminesForest(r.root.children, TestTree().children, 1);
  }

  /** Five words joined by single spaces are in normal form. */
  lemma FiveWordsNormal(a: string, b: string, c: string, d: string, e: string)
    requires AreWords([a, b, c, d, e])
    ensures Normal(a + " " + (b + " " + (c + " " + (d + " " + e))))
  {
    var ws := [a, b, c, d, e];
    JoinWordsNormal(ws);
    assert ws[1..][1..][1..][1..] == [e];
    assert JoinSpace(ws[1..][1..][1..]) == d + " " + e;
    assert JoinSpace(ws[1..][1..]) == c + " " + (d + " " + e);
    assert JoinSpace(ws[1..]) == b + " " + (c + " " + (d + " " + e));
  }

  lemma SentenceWords()
    ensures AreWords(["This", "is", "a", "test", "text."])
  {
  }

  lemma SentenceJoin(d: string)
    requires d == "This is a test text."
    ensures "This" + " " + ("is" + " " + ("a" + " " + ("test" + " " + "text."))) == d
  {
    assert "test" + " " + "text." == "test text.";
    assert "a" + " " + "test text." == "a test text.";
    assert "is" + " " + "a test text." == "is a test text.";
  }

  /** The sentence of the first page is in normal form. */
  lemma SentenceNormal(d: string)
    requires d == "This is a test text."
    ensures Normal(d)
  {
    SentenceWords();
    FiveWordsNormal("This", "is", "a", "test", "text.");
    SentenceJoin(d);
  }

  /** Its text is the data itself. */
  lemma TestTreeText(t: Node, d: string)
    requires t == TestTree() && d == "This is a test text."
    ensures TreeText(t) == d
  {
    SoleChildText(t);
    SoleChildText(t.children[0]);
    SentenceNormal(d);
    NormalTreeText(t, d);
  }

  /** Pruning it with the default lists leaves it unchanged. */
  lemma TestTreeClean()
    ensures CleanRoot(TestTree(), DefaultTagsDelete, DefaultAttrsDelete) == TestTree()
  {
    var div := Tag("div", map[], [Data("This is a test text.", 2)], true, 1);
    assert "div" !in DefaultTagsDelete && RootTag !in DefaultTagsDelete;
    assert Pruned(div, DefaultTagsDelete, DefaultAttrsDelete);
    assert Pruned(TestTree(), DefaultTagsDelete, DefaultAttrsDelete);
    PrunedIsFixed(TestTree(), DefaultTagsDelete, DefaultAttrsDelete);
  }

  /** The attributes of the header block, `id = "menu head" class = "menu"`. */
  function HeaderPairs(): seq<(string, string)>
  {
    [("id", "menu head"), ("class", "menu")]
  }

  /** The second page, after the `\/` rewrite:
      `<div id = "menu head" class = "menu">` `<div>in header</div>` `</div>`
      `<div>text1<div>text2</div><footer>footer text</footer>text3</div>`,
      with whitespace-only data between the blocks. */
  function MenuEvents(): seq<Event>
  {
    MenuHeaderEvents() + MenuBodyEvents()
  }

  function MenuHeaderEvents(): seq<Event>
  {
    Element("div", HeaderPairs(), Element("div", [], [Text("in header")]))
  }

  function MenuBodyEvents(): seq<Event>
  {
    Element("div", [], MenuBodyContent())
  }

  function MenuBodyContent(): seq<Event>
  {
    [Text("text1")] + MenuInnerEvents() + MenuFooterEvents() + [Text("text3")]
  }

  function MenuInnerEvents(): seq<Event>
  {
    Element("div", [], [Text("text2")])
  }

  function MenuFooterEvents(): seq<Event>
  {
    Element("footer", [], [Text("footer text")])
  }

  /** The tree of the second page: a header block (a `div` with `id` and
      `class`), then a body `div` holding text, a nested `div`, a `footer`
      and more text. */
  function MenuPage(): Node
  {
    Tag(RootTag, map[], [MenuHeader(), MenuBody()], true, 0)
  }

  function MenuHeader(): Node
  {
    Tag("div", map["id" := {"menu", "head"}, "class" := {"menu"}],
      [Tag("div", map[], [Data("in header", 3)], true, 2)], true, 1)
  }

  function MenuBody(): Node
  {
    Tag("div", map[], [Data("text1", 2), MenuInner(), MenuFooter(), Data("text3", 2)], true, 1)
  }

  function MenuInner(): Node
  {
    Tag("div", map[], [Data("text2", 3)], true, 2)
  }

  function MenuFooter(): Node
  {
    Tag("footer", map[], [Data("footer text", 3)], true, 2)
  }

  lemma MenuHeadTokens(v: string)
    requires v == "menu head"
    ensures TokenSet(v) == {"menu", "head"}
  {
    TwoWordTokens("menu", "head");
    assert "menu" + " " + "head" == v;
  }

  /** `id` gets the two tokens of its value, `class` its one token. */
  lemma HeaderAttrTokens()
    ensures AttrTokens(HeaderPairs()) == MenuHeader().attrs
  {
    TwoAttrTokens("id", "menu head", "class", "menu");
    MenuHeadTokens("menu head");
    OneWordTokens("menu");
  }

  /** A closed element holding one data node walks through its events. */
  lemma LeafElementWalk(t: string, x: string, level: nat)
    requires t !in SelfClosingTags
    ensures Ser(Tag(t, map[], [Data(x, level + 1)], true, level)) == Normalize(Element(t, [], [Text(x)]))
  {
    DataWalk(x, level + 1);
    SingleWalk(Data(x, level + 1), [Text(x)]);
    TagWalk(t, [], [Data(x, level + 1)], [Text(x)], level);
  }

  lemma MenuHeaderWalk()
    ensures Ser(MenuHeader()) == Normalize(MenuHeaderEvents())
  {
    var inner := Tag("div", map[], [Data("in header", 3)], true, 2);
    assert "div" !in SelfClosingTags;
    LeafElementWalk("div", "in header", 2);
    SingleWalk(inner, Element("div", [], [Text("in header")]));
    HeaderAttrTokens();
    TagWalk("div", HeaderPairs(), [inner], Element("div", [], [Text("in header")]), 1);
  }

  lemma MenuBodyWalk()
    ensures Ser(MenuBody()) == Normalize(MenuBodyEvents())
  {
    assert "div" !in SelfClosingTags && "footer" !in SelfClosingTags;
    DataWalk("text1", 2);
    LeafElementWalk("div", "text2", 2);
    LeafElementWalk("footer", "footer text", 2);
    DataWalk("text3", 2);
    FourWalk(Data("text1", 2), MenuInner(), MenuFooter(), Data("text3", 2),
      [Text("text1")], MenuInnerEvents(), MenuFooterEvents(), [Text("text3")]);
    TagWalk("div", [], MenuBody().children, MenuBodyContent(), 1);
  }

  /** The tree given for the second page walks through its events. */
  lemma MenuPageWalk()
    ensures SerForest(MenuPage().children) == Normalize(MenuEvents())
  {
    MenuHeaderWalk();
    MenuBodyWalk();
    TwoWalk(MenuHeader(), MenuBody(), MenuHeaderEvents(), MenuBodyEvents());
  }

  lemma MenuPageSettled()
    ensures Settled(MenuPage())
  {
    assert Settled(MenuHeader().children[0]);
    assert Settled(MenuHeader());
    assert Settled(MenuInner()) && Settled(MenuFooter());
    assert Settled(MenuBody());
  }

  /** `html_to_tree` builds exactly that tree from the second page. */
  method BuildMenuPage() returns (r: BuildResult)
    ensures r == Built(MenuPage())
  {
    r := HtmlToTree(MenuEvents());
    MenuPageWalk();
    MenuPageSettled();
    SerForestAccepted(MenuPage().children, []);
    WalkDeterminesForest(r.root.children, MenuPage().children, 1);
  }

  /** The same page once the default lists have pruned the header block and
      the footer. */
  function MenuPageCleaned(): Node
  {
    Tag(RootTag, map[], [MenuBodyCleaned()], true, 0)
  }

  function MenuBodyCleaned(): Node
  {
    Tag("div", map[], [Data("text1", 2), MenuInner(), Data("text3", 2)], true, 1)
  }

  /** The header block goes for its `id` alone. */
  lemma HeaderDropped()
    ensures Clean(MenuHeader(), DefaultTagsDelete, DefaultAttrsDelete) == None
  {
    assert "menu" in Tokens(MenuHeader().attrs, "id");
  }

  /** The footer goes for its name. */
  lemma FooterDropped()
    ensures Clean(MenuFooter(), DefaultTagsDelete, DefaultAttrsDelete) == None
  {
    assert "footer" in DefaultTagsDelete;
  }

  lemma InnerKept()
    ensures Clean(MenuInner(), DefaultTagsDelete, DefaultAttrsDelete) == Some(MenuInner())
  {
    assert "div" !in DefaultTagsDelete;
    assert Pruned(MenuInner(), DefaultTagsDelete, DefaultAttrsDelete);
    PrunedIsFixed(MenuInner(), DefaultTagsDelete, DefaultAttrsDelete);
  }

  /** The body keeps its text and the nested `div`, and loses the footer. */
  lemma BodyCleaned()
    ensures Clean(MenuBody(), DefaultTagsDelete, DefaultAttrsDelete) == Some(MenuBodyCleaned())
  {
    var td, ad := DefaultTagsDelete, DefaultAttrsDelete;
    var bs := MenuBody().children;
    InnerKept();
    FooterDropped();
    assert "div" !in td;
    assert bs[..1][..0] == [];
    assert CleanForest(bs[..1], td, ad) == [bs[0]];
    assert bs[..2][..1] == bs[..1];
    assert CleanForest(bs[..2], td, ad) == [bs[0], MenuInner()];
    assert bs[..3][..2] == bs[..2];
    assert CleanForest(bs[..3], td, ad) == [bs[0], MenuInner()];
    assert bs[..4] == bs;
    assert CleanForest(bs, td, ad) == [bs[0], MenuInner(), bs[3]];
  }

  /** Pruning the second page with the default lists drops the header block
      and the footer and keeps the rest. */
  lemma MenuPageClean(page: Node, cleaned: Node)
    requires page == MenuPage() && cleaned == MenuPageCleaned()
    ensures CleanRoot(page, DefaultTagsDelete, DefaultAttrsDelete) == cleaned
  {
    var td, ad := DefaultTagsDelete, DefaultAttrsDelete;
    var ps := page.children;
    HeaderDropped();
    BodyCleaned();
    assert RootTag !in td;
    assert ps[..1][..0] == [];
    assert CleanForest(ps[..1], td, ad) == [];
    assert ps[..2] == ps;
    assert CleanForest(ps, td, ad) == [MenuBodyCleaned()];
  }

  /** The pruned page's text joins its three remaining data nodes. */
  lemma MenuPagePureText(cleaned: Node)
    requires cleaned == MenuPageCleaned()
    ensures PureText(cleaned) == "text1" + " " + "text2" + " " + "text3"
  {
    SoleChildText(cleaned);
    ThreeChildText(MenuBodyCleaned());
    SoleChildText(MenuInner());
  }

  /** Three words joined by single spaces are in normal form. */
  lemma ThreeWordsNormal(a: string, b: string, c: string)
    requires AreWords([a, b, c])
    ensures Normal(a + " " + b + " " + c)
  {
    var ws := [a, b, c];
    JoinWordsNormal(ws);
    assert ws[1..][1..] == [c];
    assert JoinSpace(ws[1..]) == b + " " + c;
    Concat3(a + " ", b, " " + c);
    Concat3(a, " ", b);
  }

  /** The text the pruned page should have is in normal form. */
  lemma MenuTextNormal(d: string)
    requires d == "text1 text2 text3"
    ensures d == "text1" + " " + "text2" + " " + "text3" && Normal(d)
  {
    ThreeWordsNormal("text1", "text2", "text3");
    assert "text1" + " " + "text2" == "text1 text2";
    assert "text1 text2" + " " + "text3" == d;
  }

  /** Its text keeps the three data nodes outside the pruned parts. */
  lemma MenuPageText(cleaned: Node, d: string)
    requires cleaned == MenuPageCleaned() && d == "text1 text2 text3"
    ensures TreeText(cleaned) == d
  {
    MenuPagePureText(cleaned);
    MenuTextNormal(d);
    NormalTreeText(cleaned, d);
  }
}
