/** `pure_text`: the text of a node is the space-join of its children's
    texts; the text of a tree is its root's text with every whitespace run
    collapsed to one space and the ends trimmed. */
module Text {
  import opened PyStr
  import opened Nodes

  /** `TagNode.pure_text` / `DataNode.pure_text` */
  function PureText(n: Node): string
    decreases n, 1
  {
    match n
    case Data(d, _) => d
    case Tag(_, _, cs, _, _) => JoinSpace(ChildTexts(cs))
  }

  /** `[c.pure_text() for c in children]` */
  function ChildTexts(f: seq<Node>): (ts: seq<string>)
    ensures |ts| == |f|
    ensures forall i | 0 <= i < |f| :: ts[i] == PureText(f[i])
    decreases f, 0
  {
    if f == [] then [] else ChildTexts(f[..|f| - 1]) + [PureText(f[|f| - 1])]
  }

  /** The whitespace-free words of a subtree, in document order: a reference
      reading of the text that does not go through any join or regex. */
  function Words(n: Node): seq<string>
    decreases n, 1
  {
    match n
    case Data(d, _) => Split(d)
    case Tag(_, _, cs, _, _) => ForestWords(cs)
  }

  function ForestWords(f: seq<Node>): seq<string>
    decreases f, 0
  {
    if f == [] then [] else ForestWords(f[..|f| - 1]) + Words(f[|f| - 1])
  }

  predicate AreWords(ws: seq<string>)
  {
    forall i | 0 <= i < |ws| :: ws[i] != [] && NoSpace(ws[i])
  }

  /** The shape of the text `HTMLTree.pure_text` returns: no whitespace at
      either end, and every whitespace character is a plain space standing
      alone between two non-whitespace characters. */
  predicate Normal(s: string)
  {
    forall i | 0 <= i < |s| :: IsSpace(s[i]) ==>
      s[i] == ' ' && 0 < i < |s| - 1 && !IsSpace(s[i - 1]) && !IsSpace(s[i + 1])
  }

  /** `HTMLTree.pure_text` on the tree whose root is `root`. */
  function TreeText(root: Node): string
  {
    Strip(Collapse(PureText(root)))
  }

  /** The tree text is exactly the words of the tree, in document order,
      joined by single spaces; so it is in normal form, and splitting it gives
      the words back. */
  lemma TreeTextShape(root: Node)
    ensures TreeText(root) == JoinSpace(Words(root))
    ensures Split(TreeText(root)) == Words(root)
    ensures Normal(TreeText(root))
  {
    CollapseStripIsJoinSplit(PureText(root));
    PureTextWords(root);
    WordsAreWords(root);
    SplitJoinWords(Words(root));
    JoinWordsNormal(Words(root));
  }

  lemma {:induction false} SplitAllSnoc(xs: seq<string>, x: string)
    ensures SplitAll(xs + [x]) == SplitAll(xs) + Split(x)
    decreases |xs|
  {
    if xs == [] {
      assert SplitAll([x]) == Split(x) + SplitAll([]);
    } else {
      assert (xs + [x])[1..] == xs[1..] + [x];
      SplitAllSnoc(xs[1..], x);
    }
  }

  /** Splitting a node's text gives its words: the joins add only single
      spaces between texts, which splitting discards. */
  lemma {:induction false} PureTextWords(n: Node)
    ensures Split(PureText(n)) == Words(n)
    decreases n, 1
  {
    match n
    case Data(_, _) =>
    case Tag(_, _, cs, _, _) =>
      SplitJoin(ChildTexts(cs));
      ChildTextsWords(cs);
  }

  lemma {:induction false} ChildTextsWords(f: seq<Node>)
    ensures SplitAll(ChildTexts(f)) == ForestWords(f)
    decreases f, 0
  {
    if f != [] {
      var init := f[..|f| - 1];
      ChildTextsWords(init);
      PureTextWords(f[|f| - 1]);
      SplitAllSnoc(ChildTexts(init), PureText(f[|f| - 1]));
    }
  }

  lemma {:induction false} WordsAreWords(n: Node)
    ensures AreWords(Words(n))
    decreases n, 1
  {
    match n
    case Data(_, _) =>
    case Tag(_, _, cs, _, _) =>
      ForestWordsAreWords(cs);
  }

  lemma {:induction false} ForestWordsAreWords(f: seq<Node>)
    ensures AreWords(ForestWords(f))
    decreases f, 0
  {
    if f != [] {
      ForestWordsAreWords(f[..|f| - 1]);
      WordsAreWords(f[|f| - 1]);
    }
  }

  /** Joining words by single spaces gives a normal text that starts with the
      first word and ends with the last. */
  lemma {:induction false} JoinWordsNormal(ws: seq<string>)
    requires AreWords(ws)
    ensures Normal(JoinSpace(ws))
    ensures ws != [] ==> |JoinSpace(ws)| >= |ws[0]| && JoinSpace(ws)[..|ws[0]|] == ws[0]
    ensures ws != [] ==> JoinSpace(ws) != [] && !IsSpace(JoinSpace(ws)[|JoinSpace(ws)| - 1])
  {
    if |ws| == 1 {
    } else if |ws| > 1 {
      var w := ws[0];
      var rest := JoinSpace(ws[1..]);
      JoinWordsNormal(ws[1..]);
      var s := JoinSpace(ws);
      assert s == w + " " + rest;
      assert rest[0] == ws[1][0];
      forall i | 0 <= i < |s| && IsSpace(s[i])
        ensures s[i] == ' ' && 0 < i < |s| - 1 && !IsSpace(s[i - 1]) && !IsSpace(s[i + 1])
      {
        if i > |w| {
          assert s[i] == rest[i - |w| - 1];
          if i - |w| - 1 > 0 {
            assert s[i - 1] == rest[i - |w| - 2];
          }
          if i - |w| - 1 < |rest| - 1 {
            assert s[i + 1] == rest[i - |w|];
          }
        }
      }
      assert s[..|w|] == w;
    }
  }

  /** Every whitespace character is a plain space followed by
      non-whitespace: the form `re.sub(r'\s+', ' ', s)` leaves alone. */
  predicate SingleSpaced(s: string)
  {
    forall i | 0 <= i < |s| :: IsSpace(s[i]) ==> s[i] == ' ' && i + 1 < |s| && !IsSpace(s[i + 1])
  }

  lemma {:induction false} CollapseSingle(s: string)
    requires SingleSpaced(s)
    ensures Collapse(s) == s
    decreases |s|
  {
    if s != [] {
      var t := s[1..];
      forall i | 0 <= i < |t|
        ensures IsSpace(t[i]) ==> t[i] == ' ' && i + 1 < |t| && !IsSpace(t[i + 1])
      {
        assert t[i] == s[i + 1];
        if i + 1 < |t| {
          assert t[i + 1] == s[i + 2];
        }
      }
      CollapseSingle(t);
      assert s == [s[0]] + t;
      if IsSpace(s[0]) {
        assert TrimLeft(t) == t;
      }
    }
  }

  /** Text already in normal form is left unchanged by the normaliser, so
      normalising is idempotent. */
  lemma NormalFixed(s: string)
    requires Normal(s)
    ensures Strip(Collapse(s)) == s
  {
    CollapseSingle(s);
    if s != [] {
      assert !IsSpace(s[0]) && !IsSpace(s[|s| - 1]);
      assert TrimLeft(s) == s;
      assert TrimRight(s) == s;
    }
  }

  /** A tree whose joined text is already normal has that text as its text. */
  lemma NormalTreeText(root: Node, d: string)
    requires PureText(root) == d && Normal(d)
    ensures TreeText(root) == d
  {
    NormalFixed(d);
  }

  /** Normalising the text of a tree a second time changes nothing. */
  lemma TreeTextIdempotent(root: Node)
    ensures Strip(Collapse(TreeText(root))) == TreeText(root)
  {
    TreeTextShape(root);
    NormalFixed(TreeText(root));
  }

  /** A tag node with one child has that child's text. */
  lemma SoleChildText(n: Node)
    requires n.Tag? && |n.children| == 1
    ensures PureText(n) == PureText(n.children[0])
  {
    assert n.children[..0] == [];
  }

  /** A tag node with three children joins their three texts. */
  lemma ThreeChildText(n: Node)
    requires n.Tag? && |n.children| == 3
    ensures var cs := n.children;
      PureText(n) == PureText(cs[0]) + " " + PureText(cs[1]) + " " + PureText(cs[2])
  {
    var cs := n.children;
    var a, b, c := PureText(cs[0]), PureText(cs[1]), PureText(cs[2]);
    assert cs[..1][..0] == [];
    assert ChildTexts(cs[..1]) == [a];
    assert cs[..2][..1] == cs[..1];
    assert ChildTexts(cs[..2]) == [a, b];
    assert cs[..3] == cs;
    var ts := ChildTexts(cs);
    assert ts == [a, b, c];
    assert ts[1..] == [b, c] && ts[1..][1..] == [c];
    assert JoinSpace(ts[1..][1..]) == c;
    assert JoinSpace(ts[1..]) == b + " " + c;
    assert JoinSpace(ts) == a + " " + JoinSpace(ts[1..]);
    Concat3(a + " ", b, " " + c);
    Concat3(a + " " + b, " ", c);
    Concat3(a, " ", b + " " + c);
    Concat3(b, " ", c);
  }
}
