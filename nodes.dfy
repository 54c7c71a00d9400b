/** The nodes of the HTML tree (`HTMLNode`, `TagNode`, `DataNode` in
    html2tree.py), as values, and the document-order serialization of a tree
    back into a flat list of open/text/close marks. */
module Nodes {
  import opened PyStr

  /** The name of the synthetic root `TagNode`. */
  const RootTag: string := "root"

  /** A `TagNode` (name, attribute-token map, children in document order,
      closed flag, level) or a `DataNode` (stripped text and level). A data
      node is always closed, so it carries no flag. `level` is the depth below
      the synthetic root. */
  datatype Node =
    | Tag(tag: string, attrs: map<string, set<string>>, children: seq<Node>, closed: bool, level: nat)
    | Data(data: string, level: nat)
  {
    predicate IsClosed()
    {
      Data? || closed
    }
  }

  /** The token set of one attribute value: `set(value.split())`. */
  function TokenSet(value: string): set<string>
  {
    set t | t in Split(value)
  }

  /** The dictionary comprehension of `TagNode.__init__`: each attribute name
      maps to the token set of its value. */
  function AttrTokens(pairs: seq<(string, string)>): map<string, set<string>>
  {
    if pairs == [] then map[]
    else
      var last := pairs[|pairs| - 1];
      AttrTokens(pairs[..|pairs| - 1])[last.0 := TokenSet(last.1)]
  }

  /** The attribute map has exactly one key per attribute name given. */
  lemma {:induction false} AttrTokensKeys(pairs: seq<(string, string)>)
    ensures AttrTokens(pairs).Keys == (set i | 0 <= i < |pairs| :: pairs[i].0)
  {
    if pairs != [] {
      var init := pairs[..|pairs| - 1];
      var last := pairs[|pairs| - 1];
      AttrTokensKeys(init);
      var m := AttrTokens(pairs);
      forall k | k in m.Keys ensures k in (set i | 0 <= i < |pairs| :: pairs[i].0) {
        if k != last.0 {
          var i :| 0 <= i < |init| && init[i].0 == k;
          assert pairs[i].0 == k;
        }
      }
      forall i | 0 <= i < |pairs| ensures pairs[i].0 in m.Keys {
        if i < |init| { assert init[i] == pairs[i]; }
      }
    }
  }

  /** A repeated attribute name keeps the token set of its last pair. */
  lemma {:induction false} AttrTokensLastWins(pairs: seq<(string, string)>, i: nat)
    requires i < |pairs| && LastWithName(pairs, i)
    ensures pairs[i].0 in AttrTokens(pairs)
    ensures AttrTokens(pairs)[pairs[i].0] == TokenSet(pairs[i].1)
  {
    var init := pairs[..|pairs| - 1];
    if i < |init| {
      assert init[i] == pairs[i];
      assert LastWithName(init, i);
      AttrTokensLastWins(init, i);
    }
  }

  /** Every stored token is non-empty and free of whitespace. */
  lemma {:induction false} AttrTokensAreWords(pairs: seq<(string, string)>)
    ensures forall k, t | k in AttrTokens(pairs) && t in AttrTokens(pairs)[k] :: t != [] && NoSpace(t)
  {
    if pairs != [] {
      AttrTokensAreWords(pairs[..|pairs| - 1]);
    }
  }

  /** No later pair repeats the name of pair `i`. */
  predicate LastWithName(pairs: seq<(string, string)>, i: nat)
    requires i < |pairs|
  {
    forall j | i < j < |pairs| :: pairs[j].0 != pairs[i].0
  }

  /** A single word is its only token. */
  lemma OneWordTokens(a: string)
    requires a != [] && NoSpace(a)
    ensures TokenSet(a) == {a}
  {
    SplitWord(a);
  }

  /** Two words with a space between are two tokens. */
  lemma TwoWordTokens(a: string, b: string)
    requires a != [] && NoSpace(a) && b != [] && NoSpace(b)
    ensures TokenSet(a + " " + b) == {a, b}
  {
    SplitWord(a);
    SplitWord(b);
    SplitAroundSpace(a, b);
  }

  /** Two attributes; when the names agree, the second pair wins. */
  lemma TwoAttrTokens(k1: string, v1: string, k2: string, v2: string)
    ensures AttrTokens([(k1, v1), (k2, v2)]) == map[k1 := TokenSet(v1), k2 := TokenSet(v2)]
  {
    var ps := [(k1, v1), (k2, v2)];
    assert ps[..1] == [(k1, v1)];
    assert [(k1, v1)][..0] == [];
    assert AttrTokens([(k1, v1)]) == map[k1 := TokenSet(v1)];
    assert AttrTokens(ps) == AttrTokens(ps[..1])[k2 := TokenSet(v2)];
  }

  /** A freshly constructed `TagNode(tag, attrs=pairs)`. */
  function NewTagNode(tag: string, pairs: seq<(string, string)>): Node
  {
    Tag(tag, AttrTokens(pairs), [], false, 0)
  }

  /** A node whose whole subtree is closed, with every child exactly one level
      below its parent. */
  predicate Settled(n: Node)
  {
    match n
    case Data(_, _) => true
    case Tag(_, _, cs, closed, level) =>
      closed && forall i | 0 <= i < |cs| :: cs[i].level == level + 1 && Settled(cs[i])
  }

  /** One item of a document-order walk of a tree: the start of a tag node,
      a data node, or the end of a tag node. */
  datatype Mark = Open(name: string, tokens: map<string, set<string>>) | Leaf(text: string) | Close(name: string)

  /** The document-order walk of a subtree. */
  function Ser(n: Node): seq<Mark>
    decreases n, 1
  {
    match n
    case Data(d, _) => [Leaf(d)]
    case Tag(t, a, cs, _, _) => [Open(t, a)] + SerForest(cs) + [Close(t)]
  }

  /** The document-order walk of a list of sibling subtrees. */
  function SerForest(f: seq<Node>): seq<Mark>
    decreases f, 0
  {
    if f == [] then [] else SerForest(f[..|f| - 1]) + Ser(f[|f| - 1])
  }

  lemma SerForestSnoc(f: seq<Node>, n: Node)
    ensures SerForest(f + [n]) == SerForest(f) + Ser(n)
  {
    assert (f + [n])[..|f|] == f;
  }

  /** The nesting balance of a walk: opens minus closes. */
  function Depth(ms: seq<Mark>): int
  {
    if ms == [] then 0
    else (match ms[0] case Open(_, _) => 1 case Leaf(_) => 0 case Close(_) => -1) + Depth(ms[1..])
  }

  lemma {:induction false} DepthAppend(a: seq<Mark>, b: seq<Mark>)
    ensures Depth(a + b) == Depth(a) + Depth(b)
    decreases |a|
  {
    if a == [] {
      assert a + b == b;
    } else {
      assert (a + b)[1..] == a[1..] + b;
      DepthAppend(a[1..], b);
    }
  }

  /** The walk of a subtree is balanced. */
  lemma {:induction false} SerBalanced(n: Node)
    ensures Depth(Ser(n)) == 0
    decreases n, 1
  {
    match n
    case Data(_, _) =>
    case Tag(t, a, cs, _, _) =>
      SerForestBalanced(cs);
      DepthAppend([Open(t, a)] + SerForest(cs), [Close(t)]);
      DepthAppend([Open(t, a)], SerForest(cs));
  }

  lemma {:induction false} SerForestBalanced(f: seq<Node>)
    ensures Depth(SerForest(f)) == 0
    decreases f, 0
  {
    if f != [] {
      SerForestBalanced(f[..|f| - 1]);
      SerBalanced(f[|f| - 1]);
      DepthAppend(SerForest(f[..|f| - 1]), Ser(f[|f| - 1]));
    }
  }

  /** No tail of a walk closes less than it opens, and every proper, non-empty
      tail of a tag node's walk closes more than it opens. */
  lemma {:induction false} SerSuffix(n: Node, j: nat)
    requires j <= |Ser(n)|
    ensures Depth(Ser(n)[j..]) <= 0
    ensures n.Tag? && 0 < j < |Ser(n)| ==> Depth(Ser(n)[j..]) < 0
    decreases n, 1
  {
    match n
    case Data(_, _) =>
    case Tag(t, a, cs, _, _) =>
      var inner := SerForest(cs);
      var s := [Open(t, a)] + inner + [Close(t)];
      if j == 0 {
        SerBalanced(n);
      } else if j < |s| {
        DropConcat([Open(t, a)] + inner, [Close(t)], j);
        DropPast([Open(t, a)], inner, j);
        SerForestSuffix(cs, j - 1);
        DepthAppend(inner[j - 1..], [Close(t)]);
      } else {
        assert s[j..] == [];
      }
  }

  lemma {:induction false} SerForestSuffix(f: seq<Node>, j: nat)
    requires j <= |SerForest(f)|
    ensures Depth(SerForest(f)[j..]) <= 0
    decreases f, 0
  {
    if f != [] {
      var init, last := SerForest(f[..|f| - 1]), f[|f| - 1];
      if j <= |init| {
        DropConcat(init, Ser(last), j);
        SerForestSuffix(f[..|f| - 1], j);
        SerBalanced(last);
        DepthAppend(init[j..], Ser(last));
      } else {
        DropPast(init, Ser(last), j);
        SerSuffix(last, j - |init|);
      }
    }
  }

  /** Two walks that end alike end with walks of the same length: a shorter
      one would be a proper tail of a tag node's walk, which is unbalanced. */
  lemma SameLastWalk(a: seq<Mark>, n: Node, c: seq<Mark>, m: Node)
    requires a + Ser(n) == c + Ser(m)
    ensures |Ser(n)| == |Ser(m)|
  {
    var b, d := Ser(n), Ser(m);
    SerBalanced(n);
    SerBalanced(m);
    if |b| < |d| {
      CommonTail(a, b, c, d);
      SerSuffix(m, |d| - |b|);
      assert false;
    } else if |d| < |b| {
      CommonTail(c, d, a, b);
      SerSuffix(n, |b| - |d|);
      assert false;
    }
  }

  /** A settled subtree is determined by its walk and its level. */
  lemma {:induction false} WalkDeterminesNode(n: Node, m: Node, level: nat)
    requires n.level == level && m.level == level && Settled(n) && Settled(m)
    requires Ser(n) == Ser(m)
    ensures n == m
    decreases n, 1
  {
    assert Ser(n)[0] == Ser(m)[0];
    match n
    case Data(_, _) =>
    case Tag(t, a, cs, _, _) =>
      var ds := m.children;
      var k := |Ser(n)| - 1;
      assert Ser(n)[1..k] == SerForest(cs);
      assert Ser(m)[1..k] == SerForest(ds);
      WalkDeterminesForest(cs, ds, level + 1);
  }

  /** Only the empty forest has the empty walk. */
  lemma SerForestEmpty(f: seq<Node>)
    ensures SerForest(f) == [] <==> f == []
  {
    if f != [] {
      assert |Ser(f[|f| - 1])| > 0;
    }
  }

  /** A list of settled sibling subtrees at one level is determined by its
      walk. */
  lemma {:induction false} WalkDeterminesForest(f: seq<Node>, g: seq<Node>, level: nat)
    requires forall i | 0 <= i < |f| :: f[i].level == level && Settled(f[i])
    requires forall i | 0 <= i < |g| :: g[i].level == level && Settled(g[i])
    requires SerForest(f) == SerForest(g)
    ensures f == g
    decreases f, 0
  {
    if f == [] || g == [] {
      SerForestEmpty(f);
      SerForestEmpty(g);
      if f != g {
        assert false;
      }
    } else {
      var fi, n := f[..|f| - 1], f[|f| - 1];
      var gi, m := g[..|g| - 1], g[|g| - 1];
      var a, c := SerForest(fi), SerForest(gi);
      SameLastWalk(a, n, c, m);
      assert (a + Ser(n))[..|a|] == a;
      assert (c + Ser(m))[..|c|] == c;
      assert |a| == |c|;
      assert (a + Ser(n))[|a|..] == Ser(n);
      assert (c + Ser(m))[|c|..] == Ser(m);
      WalkDeterminesForest(fi, gi, level);
      WalkDeterminesNode(n, m, level);
      assert f == fi + [n];
      assert g == gi + [m];
    }
  }
}
