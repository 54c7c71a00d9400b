/** A reference reading of an event list, independent of the tree builder:
    what the builder must see (`Normalize`: void elements closed at once,
    their end tags dropped) and a scan that keeps only the names of the open
    elements (`Scan`). The builder's outcome is proved to be the scan's. */
module Scanner {
  import opened Nodes
  import opened Recorder

  /** The 16 void element names of `html_to_tree`. */
  const SelfClosingTags: seq<string> :=
    ["img", "area", "base", "br", "col", "command", "embed", "hr", "input",
     "keygen", "link", "menuitem", "meta", "param", "source", "wbr"]

  /** What one event contributes to the document-order walk of the tree the
      builder should produce: a void start tag opens and closes its element,
      a void end tag contributes nothing. */
  function NormOne(e: Event): seq<Mark>
  {
    match e
    case StartTag(t, a) =>
      if t in SelfClosingTags then [Open(t, AttrTokens(a)), Close(t)] else [Open(t, AttrTokens(a))]
    case Text(d) => [Leaf(d)]
    case EndTag(t) => if t in SelfClosingTags then [] else [Close(t)]
  }

  function Normalize(es: seq<Event>): seq<Mark>
  {
    if es == [] then [] else Normalize(es[..|es| - 1]) + NormOne(es[|es| - 1])
  }

  /** The state of a names-only scan: the names of the open elements below the
      root (outermost first), or one of the two ways a close can fail: a name
      that does not match, or a close of the root itself (`</root>`). */
  datatype ScanState = Scanning(open: seq<string>) | Mismatched | Stuck

  function Step(st: ScanState, m: Mark): ScanState
  {
    match st
    case Mismatched => st
    case Stuck => st
    case Scanning(open) =>
      match m
      case Open(t, _) => Scanning(open + [t])
      case Leaf(_) => st
      case Close(t) =>
        if open == [] then (if t == RootTag then Stuck else Mismatched)
        else if open[|open| - 1] == t then Scanning(open[..|open| - 1])
        else Mismatched
  }

  function Run(st: ScanState, ms: seq<Mark>): ScanState
  {
    if ms == [] then st else Step(Run(st, ms[..|ms| - 1]), ms[|ms| - 1])
  }

  function Scan(es: seq<Event>): ScanState
  {
    Run(Scanning([]), Normalize(es))
  }

  /** Scanning `a + b` scans `a`, then `b`. */
  lemma {:induction false} RunAppend(st: ScanState, a: seq<Mark>, b: seq<Mark>)
    ensures Run(st, a + b) == Run(Run(st, a), b)
    decreases |b|
  {
    if b != [] {
      assert (a + b)[..|a + b| - 1] == a + b[..|b| - 1];
      RunAppend(st, a, b[..|b| - 1]);
    } else {
      assert a + b == a;
    }
  }

  /** Once a scan fails it stays failed. */
  lemma {:induction false} RunFromFailure(st: ScanState, ms: seq<Mark>)
    requires !st.Scanning?
    ensures Run(st, ms) == st
  {
    if ms != [] {
      RunFromFailure(st, ms[..|ms| - 1]);
    }
  }

  lemma {:induction false} NormalizeAppend(a: seq<Event>, b: seq<Event>)
    ensures Normalize(a + b) == Normalize(a) + Normalize(b)
    decreases |b|
  {
    if b != [] {
      assert (a + b)[..|a + b| - 1] == a + b[..|b| - 1];
      NormalizeAppend(a, b[..|b| - 1]);
    } else {
      assert a + b == a;
    }
  }

  lemma NormalizeOne(e: Event)
    ensures Normalize([e]) == NormOne(e)
  {
    assert [e][..0] == [];
  }

  /** The walk of a data node is what its data event contributes. */
  lemma DataWalk(x: string, level: nat)
    ensures Ser(Data(x, level)) == Normalize([Text(x)])
  {
    NormalizeOne(Text(x));
  }

  /** A closed non-void element whose children walk through `es` walks
      through its start tag, `es` and its end tag. */
  lemma TagWalk(t: string, a: seq<(string, string)>, cs: seq<Node>, es: seq<Event>, level: nat)
    requires t !in SelfClosingTags && SerForest(cs) == Normalize(es)
    ensures Ser(Tag(t, AttrTokens(a), cs, true, level)) == Normalize([StartTag(t, a)] + es + [EndTag(t)])
  {
    NormalizeAppend([StartTag(t, a)] + es, [EndTag(t)]);
    NormalizeAppend([StartTag(t, a)], es);
    NormalizeOne(StartTag(t, a));
    NormalizeOne(EndTag(t));
  }

  /** A single subtree walks through the same events as its walk. */
  lemma SingleWalk(n: Node, es: seq<Event>)
    requires Ser(n) == Normalize(es)
    ensures SerForest([n]) == Normalize(es)
  {
    assert [n][..0] == [];
  }

  /** One more sibling appends its events. */
  lemma ForestWalkSnoc(f: seq<Node>, n: Node, es: seq<Event>, ns: seq<Event>)
    requires SerForest(f) == Normalize(es) && Ser(n) == Normalize(ns)
    ensures SerForest(f + [n]) == Normalize(es + ns)
  {
    SerForestSnoc(f, n);
    NormalizeAppend(es, ns);
  }

  /** Two siblings walk through their events in order. */
  lemma TwoWalk(a: Node, b: Node, ea: seq<Event>, eb: seq<Event>)
    requires Ser(a) == Normalize(ea) && Ser(b) == Normalize(eb)
    ensures SerForest([a, b]) == Normalize(ea + eb)
  {
    SingleWalk(a, ea);
    ForestWalkSnoc([a], b, ea, eb);
    assert [a] + [b] == [a, b];
  }

  /** Four siblings walk through their events in order. */
  lemma FourWalk(a: Node, b: Node, c: Node, d: Node, ea: seq<Event>, eb: seq<Event>, ec: seq<Event>, ed: seq<Event>)
    requires Ser(a) == Normalize(ea) && Ser(b) == Normalize(eb)
    requires Ser(c) == Normalize(ec) && Ser(d) == Normalize(ed)
    ensures SerForest([a, b, c, d]) == Normalize(ea + eb + ec + ed)
  {
    ThreeWalk(a, b, c, ea, eb, ec);
    ForestWalkSnoc([a, b, c], d, ea + eb + ec, ed);
    assert [a, b, c] + [d] == [a, b, c, d];
  }

  /** Three siblings walk through their events in order. */
  lemma ThreeWalk(a: Node, b: Node, c: Node, ea: seq<Event>, eb: seq<Event>, ec: seq<Event>)
    requires Ser(a) == Normalize(ea) && Ser(b) == Normalize(eb) && Ser(c) == Normalize(ec)
    ensures SerForest([a, b, c]) == Normalize(ea + eb + ec)
  {
    TwoWalk(a, b, ea, eb);
    ForestWalkSnoc([a, b], c, ea + eb, ec);
    assert [a, b] + [c] == [a, b, c];
  }

  /** Extending the event list by one event extends the scan by one step. */
  lemma ScanSnoc(es: seq<Event>, i: nat)
    requires i < |es|
    ensures Normalize(es[..i + 1]) == Normalize(es[..i]) + NormOne(es[i])
    ensures Scan(es[..i + 1]) == Run(Scan(es[..i]), NormOne(es[i]))
  {
    assert es[..i + 1][..i] == es[..i];
    RunAppend(Scanning([]), Normalize(es[..i]), NormOne(es[i]));
  }

  /** A failure on a prefix is the failure of the whole list. */
  lemma ScanKeepsFailure(es: seq<Event>, i: nat)
    requires i <= |es| && !Scan(es[..i]).Scanning?
    ensures Scan(es) == Scan(es[..i])
  {
    assert es == es[..i] + es[i..];
    NormalizeAppend(es[..i], es[i..]);
    RunAppend(Scanning([]), Normalize(es[..i]), Normalize(es[i..]));
    RunFromFailure(Scan(es[..i]), Normalize(es[i..]));
  }

  /** Completeness: the walk of any subtree scans cleanly and leaves the open
      names as they were; so every tree's walk is accepted. */
  lemma {:induction false} SerAccepted(n: Node, open: seq<string>)
    ensures Run(Scanning(open), Ser(n)) == Scanning(open)
    decreases n, 1
  {
    match n
    case Data(_, _) =>
      assert Ser(n) == [] + [Ser(n)[0]];
    case Tag(t, a, cs, _, _) =>
      var inner := [Open(t, a)] + SerForest(cs);
      assert Ser(n) == inner + [Close(t)];
      RunAppend(Scanning(open), [Open(t, a)], SerForest(cs));
      assert Run(Scanning(open), [Open(t, a)]) == Scanning(open + [t]) by {
        assert [Open(t, a)][..0] == [];
      }
      SerForestAccepted(cs, open + [t]);
      assert (open + [t])[..|open|] == open;
    }

  lemma {:induction false} SerForestAccepted(f: seq<Node>, open: seq<string>)
    ensures Run(Scanning(open), SerForest(f)) == Scanning(open)
    decreases f, 0
  {
    if f != [] {
      var init := f[..|f| - 1];
      SerForestAccepted(init, open);
      RunAppend(Scanning(open), SerForest(init), Ser(f[|f| - 1]));
      SerAccepted(f[|f| - 1], open);
    }
  }

  /** Number of non-void start tags and of non-void end tags in an event list. */
  function OpenCount(es: seq<Event>): nat
  {
    if es == [] then 0
    else OpenCount(es[..|es| - 1]) + OpenInc(es[|es| - 1])
  }

  function CloseCount(es: seq<Event>): nat
  {
    if es == [] then 0
    else CloseCount(es[..|es| - 1]) + CloseInc(es[|es| - 1])
  }

  function OpenInc(e: Event): nat
  {
    if e.StartTag? && e.tag !in SelfClosingTags then 1 else 0
  }

  function CloseInc(e: Event): nat
  {
    if e.EndTag? && e.tag !in SelfClosingTags then 1 else 0
  }

  /** One event moves the depth of a successful scan by its open/close counts. */
  lemma StepDepth(open: seq<string>, e: Event)
    requires Run(Scanning(open), NormOne(e)).Scanning?
    ensures |Run(Scanning(open), NormOne(e)).open| + CloseInc(e) == |open| + OpenInc(e)
  {
    match e
    case StartTag(t, a) =>
      if t !in SelfClosingTags {
        assert NormOne(e) == [] + [Open(t, AttrTokens(a))];
      } else {
        assert NormOne(e) == [Open(t, AttrTokens(a))] + [Close(t)];
        RunAppend(Scanning(open), [Open(t, AttrTokens(a))], [Close(t)]);
        assert [Open(t, AttrTokens(a))][..0] == [];
        assert (open + [t])[..|open|] == open;
      }
    case Text(d) =>
      assert NormOne(e) == [] + [Leaf(d)];
    case EndTag(t) =>
      if t !in SelfClosingTags {
        assert NormOne(e) == [] + [Close(t)];
      }
  }

  /** Balance: while the scan succeeds, the open elements are exactly the
      non-void start tags not yet matched by an end tag. */
  lemma {:induction false} ScanDepth(es: seq<Event>)
    requires Scan(es).Scanning?
    ensures |Scan(es).open| + CloseCount(es) == OpenCount(es)
  {
    if es != [] {
      var k := |es| - 1;
      ScanSnoc(es, k);
      assert es[..k + 1] == es;
      var before := Scan(es[..k]);
      if !before.Scanning? {
        RunFromFailure(before, NormOne(es[k]));
      } else {
        ScanDepth(es[..k]);
        StepDepth(before.open, es[k]);
      }
    }
  }

  /** On a list that scans back to no open element, every non-void start tag
      is matched by an end tag. */
  lemma Balanced(es: seq<Event>)
    requires Scan(es) == Scanning([])
    ensures OpenCount(es) == CloseCount(es)
  {
    ScanDepth(es);
  }

  lemma RunOne(st: ScanState, m: Mark)
    ensures Run(st, [m]) == Step(st, m)
  {
    assert [m][..0] == [];
  }

  /** A void element opens and closes at once, leaving the open names as they
      were. */
  lemma RunOpenClose(open: seq<string>, t: string, a: map<string, set<string>>)
    ensures Run(Scanning(open), [Open(t, a), Close(t)]) == Scanning(open)
  {
    RunAppend(Scanning(open), [Open(t, a)], [Close(t)]);
    RunOne(Scanning(open), Open(t, a));
    RunOne(Scanning(open + [t]), Close(t));
    assert [Open(t, a)] + [Close(t)] == [Open(t, a), Close(t)];
    assert (open + [t])[..|open|] == open;
  }

  /** Scanning one more event continues from the scan of the list so far. */
  lemma ScanStep(es: seq<Event>, e: Event)
    ensures Scan(es + [e]) == Run(Scan(es), NormOne(e))
  {
    assert (es + [e])[..|es|] == es;
    RunAppend(Scanning([]), Normalize(es), NormOne(e));
  }

  /** A non-void start tag pushes its name. */
  lemma ScanOpen(es: seq<Event>, t: string, a: seq<(string, string)>)
    requires t !in SelfClosingTags && Scan(es).Scanning?
    ensures Scan(es + [StartTag(t, a)]) == Scanning(Scan(es).open + [t])
  {
    ScanStep(es, StartTag(t, a));
    RunOne(Scan(es), Open(t, AttrTokens(a)));
  }

  /** A non-void end tag pops a matching name, and otherwise fails. */
  lemma ScanClose(es: seq<Event>, t: string)
    requires t !in SelfClosingTags && Scan(es).Scanning?
    ensures Scan(es + [EndTag(t)]) == Step(Scan(es), Close(t))
  {
    ScanStep(es, EndTag(t));
    RunOne(Scan(es), Close(t));
  }

  /** An element opened and closed by name leaves nothing open. */
  lemma PairScan(p: string, a: seq<(string, string)>)
    requires p !in SelfClosingTags
    ensures Scan([StartTag(p, a), EndTag(p)]) == Scanning([])
  {
    var e0, e1 := StartTag(p, a), EndTag(p);
    ScanOpen([], p, a);
    assert [] + [e0] == [e0];
    ScanClose([e0], p);
    assert [e0] + [e1] == [e0, e1];
    assert [p][..0] == [];
  }

  /** `<p></p></p>`, for any non-void name other than the root's: the extra
      end tag meets the root, whose name differs, so the scan (and the
      builder) reports a mismatch, not an excess close. */
  lemma ExtraCloseMismatches(p: string, a: seq<(string, string)>)
    requires p !in SelfClosingTags && p != RootTag
    ensures Scan([StartTag(p, a), EndTag(p), EndTag(p)]) == Mismatched
  {
    var es := [StartTag(p, a), EndTag(p)];
    PairScan(p, a);
    ScanClose(es, p);
    assert es + [EndTag(p)] == [StartTag(p, a), EndTag(p), EndTag(p)];
  }

  /** `<br></br>`, for any void name: its end tag is dropped. */
  lemma VoidEndTagIgnored(v: string, a: seq<(string, string)>)
    requires v in SelfClosingTags
    ensures Scan([StartTag(v, a), EndTag(v)]) == Scanning([])
  {
    var e0, e1 := StartTag(v, a), EndTag(v);
    ScanStep([], e0);
    RunOpenClose([], v, AttrTokens(a));
    assert [] + [e0] == [e0];
    ScanStep([e0], e1);
    assert [e0] + [e1] == [e0, e1];
  }

  /** `<img src=x.png></div>`, for any void name and any other name: the void
      element closes at once, so the end tag meets the root. */
  lemma VoidThenStrayClose(v: string, a: seq<(string, string)>, d: string)
    requires v in SelfClosingTags && d !in SelfClosingTags && d != RootTag
    ensures Scan([StartTag(v, a), EndTag(d)]) == Mismatched
  {
    var e0, e1 := StartTag(v, a), EndTag(d);
    ScanStep([], e0);
    RunOpenClose([], v, AttrTokens(a));
    assert [] + [e0] == [e0];
    ScanClose([e0], d);
    assert [e0] + [e1] == [e0, e1];
  }

  /** `<p></p></root>`, for any non-void name: the last end tag names the
      synthetic root, which the scan then closes. */
  lemma RootEndTagSticks(p: string, a: seq<(string, string)>)
    requires p !in SelfClosingTags
    ensures Scan([StartTag(p, a), EndTag(p), EndTag(RootTag)]) == Stuck
  {
    var es := [StartTag(p, a), EndTag(p)];
    PairScan(p, a);
    assert RootTag !in SelfClosingTags;
    ScanClose(es, RootTag);
    assert es + [EndTag(RootTag)] == [StartTag(p, a), EndTag(p), EndTag(RootTag)];
  }

  /** Two non-void start tags leave both names open. */
  lemma TwoOpen(d: string, f: string)
    requires d !in SelfClosingTags && f !in SelfClosingTags
    ensures Scan([StartTag(d, []), StartTag(f, [])]) == Scanning([d, f])
  {
    var e0, e1 := StartTag(d, []), StartTag(f, []);
    ScanOpen([], d, []);
    assert [] + [e0] == [e0];
    ScanOpen([e0], f, []);
    assert [e0] + [e1] == [e0, e1];
  }

  /** `<div><footer>footer text</footer>`, for any two non-void names: the
      outer element is still open at the end. */
  lemma UnclosedStaysOpen(d: string, f: string, x: string)
    requires d !in SelfClosingTags && f !in SelfClosingTags
    ensures Scan([StartTag(d, []), StartTag(f, []), Text(x), EndTag(f)]) == Scanning([d])
  {
    var es := [StartTag(d, []), StartTag(f, [])];
    TwoOpen(d, f);
    ScanStep(es, Text(x));
    RunOne(Scanning([d, f]), Leaf(x));
    var es2 := es + [Text(x)];
    ScanClose(es2, f);
    assert [d, f][..1] == [d];
    assert es2 + [EndTag(f)] == [StartTag(d, []), StartTag(f, []), Text(x), EndTag(f)];
  }
}
