/** `HTMLTree` and its `html_to_tree` driver: a state machine that turns the
    recorded events into a tree. The tree under construction is kept as a
    stack of open frames: `path` holds the open ancestors of `pointer`, root
    first, and an open node joins its parent's children, as the last child,
    when it is closed. */
module HtmlTree {
  import opened Nodes
  import opened Recorder
  import opened Scanner
  import opened Prune

  /** The three exceptions the builder raises, told apart by their messages. */
  datatype BuildError = MoreClosingTags | TagMismatch | RootNotClosed
  {
    function Message(): string
    {
      match this
      case MoreClosingTags => "More closing tags than starting tags."
      case TagMismatch => "Closing tag doesn't match starting tag."
      case RootNotClosed => "Tree root node not closed."
    }
  }

  /** How a call of a tree method ends: normally, with an exception, or never
      (`get()` on an empty `LifoQueue` blocks forever). */
  datatype Status = Done | Raised(error: BuildError) | Blocked

  /** How `html_to_tree` ends: with the root of the finished tree, with an
      exception, or never. */
  datatype BuildResult = Built(root: Node) | Failed(error: BuildError) | Hangs

  /** A new tree's root: `TagNode('root')`. */
  function RootNode(): Node
  {
    Tag(RootTag, map[], [], false, 0)
  }

  /** `parent.add_child(child)` */
  function Plug(parent: Node, child: Node): Node
    requires parent.Tag?
  {
    parent.(children := parent.children + [child])
  }

  /** Frame `i` of the stack: a tag node at level `i` whose children are
      settled subtrees one level below it. */
  predicate FrameOk(f: Node, i: nat)
  {
    && f.Tag?
    && f.level == i
    && forall k | 0 <= k < |f.children| :: f.children[k].level == i + 1 && Settled(f.children[k])
  }

  predicate AllTags(fs: seq<Node>)
  {
    forall i | 0 <= i < |fs| :: fs[i].Tag?
  }

  /** Every frame of the stack sits at its depth. */
  predicate FramesOk(fs: seq<Node>)
  {
    forall i | 0 <= i < |fs| :: FrameOk(fs[i], i)
  }

  /** No frame of the stack has been closed. */
  predicate AllOpen(fs: seq<Node>)
  {
    forall i | 0 <= i < |fs| :: fs[i].Tag? && !fs[i].closed
  }

  /** A new empty frame one level below the top keeps the stack in shape. */
  lemma PushFrames(fs: seq<Node>, c: Node)
    requires FramesOk(fs) && c.Tag? && c.children == [] && c.level == |fs|
    ensures FramesOk(fs + [c])
    ensures AllOpen(fs) && !c.closed ==> AllOpen(fs + [c])
  {
    assert forall i | 0 <= i < |fs| :: (fs + [c])[i] == fs[i];
  }

  /** A settled child one level below the top frame keeps the stack in shape. */
  lemma PlugFrames(ps: seq<Node>, f: Node, c: Node)
    requires f.Tag? && FramesOk(ps + [f]) && c.level == |ps| + 1 && Settled(c)
    ensures FramesOk(ps + [Plug(f, c)])
    ensures AllOpen(ps + [f]) ==> AllOpen(ps + [Plug(f, c)])
  {
    assert FrameOk((ps + [f])[|ps|], |ps|);
    assert forall i | 0 <= i < |ps| :: (ps + [Plug(f, c)])[i] == (ps + [f])[i];
  }

  /** Closing the top frame in place keeps the stack in shape. */
  lemma CloseFrame(ps: seq<Node>, f: Node)
    requires f.Tag? && FramesOk(ps + [f])
    ensures FramesOk(ps + [f.(closed := true)])
  {
    assert FrameOk((ps + [f])[|ps|], |ps|);
    assert forall i | 0 <= i < |ps| :: (ps + [f.(closed := true)])[i] == (ps + [f])[i];
  }

  /** Closing the top frame and appending it to the frame below keeps the
      stack in shape. */
  lemma PopFrames(ps: seq<Node>, p: Node, q: Node)
    requires FramesOk(ps + [p, q])
    ensures p.Tag? && q.Tag? && AllTags(ps)
    ensures FramesOk(ps + [Plug(p, q.(closed := true))])
    ensures AllOpen(ps + [p, q]) ==> AllOpen(ps + [Plug(p, q.(closed := true))])
  {
    var fs := ps + [p, q];
    assert FrameOk(fs[|ps|], |ps|) && FrameOk(fs[|ps| + 1], |ps| + 1);
    assert forall i | 0 <= i < |ps| :: fs[i] == ps[i];
    assert fs[..|ps| + 1] == ps + [p];
    var q' := q.(closed := true);
    assert Settled(q');
    PlugFrames(ps, p, q');
  }

  function TagNames(fs: seq<Node>): (ns: seq<string>)
    requires AllTags(fs)
  {
    seq(|fs|, i requires 0 <= i < |fs| && fs[i].Tag? => fs[i].tag)
  }

  /** The document-order walk of everything the open frames hold so far: the
      root's finished children, then for each deeper frame its start and its
      finished children. */
  ghost function SerFrames(fs: seq<Node>): seq<Mark>
    requires fs != [] && AllTags(fs)
  {
    if |fs| == 1 then SerForest(fs[0].children)
    else
      var f := fs[|fs| - 1];
      SerFrames(fs[..|fs| - 1]) + [Open(f.tag, f.attrs)] + SerForest(f.children)
  }

  lemma SerFramesPush(fs: seq<Node>, n: Node)
    requires fs != [] && AllTags(fs) && n.Tag? && n.children == []
    ensures AllTags(fs + [n])
    ensures SerFrames(fs + [n]) == SerFrames(fs) + [Open(n.tag, n.attrs)]
  {
    assert (fs + [n])[..|fs|] == fs;
  }

  /** Appending a child to the innermost frame `f` appends the child's walk. */
  lemma SerFramesPlug(ps: seq<Node>, f: Node, c: Node)
    requires AllTags(ps) && f.Tag?
    ensures AllTags(ps + [f]) && AllTags(ps + [Plug(f, c)])
    ensures SerFrames(ps + [Plug(f, c)]) == SerFrames(ps + [f]) + Ser(c)
  {
    if ps == [] {
      SerFramesPlugBottom(f, c);
    } else {
      SerFramesPlugAbove(ps, f, c);
    }
  }

  lemma SerFramesPlugBottom(f: Node, c: Node)
    requires f.Tag?
    ensures SerFrames([Plug(f, c)]) == SerFrames([f]) + Ser(c)
  {
    SerForestSnoc(f.children, c);
  }

  lemma SerFramesPlugAbove(ps: seq<Node>, f: Node, c: Node)
    requires AllTags(ps) && f.Tag? && ps != []
    ensures AllTags(ps + [f]) && AllTags(ps + [Plug(f, c)])
    ensures SerFrames(ps + [Plug(f, c)]) == SerFrames(ps + [f]) + Ser(c)
  {
    var g := Plug(f, c);
    assert (ps + [g])[..|ps|] == ps;
    assert (ps + [f])[..|ps|] == ps;
    var pre := SerFrames(ps) + [Open(f.tag, f.attrs)];
    assert SerFrames(ps + [g]) == pre + SerForest(f.children + [c]);
    assert SerFrames(ps + [f]) == pre + SerForest(f.children);
    SerForestSnoc(f.children, c);
  }

  /** Closing the innermost frame `q` and appending it to its parent `p`
      appends the end of `q` to the walk. */
  lemma SerFramesPop(ps: seq<Node>, p: Node, q: Node)
    requires AllTags(ps) && p.Tag? && q.Tag?
    ensures AllTags(ps + [p, q]) && AllTags(ps + [Plug(p, q.(closed := true))])
    ensures SerFrames(ps + [Plug(p, q.(closed := true))]) == SerFrames(ps + [p, q]) + [Close(q.tag)]
  {
    var q' := q.(closed := true);
    SerFramesPlug(ps, p, q');
    assert (ps + [p, q])[..|ps| + 1] == ps + [p];
    assert SerFrames(ps + [p, q]) == SerFrames(ps + [p]) + [Open(q.tag, q.attrs)] + SerForest(q.children);
  }

  /** Closing the innermost frame in place leaves the walk unchanged. */
  lemma SerFramesClosedFlag(ps: seq<Node>, f: Node)
    requires AllTags(ps) && f.Tag?
    ensures AllTags(ps + [f]) && AllTags(ps + [f.(closed := true)])
    ensures SerFrames(ps + [f.(closed := true)]) == SerFrames(ps + [f])
  {
    if ps != [] {
      assert (ps + [f])[..|ps|] == ps;
      assert (ps + [f.(closed := true)])[..|ps|] == ps;
    }
  }

  class HTMLTree {
    /** The open ancestors of `pointer`, root first: the `LifoQueue`. */
    var path: seq<Node>
    /** The node currently receiving children. */
    var pointer: Node

    ghost function Frames(): seq<Node>
      reads this
    {
      path + [pointer]
    }

    /** `self.root`: the bottom frame. */
    function Root(): Node
      reads this
    {
      if path == [] then pointer else path[0]
    }

    /** Every frame sits at its depth (`len(path) == pointer.level`), every
        finished child is settled, and the bottom frame is the root. */
    ghost predicate Valid()
      reads this
    {
      && pointer.Tag? && AllTags(path)
      && Root().Tag? && Root().tag == RootTag && Root().attrs == map[]
      && FramesOk(Frames())
    }

    /** Everything added so far, as a document-order walk. */
    ghost function Consumed(): seq<Mark>
      reads this
      requires Valid()
    {
      FramesAreTags();
      SerFrames(Frames())
    }

    /** The names of the open frames below the root. */
    ghost function OpenNames(): seq<string>
      reads this
      requires Valid()
    {
      FramesAreTags();
      NamesAbove(Frames())
    }

    /** No frame, the pointer included, has been closed. */
    ghost predicate FramesOpen()
      reads this
    {
      AllOpen(Frames())
    }

    /** The last open name is the pointer's, and there is none exactly when
        the pointer is the root. */
    lemma TopName()
      requires Valid()
      ensures |OpenNames()| == |path|
      ensures path == [] ==> pointer.tag == RootTag
      ensures path != [] ==> OpenNames()[|path| - 1] == pointer.tag
    {
      FramesAreTags();
      var fs := Frames();
      assert |NamesAbove(fs)| == |fs| - 1;
      if path != [] {
        assert fs[|path|] == pointer;
        assert NamesAbove(fs)[|path| - 1] == fs[|path|].tag;
      }
    }

    lemma FramesAreTags()
      requires Valid()
      ensures AllTags(path) && AllTags(Frames())
    {
      forall i | 0 <= i < |path| ensures path[i].Tag? {
        assert FrameOk(Frames()[i], i);
      }
    }

    constructor ()
      ensures Valid() && FramesOpen()
      ensures path == [] && pointer == RootNode()
      ensures Consumed() == [] && OpenNames() == []
    {
      path := [];
      pointer := RootNode();
      new;
      assert Frames() == [pointer];
    }

    /** `add_node`: the new node goes one level below the pointer, becomes its
        last child, and becomes the pointer; the old pointer is pushed. */
    method AddNode(node: Node)
      requires Valid() && node.Tag? && node.children == []
      modifies this
      ensures Valid()
      ensures path == old(path) + [old(pointer)]
      ensures pointer == Tag(node.tag, node.attrs, [], node.closed, old(pointer).level + 1)
      ensures Consumed() == old(Consumed()) + [Open(node.tag, node.attrs)]
      ensures OpenNames() == old(OpenNames()) + [node.tag]
      ensures old(FramesOpen()) && !node.closed ==> FramesOpen()
    {
      FramesAreTags();
      ghost var fs := Frames();
      assert FrameOk(fs[|fs| - 1], |fs| - 1);
      var child := Tag(node.tag, node.attrs, [], node.closed, pointer.level + 1);
      PushFrames(fs, child);
      path := path + [pointer];
      pointer := child;
      assert Frames() == fs + [child];
      SerFramesPush(fs, child);
      NamesAboveSnoc(fs, child);
    }

    /** `add_data`: the data node goes one level below the pointer, as its
        last child; neither the pointer nor the path moves. */
    method AddData(node: Node)
      requires Valid() && node.Data?
      modifies this
      ensures Valid()
      ensures path == old(path)
      ensures pointer == Plug(old(pointer), Data(node.data, old(pointer).level + 1))
      ensures Consumed() == old(Consumed()) + [Leaf(node.data)]
      ensures OpenNames() == old(OpenNames())
      ensures old(FramesOpen()) ==> FramesOpen()
    {
      FramesAreTags();
      ghost var f := pointer;
      assert FrameOk(Frames()[|path|], |path|);
      var child := Data(node.data, pointer.level + 1);
      PlugFrames(path, f, child);
      SerFramesPlug(path, f, child);
      NamesAboveSameTag(path, f, Plug(f, child));
      pointer := Plug(pointer, child);
      assert Frames() == path + [Plug(f, child)];
    }

    /** `close_node`, with `TagNode.close`: a closed pointer raises first, a
        name other than the pointer's raises next; otherwise the pointer is
        closed and its parent becomes the pointer. Closing the root leaves
        nothing to pop, and the source then waits on the empty queue forever. */
    method CloseNode(closingTag: string) returns (status: Status)
      requires Valid()
      modifies this
      ensures Valid()
      ensures old(pointer).closed ==>
        status == Raised(MoreClosingTags) && path == old(path) && pointer == old(pointer)
      ensures !old(pointer).closed && closingTag != old(pointer).tag ==>
        status == Raised(TagMismatch) && path == old(path) && pointer == old(pointer)
      ensures !old(pointer).closed && closingTag == old(pointer).tag && old(path) == [] ==>
        status == Blocked && path == [] && pointer == old(pointer).(closed := true)
      ensures !old(pointer).closed && closingTag == old(pointer).tag && old(path) != [] ==>
        && status == Done
        && path == old(path)[..|old(path)| - 1]
        && pointer == Plug(old(path)[|old(path)| - 1], old(pointer).(closed := true))
        && Consumed() == old(Consumed()) + [Close(closingTag)]
        && OpenNames() == old(OpenNames())[..|old(OpenNames())| - 1]
      ensures old(FramesOpen()) && status == Done ==> FramesOpen()
    {
      if pointer.closed {
        return Raised(MoreClosingTags);
      }
      if closingTag != pointer.tag {
        return Raised(TagMismatch);
      }
      var closed := pointer.(closed := true);
      if path == [] {
        CloseFrame([], pointer);
        pointer := closed;
        assert Frames() == [] + [closed];
        return Blocked;
      }
      Pop(closed);
      status := Done;
    }

    /** `self_close`, with `TagNode.self_close`: a closed pointer raises;
        otherwise the pointer is closed and, unless it is named `root`, its
        parent becomes the pointer. */
    method SelfClose() returns (status: Status)
      requires Valid()
      modifies this
      ensures Valid()
      ensures old(pointer).closed ==>
        status == Raised(MoreClosingTags) && path == old(path) && pointer == old(pointer)
      ensures !old(pointer).closed ==> status == Done
      ensures !old(pointer).closed && old(pointer).tag == RootTag ==>
        && path == old(path)
        && pointer == old(pointer).(closed := true)
        && Consumed() == old(Consumed())
        && OpenNames() == old(OpenNames())
      ensures !old(pointer).closed && old(pointer).tag != RootTag ==>
        && old(path) != []
        && path == old(path)[..|old(path)| - 1]
        && pointer == Plug(old(path)[|old(path)| - 1], old(pointer).(closed := true))
        && Consumed() == old(Consumed()) + [Close(old(pointer).tag)]
        && OpenNames() == old(OpenNames())[..|old(OpenNames())| - 1]
      ensures old(FramesOpen()) && old(pointer).tag != RootTag ==> FramesOpen()
    {
      if pointer.closed {
        return Raised(MoreClosingTags);
      }
      var closed := pointer.(closed := true);
      if closed.tag == RootTag {
        FramesAreTags();
        ghost var f := pointer;
        CloseFrame(path, f);
        SerFramesClosedFlag(path, f);
        NamesAboveSameTag(path, f, closed);
        pointer := closed;
        assert Frames() == path + [closed];
        return Done;
      }
      // The bottom frame is named "root", so a pointer with another name is
      // not the bottom frame: the source's raise on an empty path never fires.
      assert path != [];
      Pop(closed);
      status := Done;
    }

    /** Replaces the pointer by its closed copy, appended as the last child of
        the top of the path, which becomes the pointer. */
    method Pop(closed: Node)
      requires Valid() && path != [] && closed == pointer.(closed := true)
      modifies this
      ensures Valid()
      ensures path == old(path)[..|old(path)| - 1]
      ensures pointer == Plug(old(path)[|old(path)| - 1], closed)
      ensures Consumed() == old(Consumed()) + [Close(closed.tag)]
      ensures OpenNames() == old(OpenNames())[..|old(OpenNames())| - 1]
      ensures old(FramesOpen()) ==> FramesOpen()
    {
      var ps := path[..|path| - 1];
      var p := path[|path| - 1];
      ghost var q := pointer;
      assert Frames() == ps + [p, q];
      PopFrames(ps, p, q);
      SerFramesPop(ps, p, q);
      assert ps + [p, q] == (ps + [p]) + [q];
      NamesAboveSnoc(ps + [p], q);
      var g := Plug(p, closed);
      NamesAboveSameTag(ps, p, g);
      pointer := g;
      path := ps;
      assert Frames() == ps + [g];
    }

    /** `clean` on a finished tree: prunes the root's subtree in place; the
        root itself stays, whatever `root.clean` returns. */
    method Clean(tagsDelete: seq<string>, attrsDelete: seq<string>)
      requires Valid() && path == []
      modifies this
      ensures Valid() && path == []
      ensures pointer == CleanRoot(old(pointer), tagsDelete, attrsDelete)
      ensures pointer.tag == RootTag && pointer.closed == old(pointer).closed
    {
      assert FrameOk(Frames()[0], 0);
      var cleaned := CleanRoot(pointer, tagsDelete, attrsDelete);
      if pointer.tag !in tagsDelete {
        CleanForestSettled(pointer.children, 1, tagsDelete, attrsDelete);
      }
      pointer := cleaned;
      assert Frames() == [pointer];
    }

    /** `check_sanity`: raises unless the root is closed. */
    method CheckSanity() returns (status: Status)
      requires Valid()
      ensures status == Done <==> Root().closed
      ensures status != Done ==> status == Raised(RootNotClosed)
    {
      if !Root().closed {
        return Raised(RootNotClosed);
      }
      status := Done;
    }
  }

  /** The names of all frames but the bottom one. */
  function NamesAbove(fs: seq<Node>): seq<string>
    requires AllTags(fs)
  {
    if fs == [] then [] else TagNames(fs[1..])
  }

  lemma NamesAboveSnoc(fs: seq<Node>, n: Node)
    requires fs != [] && AllTags(fs) && n.Tag?
    ensures AllTags(fs + [n])
    ensures NamesAbove(fs + [n]) == NamesAbove(fs) + [n.tag]
  {
    assert (fs + [n])[1..] == fs[1..] + [n];
  }

  lemma NamesAboveSameTag(ps: seq<Node>, f: Node, g: Node)
    requires AllTags(ps) && f.Tag? && g.Tag? && f.tag == g.tag
    ensures AllTags(ps + [f]) && AllTags(ps + [g])
    ensures NamesAbove(ps + [f]) == NamesAbove(ps + [g])
  {
    if ps != [] {
      assert (ps + [f])[1..] == ps[1..] + [f];
      assert (ps + [g])[1..] == ps[1..] + [g];
    }
  }

  /** `html_to_tree` on the recorded events: each start tag adds a node (and
      a void one is self-closed at once), each data event adds a data node,
      each non-void end tag closes the pointer; at the end the pointer is
      self-closed once and the root must be closed.
      The outcome is the names-only scan's: the build succeeds exactly when
      every non-void element is closed by a matching end tag, and the tree it
      returns walks, in document order, through exactly the events, every node
      closed and at its depth; such a tree is determined by that walk
      (`WalkDeterminesForest`).
      The result is the finished root rather than the `HTMLTree` object: on a
      finished tree `HTMLTree.clean` and `HTMLTree.pure_text` act on the root
      alone, and `Prune.CleanRoot` and `Text.TreeText` are those two steps
      applied to the returned root. */
  method HtmlToTree(events: seq<Event>) returns (r: BuildResult)
    ensures r.Built? <==> Scan(events) == Scanning([])
    ensures r == Failed(TagMismatch) <==> Scan(events) == Mismatched
    ensures r == Hangs <==> Scan(events) == Stuck
    ensures r == Failed(RootNotClosed) <==> Scan(events).Scanning? && Scan(events).open != []
    ensures r != Failed(MoreClosingTags)
    ensures r.Built? ==>
      && r.root.Tag? && r.root.tag == RootTag && r.root.attrs == map[] && r.root.level == 0
      && Settled(r.root)
      && SerForest(r.root.children) == Normalize(events)
  {
    var tree := new HTMLTree();
    for i := 0 to |events|
      invariant tree.Valid() && tree.FramesOpen()
      invariant Scan(events[..i]) == Scanning(tree.OpenNames())
      invariant tree.Consumed() == Normalize(events[..i])
    {
      ScanSnoc(events, i);
      var status := Consume(tree, events[i]);
      if status != Done {
        ScanKeepsFailure(events, i + 1);
        r := if status == Blocked then Hangs else Failed(status.error);
        return;
      }
    }
    assert events[..|events|] == events;
    r := Finish(tree);
  }

  /** The body of the loop of `html_to_tree` for one event. It ends normally
      exactly when the scan takes the event, and then the tree has taken in
      the event's marks; otherwise the scan fails the same way. */
  method Consume(tree: HTMLTree, e: Event) returns (status: Status)
    requires tree.Valid() && tree.FramesOpen()
    modifies tree
    ensures tree.Valid()
    ensures status == Done <==> Run(Scanning(old(tree.OpenNames())), NormOne(e)).Scanning?
    ensures status == Done ==>
      && tree.FramesOpen()
      && Run(Scanning(old(tree.OpenNames())), NormOne(e)) == Scanning(tree.OpenNames())
      && tree.Consumed() == old(tree.Consumed()) + NormOne(e)
    ensures status == Blocked <==> Run(Scanning(old(tree.OpenNames())), NormOne(e)) == Stuck
    ensures status == Raised(TagMismatch) <==> Run(Scanning(old(tree.OpenNames())), NormOne(e)) == Mismatched
    ensures status != Raised(MoreClosingTags) && status != Raised(RootNotClosed)
  {
    match e
    case StartTag(tag, attrs) =>
      status := ConsumeStart(tree, tag, attrs);
    case Text(d) =>
      status := ConsumeText(tree, d);
    case EndTag(tag) =>
      status := ConsumeEnd(tree, tag);
  }

  /** A start tag adds a node; a void one is closed at once. */
  method ConsumeStart(tree: HTMLTree, tag: string, attrs: seq<(string, string)>) returns (status: Status)
    requires tree.Valid() && tree.FramesOpen()
    modifies tree
    ensures tree.Valid() && tree.FramesOpen() && status == Done
    ensures Run(Scanning(old(tree.OpenNames())), NormOne(StartTag(tag, attrs))) == Scanning(tree.OpenNames())
    ensures tree.Consumed() == old(tree.Consumed()) + NormOne(StartTag(tag, attrs))
  {
    ghost var names := tree.OpenNames();
    tree.AddNode(NewTagNode(tag, attrs));
    if tag in SelfClosingTags {
      assert RootTag !in SelfClosingTags;
      status := tree.SelfClose();
      RunOpenClose(names, tag, AttrTokens(attrs));
    } else {
      RunOne(Scanning(names), Open(tag, AttrTokens(attrs)));
      status := Done;
    }
  }

  /** A data event adds a data node under the pointer. */
  method ConsumeText(tree: HTMLTree, d: string) returns (status: Status)
    requires tree.Valid() && tree.FramesOpen()
    modifies tree
    ensures tree.Valid() && tree.FramesOpen() && status == Done
    ensures Run(Scanning(old(tree.OpenNames())), NormOne(Text(d))) == Scanning(tree.OpenNames())
    ensures tree.Consumed() == old(tree.Consumed()) + NormOne(Text(d))
  {
    ghost var names := tree.OpenNames();
    tree.AddData(Data(d, 0));
    RunOne(Scanning(names), Leaf(d));
    status := Done;
  }

  /** A non-void end tag closes the pointer; a void one is ignored. */
  method ConsumeEnd(tree: HTMLTree, tag: string) returns (status: Status)
    requires tree.Valid() && tree.FramesOpen()
    modifies tree
    ensures tree.Valid()
    ensures status == Done <==> Run(Scanning(old(tree.OpenNames())), NormOne(EndTag(tag))).Scanning?
    ensures status == Done ==>
      && tree.FramesOpen()
      && Run(Scanning(old(tree.OpenNames())), NormOne(EndTag(tag))) == Scanning(tree.OpenNames())
      && tree.Consumed() == old(tree.Consumed()) + NormOne(EndTag(tag))
    ensures status == Blocked <==> Run(Scanning(old(tree.OpenNames())), NormOne(EndTag(tag))) == Stuck
    ensures status == Raised(TagMismatch) <==> Run(Scanning(old(tree.OpenNames())), NormOne(EndTag(tag))) == Mismatched
    ensures status != Raised(MoreClosingTags) && status != Raised(RootNotClosed)
  {
    ghost var names := tree.OpenNames();
    if tag in SelfClosingTags {
      return Done;
    }
    RunOne(Scanning(names), Close(tag));
    tree.FramesAreTags();
    tree.TopName();
    assert !tree.pointer.closed by {
      assert tree.Frames()[|tree.path|] == tree.pointer;
    }
    if tree.path == [] {
      assert Step(Scanning(names), Close(tag)) == (if tag == RootTag then Stuck else Mismatched);
    } else {
      assert Step(Scanning(names), Close(tag))
        == (if tag == tree.pointer.tag then Scanning(names[..|names| - 1]) else Mismatched);
    }
    status := tree.CloseNode(tag);
  }

  /** The end of `html_to_tree`: one `self_close`, then `check_sanity`. */
  method Finish(tree: HTMLTree) returns (r: BuildResult)
    requires tree.Valid() && tree.FramesOpen()
    modifies tree
    ensures r.Built? <==> old(tree.OpenNames()) == []
    ensures !r.Built? ==> r == Failed(RootNotClosed)
    ensures r.Built? ==>
      && r.root.Tag? && r.root.tag == RootTag && r.root.attrs == map[] && r.root.level == 0
      && Settled(r.root)
      && SerForest(r.root.children) == old(tree.Consumed())
  {
    ghost var open := tree.path != [];
    assert |tree.OpenNames()| == |tree.path|;
    assert !tree.Frames()[0].closed;
    assert FrameOk(tree.Frames()[0], 0);
    var status := tree.SelfClose();
    if open {
      assert !tree.Root().closed;
    } else {
      assert tree.Frames() == [tree.pointer];
    }
    status := tree.CheckSanity();
    if status != Done {
      return Failed(status.error);
    }
    r := Built(tree.Root());
  }
}
