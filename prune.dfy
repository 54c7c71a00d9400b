/** `TagNode.clean` and `DataNode.clean`: a recursive filter that removes
    whole subtrees by tag name and by attribute tokens. */
module Prune {
  import opened Nodes

  datatype Option<T> = None | Some(value: T)

  /** The default `tags_delete` list. */
  const DefaultTagsDelete: seq<string> :=
    ["script", "noscript", "style", "aside", "header", "footer", "nav", "navigation"]

  /** The default `attrs_delete` list. */
  const DefaultAttrsDelete: seq<string> :=
    ["menu", "head", "header", "footer", "foot", "nav", "navigation"]

  /** `attrs.get(name, set())` */
  function Tokens(attrs: map<string, set<string>>, name: string): set<string>
  {
    if name in attrs then attrs[name] else {}
  }

  /** The test of `TagNode.clean` as it parses: `&` binds tighter than `|`,
      so it reads `ids | (classes & set(attrs_delete))`. */
  predicate DropTest(n: Node, tagsDelete: seq<string>, attrsDelete: seq<string>)
    requires n.Tag?
  {
    n.tag in tagsDelete
    || Tokens(n.attrs, "id") + (Tokens(n.attrs, "class") * set t | t in attrsDelete) != {}
  }

  /** The drop test holds when the name is listed, when there is any `id`
      token at all, or when a `class` token is listed. */
  lemma DropTestReads(n: Node, tagsDelete: seq<string>, attrsDelete: seq<string>)
    requires n.Tag?
    ensures DropTest(n, tagsDelete, attrsDelete) <==>
      || n.tag in tagsDelete
      || Tokens(n.attrs, "id") != {}
      || exists t :: t in Tokens(n.attrs, "class") && t in attrsDelete
  {
    var listed := set t | t in attrsDelete;
    var hits := Tokens(n.attrs, "class") * listed;
    if hits != {} {
      var t :| t in hits;
      assert t in Tokens(n.attrs, "class") && t in attrsDelete;
    }
    if exists t :: t in Tokens(n.attrs, "class") && t in attrsDelete {
      var t :| t in Tokens(n.attrs, "class") && t in attrsDelete;
      assert t in hits;
    }
  }

  /** A node is pruned with its whole subtree, its children unvisited; a data
      node is always kept, and a kept tag node keeps its name, attributes,
      flag and level, and has its children pruned in turn. */
  function Clean(n: Node, tagsDelete: seq<string>, attrsDelete: seq<string>): (r: Option<Node>)
    ensures r.None? <==>
      n.Tag? &&
        (|| n.tag in tagsDelete
         || Tokens(n.attrs, "id") != {}
         || exists t :: t in Tokens(n.attrs, "class") && t in attrsDelete)
    ensures n.Data? ==> r == Some(n)
    ensures r.Some? && n.Tag? ==>
      r.value.Tag? && r.value.tag == n.tag && r.value.attrs == n.attrs
      && r.value.closed == n.closed && r.value.level == n.level
    decreases n, 1
  {
    match n
    case Data(_, _) => Some(n)
    case Tag(_, _, cs, _, _) =>
      DropTestReads(n, tagsDelete, attrsDelete);
      if DropTest(n, tagsDelete, attrsDelete) then None
      else Some(n.(children := CleanForest(cs, tagsDelete, attrsDelete)))
  }

  /** The children after `[c.clean(...) for c in children]` and the filter
      `[c for c in children if c]`: survivors, in their original order. */
  function CleanForest(f: seq<Node>, tagsDelete: seq<string>, attrsDelete: seq<string>): (r: seq<Node>)
    ensures |r| <= |f|
    decreases f, 0
  {
    if f == [] then []
    else
      var rest := CleanForest(f[..|f| - 1], tagsDelete, attrsDelete);
      match Clean(f[|f| - 1], tagsDelete, attrsDelete)
      case None => rest
      case Some(m) => rest + [m]
  }

  /** `HTMLTree.clean`: the root's own result is discarded, so a root whose
      name is in `tags_delete` is left as it was, and any other root has its
      children pruned. */
  function CleanRoot(root: Node, tagsDelete: seq<string>, attrsDelete: seq<string>): (r: Node)
    requires root.Tag? && root.attrs == map[]
    ensures r.Tag? && r.tag == root.tag && r.attrs == root.attrs
    ensures r.closed == root.closed && r.level == root.level
    ensures root.tag in tagsDelete ==> r == root
    ensures root.tag !in tagsDelete ==> r.children == CleanForest(root.children, tagsDelete, attrsDelete)
  {
    match Clean(root, tagsDelete, attrsDelete)
    case None => root
    case Some(m) => m
  }

  /** No tag node anywhere in the subtree passes the drop test. */
  predicate Pruned(n: Node, tagsDelete: seq<string>, attrsDelete: seq<string>)
    decreases n
  {
    match n
    case Data(_, _) => true
    case Tag(_, _, cs, _, _) =>
      && !DropTest(n, tagsDelete, attrsDelete)
      && forall i | 0 <= i < |cs| :: Pruned(cs[i], tagsDelete, attrsDelete)
  }

  /** Soundness: nothing the drop test removes is left after pruning. */
  lemma {:induction false} CleanIsPruned(n: Node, tagsDelete: seq<string>, attrsDelete: seq<string>)
    requires Clean(n, tagsDelete, attrsDelete).Some?
    ensures Pruned(Clean(n, tagsDelete, attrsDelete).value, tagsDelete, attrsDelete)
    decreases n, 1
  {
    match n
    case Data(_, _) =>
    case Tag(_, _, cs, _, _) =>
      CleanForestIsPruned(cs, tagsDelete, attrsDelete);
  }

  lemma {:induction false} CleanForestIsPruned(f: seq<Node>, tagsDelete: seq<string>, attrsDelete: seq<string>)
    ensures forall j | 0 <= j < |CleanForest(f, tagsDelete, attrsDelete)| ::
      Pruned(CleanForest(f, tagsDelete, attrsDelete)[j], tagsDelete, attrsDelete)
    decreases f, 0
  {
    if f != [] {
      var last := f[|f| - 1];
      CleanForestIsPruned(f[..|f| - 1], tagsDelete, attrsDelete);
      if Clean(last, tagsDelete, attrsDelete).Some? {
        CleanIsPruned(last, tagsDelete, attrsDelete);
      }
    }
  }

  /** A subtree with nothing to remove is left exactly as it is. */
  lemma {:induction false} PrunedIsFixed(n: Node, tagsDelete: seq<string>, attrsDelete: seq<string>)
    requires Pruned(n, tagsDelete, attrsDelete)
    ensures Clean(n, tagsDelete, attrsDelete) == Some(n)
    decreases n, 1
  {
    match n
    case Data(_, _) =>
    case Tag(_, _, cs, _, _) =>
      PrunedForestIsFixed(cs, tagsDelete, attrsDelete);
  }

  lemma {:induction false} PrunedForestIsFixed(f: seq<Node>, tagsDelete: seq<string>, attrsDelete: seq<string>)
    requires forall i | 0 <= i < |f| :: Pruned(f[i], tagsDelete, attrsDelete)
    ensures CleanForest(f, tagsDelete, attrsDelete) == f
    decreases f, 0
  {
    if f != [] {
      var k := |f| - 1;
      assert forall i | 0 <= i < k :: f[..k][i] == f[i];
      PrunedForestIsFixed(f[..k], tagsDelete, attrsDelete);
      PrunedIsFixed(f[k], tagsDelete, attrsDelete);
      assert f[..k] + [f[k]] == f;
    }
  }

  /** Pruning twice with the same lists prunes nothing more. */
  lemma CleanIdempotent(n: Node, tagsDelete: seq<string>, attrsDelete: seq<string>)
    requires Clean(n, tagsDelete, attrsDelete).Some?
    ensures Clean(Clean(n, tagsDelete, attrsDelete).value, tagsDelete, attrsDelete) == Clean(n, tagsDelete, attrsDelete)
  {
    CleanIsPruned(n, tagsDelete, attrsDelete);
    PrunedIsFixed(Clean(n, tagsDelete, attrsDelete).value, tagsDelete, attrsDelete);
  }

  lemma CleanRootIdempotent(root: Node, tagsDelete: seq<string>, attrsDelete: seq<string>)
    requires root.Tag? && root.attrs == map[]
    ensures CleanRoot(CleanRoot(root, tagsDelete, attrsDelete), tagsDelete, attrsDelete)
      == CleanRoot(root, tagsDelete, attrsDelete)
  {
    if root.tag !in tagsDelete {
      CleanIdempotent(root, tagsDelete, attrsDelete);
    }
  }

  /** The survivors are the children whose own pruning keeps them, in their
      original order: `idx` lists their positions, increasing. */
  lemma {:induction false} CleanForestOrder(f: seq<Node>, tagsDelete: seq<string>, attrsDelete: seq<string>)
    returns (idx: seq<nat>)
    ensures |idx| == |CleanForest(f, tagsDelete, attrsDelete)|
    ensures forall j | 0 <= j < |idx| ::
      idx[j] < |f| && Clean(f[idx[j]], tagsDelete, attrsDelete) == Some(CleanForest(f, tagsDelete, attrsDelete)[j])
    ensures forall j, k | 0 <= j < k < |idx| :: idx[j] < idx[k]
    ensures forall i | 0 <= i < |f| :: Clean(f[i], tagsDelete, attrsDelete).Some? <==> i in idx
  {
    if f == [] {
      return [];
    }
    var k := |f| - 1;
    var init := f[..k];
    idx := CleanForestOrder(init, tagsDelete, attrsDelete);
    assert forall j | 0 <= j < |idx| :: idx[j] < k && f[idx[j]] == init[idx[j]];
    if Clean(f[k], tagsDelete, attrsDelete).Some? {
      idx := idx + [k];
    }
    forall i | 0 <= i < |f| ensures Clean(f[i], tagsDelete, attrsDelete).Some? <==> i in idx {
      if i < k {
        assert f[i] == init[i];
      }
    }
  }

  /** Pruning keeps a settled subtree settled: every kept node keeps its flag
      and its level. */
  lemma CleanKeepsSettled(n: Node, tagsDelete: seq<string>, attrsDelete: seq<string>)
    requires Settled(n) && Clean(n, tagsDelete, attrsDelete).Some?
    ensures Settled(Clean(n, tagsDelete, attrsDelete).value)
    decreases n
  {
    match n
    case Data(_, _) =>
    case Tag(_, _, cs, _, level) =>
      CleanForestSettled(cs, level + 1, tagsDelete, attrsDelete);
  }

  lemma CleanForestSettled(f: seq<Node>, level: nat, tagsDelete: seq<string>, attrsDelete: seq<string>)
    requires forall i | 0 <= i < |f| :: f[i].level == level && Settled(f[i])
    ensures forall j | 0 <= j < |CleanForest(f, tagsDelete, attrsDelete)| ::
      var m := CleanForest(f, tagsDelete, attrsDelete)[j];
      m.level == level && Settled(m)
    decreases f
  {
    var idx := CleanForestOrder(f, tagsDelete, attrsDelete);
    forall j | 0 <= j < |idx|
      ensures CleanForest(f, tagsDelete, attrsDelete)[j].level == level
      ensures Settled(CleanForest(f, tagsDelete, attrsDelete)[j])
    {
      CleanKeepsSettled(f[idx[j]], tagsDelete, attrsDelete);
    }
  }
}
