/** The structural edits the lifecycle operations make to the arena: adding a
    fresh leaf under a holder (add_child, add_sibling, the floating append of
    new_floating_view), putting a fresh container between a holder and some of
    the nodes it lists (the two cases of new_container), and changing fields
    that do not bear on the shape. Each keeps the arena well formed. */
module TreeEdit {
  import opened Common
  import opened TreeTypes
  import opened TreeShape

  // ------------------------------------------------------------ holder edits

  /** add_child(pn, c), as seen from the holder: c is appended to the
      children and becomes the focus when it is the only child. */
  function AddChild(pn: Node, c: NodeId): (r: Node)
    ensures forall x :: InList(x, r) <==> InList(x, pn) || x == c
    ensures |r.children| == |pn.children| + 1 && r.children[|pn.children|] == c && r.floating == pn.floating
    ensures r.focused == pn.focused || (pn.children == [] && r.focused == Some(c))
  {
    pn.(children := pn.children + [c],
        focused := if |pn.children| == 0 then Some(c) else pn.focused)
  }

  /** The slot add_sibling(s, c) inserts at: just after s in the children,
      or at the end when s is not among them. */
  function SiblingSlot(kids: seq<NodeId>, s: NodeId): (k: nat)
    ensures k <= |kids|
    ensures s in kids ==> k >= 1 && kids[k - 1] == s
    ensures s !in kids ==> k == |kids|
  {
    var i := IndexOf(kids, s);
    if i == |kids| then i else i + 1
  }

  /** add_sibling(s, c), as seen from s's holder: c is inserted after s and
      the focus is untouched. */
  function AddSibling(pn: Node, s: NodeId, c: NodeId): (r: Node)
    ensures multiset(r.children) == multiset(pn.children) + multiset{c}
    ensures s in pn.children ==> exists k :: 1 <= k < |r.children| && r.children[k - 1] == s && r.children[k] == c
    ensures r.floating == pn.floating && r.focused == pn.focused
  {
    var k := SiblingSlot(pn.children, s);
    var kids := pn.children[..k] + [c] + pn.children[k..];
    assert pn.children == pn.children[..k] + pn.children[k..];
    assert kids[k] == c && (s in pn.children ==> kids[k - 1] == s);
    pn.(children := kids)
  }

  /** list_add(ws->floating, view) followed by focusing the view when the
      workspace has no focus. */
  function AddFloating(pn: Node, c: NodeId): (r: Node)
    ensures forall x :: InList(x, r) <==> InList(x, pn) || x == c
    ensures r.children == pn.children && r.focused.Some?
    ensures pn.focused.Some? ==> r.focused == pn.focused
  {
    pn.(floating := pn.floating + [c],
        focused := if pn.focused.None? then Some(c) else pn.focused)
  }

  /** pn2 is pn with c added to one of its lists and its focus kept or moved to c. */
  ghost predicate GainsLeaf(pn: Node, pn2: Node, c: NodeId) {
    pn2 == pn.(children := pn2.children, floating := pn2.floating, focused := pn2.focused) &&
    (forall x :: InList(x, pn2) <==> InList(x, pn) || x == c) &&
    NoDup(pn2.children + pn2.floating) &&
    (pn.kind != Workspace ==> pn2.floating == []) &&
    (pn.kind == View ==> pn2.children == []) &&
    (pn2.focused == pn.focused || pn2.focused == Some(c))
  }

  lemma AddChildGains(pn: Node, c: NodeId)
    requires pn.kind != View && NoDup(pn.children + pn.floating) && !InList(c, pn)
    requires pn.kind != Workspace ==> pn.floating == []
    ensures GainsLeaf(pn, AddChild(pn, c), c)
  {
    var r := AddChild(pn, c);
    NoDupConcat(pn.children, pn.floating);
    NoDupConcat(pn.children, [c]);
    NoDupConcat(r.children, r.floating);
  }

  lemma AddSiblingGains(pn: Node, s: NodeId, c: NodeId)
    requires pn.kind != View && NoDup(pn.children + pn.floating) && !InList(c, pn)
    requires pn.kind != Workspace ==> pn.floating == []
    ensures GainsLeaf(pn, AddSibling(pn, s, c), c)
  {
    var k := SiblingSlot(pn.children, s);
    var a, b := pn.children[..k], pn.children[k..];
    var r := AddSibling(pn, s, c);
    assert pn.children == a + b;
    assert r.children == a + ([c] + b);
    NoDupConcat(pn.children, pn.floating);
    NoDupConcat(a, b);
    NoDupConcat([c], b);
    NoDupConcat(a, [c] + b);
    NoDupConcat(r.children, r.floating);
    assert forall x :: x in r.children <==> x in pn.children || x == c;
  }

  lemma AddFloatingGains(pn: Node, c: NodeId)
    requires pn.kind == Workspace && NoDup(pn.children + pn.floating) && !InList(c, pn)
    ensures GainsLeaf(pn, AddFloating(pn, c), c)
  {
    var r := AddFloating(pn, c);
    NoDupConcat(pn.children, pn.floating);
    NoDupConcat(pn.floating, [c]);
    NoDupConcat(r.children, r.floating);
  }

  // ------------------------------------------------------------ adding a leaf

  /** A node fresh from new_swayc with its fields filled in: it holds
      nothing, has no parent and no focus yet. */
  predicate Detached(n: Node) {
    n.parent.None? && n.children == [] && n.floating == [] && n.focused.None?
  }

  /** The arena after a detached node n gets the fresh id c and p, which
      becomes pn2, takes it in. */
  function AddLeaf(nodes: Arena, p: NodeId, c: NodeId, n: Node, pn2: Node): Arena {
    nodes[c := n.(parent := Some(p))][p := pn2]
  }

  /** The ranks after the leaf: one past its holder's. */
  function LeafDepth(depth: Ranks, p: NodeId, c: NodeId): Ranks
    requires p in depth
  {
    depth[c := depth[p] + 1]
  }

  lemma LeafLinked(nodes: Arena, depth: Ranks, bound: nat, nextId: NodeId, p: NodeId, n: Node, pn2: Node)
    requires WellFormed(nodes, depth, bound, nextId) && p in nodes && Detached(n)
    requires GainsLeaf(nodes[p], pn2, nextId)
    ensures Linked(AddLeaf(nodes, p, nextId, n, pn2), LeafDepth(depth, p, nextId), bound + 1)
  {
    var c := nextId;
    var r := AddLeaf(nodes, p, c, n, pn2);
    var d2 := LeafDepth(depth, p, c);
    assert c !in nodes;
    forall id: NodeId, x: NodeId {:trigger InList(x, r[id])} | id in r && InList(x, r[id])
      ensures x in r && r[x].parent == Some(id) && id in d2 && x in d2 && d2[id] < d2[x] < bound + 1
    {
      if id == p {
        if x != c {
          assert InList(x, nodes[p]);
        }
      } else {
        assert InList(x, nodes[id]);
      }
    }
    forall x | Live(r, x)
      ensures UpLink(r, d2, x)
    {
      if x != c {
        Up(nodes, depth, x);
        if nodes[x].parent.Some? {
          var q := nodes[x].parent.value;
          assert q != c;
          if q == p {
            assert InList(x, r[p]);
          }
        }
      }
    }
  }

  lemma LeafRest(nodes: Arena, depth: Ranks, bound: nat, nextId: NodeId, p: NodeId, n: Node, pn2: Node)
    requires WellFormed(nodes, depth, bound, nextId) && p in nodes && Detached(n)
    requires GainsLeaf(nodes[p], pn2, nextId)
    ensures var r := AddLeaf(nodes, p, nextId, n, pn2);
      Distinct(r) && KindsOk(r) && FocusDeeper(r, LeafDepth(depth, p, nextId)) && IdsBelow(r, nextId + 1)
  {
    var c := nextId;
    var r := AddLeaf(nodes, p, c, n, pn2);
    var d2 := LeafDepth(depth, p, c);
    forall id | Live(r, id)
      ensures FocusLink(r, d2, id)
    {
      if id != c {
        Focus(nodes, depth, id);
      }
    }
  }

  /** Adding a fresh leaf keeps the arena well formed. */
  lemma AddLeafWellFormed(nodes: Arena, depth: Ranks, bound: nat, nextId: NodeId, p: NodeId, n: Node, pn2: Node)
    requires WellFormed(nodes, depth, bound, nextId) && p in nodes && Detached(n)
    requires GainsLeaf(nodes[p], pn2, nextId)
    ensures nextId !in nodes
    ensures WellFormed(AddLeaf(nodes, p, nextId, n, pn2), LeafDepth(depth, p, nextId), bound + 1, nextId + 1)
  {
    LeafLinked(nodes, depth, bound, nextId, p, n, pn2);
    LeafRest(nodes, depth, bound, nextId, p, n, pn2);
  }

  /** add_child(p, c) for the fresh node c. */
  function AttachChild(nodes: Arena, p: NodeId, c: NodeId, n: Node): Arena
    requires p in nodes
  {
    AddLeaf(nodes, p, c, n, AddChild(nodes[p], c))
  }

  /** add_sibling(s, c) for the fresh node c: it joins the children of s's parent. */
  function AttachSibling(nodes: Arena, p: NodeId, s: NodeId, c: NodeId, n: Node): Arena
    requires p in nodes
  {
    AddLeaf(nodes, p, c, n, AddSibling(nodes[p], s, c))
  }

  /** The floating append of new_floating_view for the fresh view c. */
  function AttachFloating(nodes: Arena, ws: NodeId, c: NodeId, n: Node): Arena
    requires ws in nodes
  {
    AddLeaf(nodes, ws, c, n, AddFloating(nodes[ws], c))
  }

  lemma AttachChildWellFormed(nodes: Arena, depth: Ranks, bound: nat, nextId: NodeId, p: NodeId, n: Node)
    requires WellFormed(nodes, depth, bound, nextId) && p in nodes && nodes[p].kind != View && Detached(n)
    ensures nextId !in nodes
    ensures WellFormed(AttachChild(nodes, p, nextId, n), LeafDepth(depth, p, nextId), bound + 1, nextId + 1)
  {
    assert !InList(nextId, nodes[p]);
    AddChildGains(nodes[p], nextId);
    AddLeafWellFormed(nodes, depth, bound, nextId, p, n, AddChild(nodes[p], nextId));
  }

  /** A node that lists another is not a view. */
  lemma HolderNotView(nodes: Arena, depth: Ranks, bound: nat, nextId: NodeId, s: NodeId)
    requires WellFormed(nodes, depth, bound, nextId) && s in nodes && s != RootId
    ensures nodes[s].parent.Some? && nodes[s].parent.value in nodes && nodes[nodes[s].parent.value].kind != View
  {
    Up(nodes, depth, s);
  }

  lemma AttachSiblingWellFormed(nodes: Arena, depth: Ranks, bound: nat, nextId: NodeId, s: NodeId, n: Node)
    requires WellFormed(nodes, depth, bound, nextId) && s in nodes && s != RootId && Detached(n)
    ensures nodes[s].parent.Some? && nodes[s].parent.value in nodes
    ensures var p := nodes[s].parent.value;
      WellFormed(AttachSibling(nodes, p, s, nextId, n), LeafDepth(depth, p, nextId), bound + 1, nextId + 1)
  {
    HolderNotView(nodes, depth, bound, nextId, s);
    var p := nodes[s].parent.value;
    assert !InList(nextId, nodes[p]);
    AddSiblingGains(nodes[p], s, nextId);
    AddLeafWellFormed(nodes, depth, bound, nextId, p, n, AddSibling(nodes[p], s, nextId));
  }

  lemma AttachFloatingWellFormed(nodes: Arena, depth: Ranks, bound: nat, nextId: NodeId, ws: NodeId, n: Node)
    requires WellFormed(nodes, depth, bound, nextId) && ws in nodes && nodes[ws].kind == Workspace && Detached(n)
    ensures nextId !in nodes
    ensures WellFormed(AttachFloating(nodes, ws, nextId, n), LeafDepth(depth, ws, nextId), bound + 1, nextId + 1)
  {
    assert !InList(nextId, nodes[ws]);
    AddFloatingGains(nodes[ws], nextId);
    AddLeafWellFormed(nodes, depth, bound, nextId, ws, n, AddFloating(nodes[ws], nextId));
  }

  // ------------------------------------------------------ wrapping in a container

  /** The ranks after a container goes in below p: every rank doubles and the
      container sits between p and p's children. */
  function WrapDepth(depth: Ranks, p: NodeId, k: NodeId): Ranks
    requires p in depth
  {
    (map m | m in depth :: 2 * depth[m])[k := 2 * depth[p] + 1]
  }

  /** The arena after the fresh container k, whose record is kn, goes in
      below p, which becomes pn2, and takes over the nodes in moved. */
  function Interpose(nodes: Arena, p: NodeId, k: NodeId, moved: seq<NodeId>, pn2: Node, kn: Node): Arena {
    Reparented(nodes, moved, k)[k := kn][p := pn2]
  }

  /** The arena after every node of moved names k as its parent. */
  function Reparented(nodes: Arena, moved: seq<NodeId>, k: NodeId): Arena {
    map m | m in nodes :: if m in moved then nodes[m].(parent := Some(k)) else nodes[m]
  }

  /** Re-parenting one more node, as the loop of new_container does. */
  lemma ReparentedStep(nodes: Arena, moved: seq<NodeId>, g: NodeId, k: NodeId)
    requires g in nodes
    ensures var r := Reparented(nodes, moved, k);
      g in r && r[g := r[g].(parent := Some(k))] == Reparented(nodes, moved + [g], k)
  {
  }

  /** What Interpose needs of its arguments: the moved nodes are listed by
      p, which afterwards lists k instead of them; k is a container holding
      exactly the moved nodes, whose focus, if live, is below p. */
  ghost predicate InterposeOk(nodes: Arena, depth: Ranks, nextId: NodeId, p: NodeId, moved: seq<NodeId>, pn2: Node, kn: Node) {
    p in nodes && p in depth && NoDup(moved) &&
    (forall x :: x in moved ==> InList(x, nodes[p])) &&
    pn2 == nodes[p].(children := pn2.children, floating := pn2.floating, focused := pn2.focused, layout := pn2.layout) &&
    (forall x :: InList(x, pn2) <==> (InList(x, nodes[p]) && x !in moved) || x == nextId) &&
    NoDup(pn2.children + pn2.floating) &&
    (nodes[p].kind != Workspace ==> pn2.floating == []) &&
    (nodes[p].kind == View ==> pn2.children == []) &&
    (pn2.focused == nodes[p].focused || pn2.focused == Some(nextId)) &&
    kn.kind == Container && kn.parent == Some(p) && kn.children == moved && kn.floating == [] &&
    (kn.focused.Some? ==> kn.focused.value < nextId) &&
    (kn.focused.Some? && kn.focused.value in nodes ==> kn.focused.value in depth && depth[p] < depth[kn.focused.value])
  }

  lemma MovedBelow(nodes: Arena, depth: Ranks, bound: nat, nextId: NodeId, p: NodeId, moved: seq<NodeId>, pn2: Node, kn: Node, x: NodeId)
    requires WellFormed(nodes, depth, bound, nextId) && InterposeOk(nodes, depth, nextId, p, moved, pn2, kn)
    requires x in moved
    ensures x in nodes && x != p && x != nextId && nodes[x].parent == Some(p) && x in depth && depth[p] < depth[x]
  {
    assert InList(x, nodes[p]);
  }

  lemma InterposeOrdered(nodes: Arena, depth: Ranks, bound: nat, nextId: NodeId, p: NodeId, moved: seq<NodeId>, pn2: Node, kn: Node)
    requires WellFormed(nodes, depth, bound, nextId) && InterposeOk(nodes, depth, nextId, p, moved, pn2, kn)
    ensures var r := Interpose(nodes, p, nextId, moved, pn2, kn);
      Ordered(r, WrapDepth(depth, p, nextId), 2 * bound) && BackLinks(r)
  {
    var k := nextId;
    var r := Interpose(nodes, p, k, moved, pn2, kn);
    var d2 := WrapDepth(depth, p, k);
    assert k !in nodes;
    forall id: NodeId, x: NodeId {:trigger InList(x, r[id])} | id in r && InList(x, r[id])
      ensures x in r && r[x].parent == Some(id) && id in d2 && x in d2 && d2[id] < d2[x] < 2 * bound
    {
      if id == p {
        if x != k {
          assert InList(x, nodes[p]);
        }
      } else if id == k {
        MovedBelow(nodes, depth, bound, nextId, p, moved, pn2, kn, x);
      } else {
        assert InList(x, nodes[id]);
        if x in moved {
          MovedBelow(nodes, depth, bound, nextId, p, moved, pn2, kn, x);
        }
      }
    }
  }

  lemma InterposeUpLinks(nodes: Arena, depth: Ranks, bound: nat, nextId: NodeId, p: NodeId, moved: seq<NodeId>, pn2: Node, kn: Node)
    requires WellFormed(nodes, depth, bound, nextId) && InterposeOk(nodes, depth, nextId, p, moved, pn2, kn)
    ensures UpLinks(Interpose(nodes, p, nextId, moved, pn2, kn), WrapDepth(depth, p, nextId))
  {
    var k := nextId;
    var r := Interpose(nodes, p, k, moved, pn2, kn);
    var d2 := WrapDepth(depth, p, k);
    forall x | Live(r, x)
      ensures UpLink(r, d2, x)
    {
      if x == k {
        assert InList(k, pn2);
      } else if x in moved {
        MovedBelow(nodes, depth, bound, nextId, p, moved, pn2, kn, x);
      } else {
        Up(nodes, depth, x);
        if nodes[x].parent.Some? {
          var q := nodes[x].parent.value;
          if q in moved {
            MovedBelow(nodes, depth, bound, nextId, p, moved, pn2, kn, q);
            if x == p {
              Up(nodes, depth, q);
            }
          }
          if q == p {
            assert InList(x, pn2);
          }
        }
      }
    }
  }

  lemma InterposeRest(nodes: Arena, depth: Ranks, bound: nat, nextId: NodeId, p: NodeId, moved: seq<NodeId>, pn2: Node, kn: Node)
    requires WellFormed(nodes, depth, bound, nextId) && InterposeOk(nodes, depth, nextId, p, moved, pn2, kn)
    ensures var r := Interpose(nodes, p, nextId, moved, pn2, kn);
      Distinct(r) && KindsOk(r) && IdsBelow(r, nextId + 1)
  {
    NoDupConcat(kn.children, kn.floating);
  }

  lemma InterposeFocus(nodes: Arena, depth: Ranks, bound: nat, nextId: NodeId, p: NodeId, moved: seq<NodeId>, pn2: Node, kn: Node)
    requires WellFormed(nodes, depth, bound, nextId) && InterposeOk(nodes, depth, nextId, p, moved, pn2, kn)
    ensures FocusDeeper(Interpose(nodes, p, nextId, moved, pn2, kn), WrapDepth(depth, p, nextId))
  {
    var k := nextId;
    var r := Interpose(nodes, p, k, moved, pn2, kn);
    var d2 := WrapDepth(depth, p, k);
    forall id | Live(r, id)
      ensures FocusLink(r, d2, id)
    {
      if id == k && kn.focused.Some? && kn.focused.value in nodes {
        assert d2[kn.focused.value] == 2 * depth[kn.focused.value];
      }
      if id != k && r[id].focused.Some? && r[id].focused.value in r {
        Focus(nodes, depth, id);
        var f := r[id].focused.value;
        if f != k {
          assert r[id].focused == nodes[id].focused;
          assert d2[id] == 2 * depth[id] && d2[f] == 2 * depth[f];
        }
      }
    }
  }

  /** Putting a fresh container between a holder and some of its nodes keeps
      the arena well formed. */
  lemma InterposeWellFormed(nodes: Arena, depth: Ranks, bound: nat, nextId: NodeId, p: NodeId, moved: seq<NodeId>, pn2: Node, kn: Node)
    requires WellFormed(nodes, depth, bound, nextId) && InterposeOk(nodes, depth, nextId, p, moved, pn2, kn)
    ensures nextId !in nodes
    ensures WellFormed(Interpose(nodes, p, nextId, moved, pn2, kn), WrapDepth(depth, p, nextId), 2 * bound, nextId + 1)
  {
    InterposeOrdered(nodes, depth, bound, nextId, p, moved, pn2, kn);
    InterposeUpLinks(nodes, depth, bound, nextId, p, moved, pn2, kn);
    InterposeRest(nodes, depth, bound, nextId, p, moved, pn2, kn);
    InterposeFocus(nodes, depth, bound, nextId, p, moved, pn2, kn);
  }

  /** The container new_container builds around a workspace: it takes the
      workspace's geometry, visibility, layout, focus and children. */
  function WorkspaceWrapper(wn: Node, ws: NodeId): (kn: Node) {
    NewSwayc(Container).(layout := wn.layout, width := wn.width, height := wn.height,
                         x := wn.x, y := wn.y, visible := wn.visible, focused := wn.focused,
                         parent := Some(ws), children := wn.children)
  }

  /** new_container(ws, layout), lines 179-198: the workspace's children move
      into the fresh container k, which becomes the workspace's only child and
      its focus; the workspace takes the requested layout. */
  function WrapWorkspace(nodes: Arena, ws: NodeId, k: NodeId, layout: Layout): (r: Arena)
    requires ws in nodes
    ensures r.Keys == nodes.Keys + {k}
    ensures k != ws ==> r[k].children == nodes[ws].children && r[k].parent == Some(ws)
    ensures forall m :: m in nodes && m in nodes[ws].children && m != ws && m != k ==> r[m].parent == Some(k)
  {
    var wn := nodes[ws];
    Interpose(nodes, ws, k, wn.children, wn.(children := [k], focused := Some(k), layout := layout), WorkspaceWrapper(wn, ws))
  }

  lemma WrapWorkspaceOk(nodes: Arena, depth: Ranks, bound: nat, nextId: NodeId, ws: NodeId, layout: Layout)
    requires WellFormed(nodes, depth, bound, nextId) && ws in nodes && nodes[ws].kind == Workspace
    ensures var wn := nodes[ws];
      InterposeOk(nodes, depth, nextId, ws, wn.children, wn.(children := [nextId], focused := Some(nextId), layout := layout), WorkspaceWrapper(wn, ws))
  {
    var wn := nodes[ws];
    var pn2 := wn.(children := [nextId], focused := Some(nextId), layout := layout);
    NoDupConcat(wn.children, wn.floating);
    assert nextId !in nodes;
    assert !InList(nextId, nodes[ws]);
    NoDupConcat(pn2.children, pn2.floating);
    Focus(nodes, depth, ws);
  }

  /** new_container(ws, layout) keeps the arena well formed. */
  lemma WrapWorkspaceWellFormed(nodes: Arena, depth: Ranks, bound: nat, nextId: NodeId, ws: NodeId, layout: Layout)
    requires WellFormed(nodes, depth, bound, nextId) && ws in nodes && nodes[ws].kind == Workspace
    ensures WellFormed(WrapWorkspace(nodes, ws, nextId, layout), WrapDepth(depth, ws, nextId), 2 * bound, nextId + 1)
  {
    WrapWorkspaceOk(nodes, depth, bound, nextId, ws, layout);
    InterposeWellFormed(nodes, depth, bound, nextId, ws, nodes[ws].children,
      nodes[ws].(children := [nextId], focused := Some(nextId), layout := layout), WorkspaceWrapper(nodes[ws], ws));
  }

  /** replace_child(c, k), as seen from c's holder: k takes c's slot in
      whichever list holds it, and the holder's focus follows. */
  function ReplaceChild(pn: Node, c: NodeId, k: NodeId): (r: Node)
    requires InList(c, pn)
    ensures InList(k, r) && forall x :: InList(x, r) ==> InList(x, pn) || x == k
    ensures |r.children| == |pn.children| && |r.floating| == |pn.floating|
    ensures pn.focused == Some(c) ==> r.focused == Some(k)
    ensures pn.focused != Some(c) ==> r.focused == pn.focused
  {
    var f := if pn.focused == Some(c) then Some(k) else pn.focused;
    if c in pn.children then
      var i := IndexOf(pn.children, c);
      assert pn.children[i := k][i] == k;
      pn.(children := pn.children[i := k], focused := f)
    else
      var i := IndexOf(pn.floating, c);
      assert pn.floating[i := k][i] == k;
      pn.(floating := pn.floating[i := k], focused := f)
  }

  lemma ReplaceMembers(s: seq<NodeId>, i: nat, y: NodeId)
    requires i < |s| && NoDup(s) && y !in s
    ensures NoDup(s[i := y])
    ensures forall x :: x in s[i := y] <==> (x in s && x != s[i]) || x == y
  {
    var t := s[i := y];
    assert t[i] == y;
    forall x | x in s && x != s[i]
      ensures x in t
    {
      var j :| 0 <= j < |s| && s[j] == x;
      assert j != i && t[j] == x;
    }
    forall x | x in t && x != y
      ensures x in s && x != s[i]
    {
      var j :| 0 <= j < |t| && t[j] == x;
      assert j != i && s[j] == x;
    }
  }

  /** The container new_container builds around a node other than a
      workspace: the node's geometry and visibility, the requested layout,
      and the node as its only child and focus. */
  function ChildWrapper(cn: Node, c: NodeId, p: NodeId, layout: Layout): Node {
    NewSwayc(Container).(layout := layout, width := cn.width, height := cn.height,
                         x := cn.x, y := cn.y, visible := cn.visible,
                         parent := Some(p), children := [c], focused := Some(c))
  }

  /** new_container(c, layout), lines 199-204, for a c with a parent p: the
      fresh container k takes c's slot in p and holds c. */
  function WrapChild(nodes: Arena, c: NodeId, p: NodeId, k: NodeId, layout: Layout): (r: Arena)
    requires c in nodes && p in nodes && InList(c, nodes[p])
    ensures r.Keys == nodes.Keys + {k}
    ensures InList(k, r[p])
    ensures c != p && c != k ==> r[c].parent == Some(k)
    ensures k != p ==> r[k].children == [c] && r[k].parent == Some(p)
  {
    Interpose(nodes, p, k, [c], ReplaceChild(nodes[p], c, k), ChildWrapper(nodes[c], c, p, layout))
  }

  lemma WrapChildOk(nodes: Arena, depth: Ranks, bound: nat, nextId: NodeId, c: NodeId, p: NodeId, layout: Layout)
    requires WellFormed(nodes, depth, bound, nextId) && p in nodes && InList(c, nodes[p])
    ensures c in nodes
    ensures InterposeOk(nodes, depth, nextId, p, [c], ReplaceChild(nodes[p], c, nextId), ChildWrapper(nodes[c], c, p, layout))
  {
    var pn := nodes[p];
    var pn2 := ReplaceChild(pn, c, nextId);
    assert c in nodes && c < nextId;
    Up(nodes, depth, c);
    assert !InList(nextId, nodes[p]);
    NoDupConcat(pn.children, pn.floating);
    if c in pn.children {
      ReplaceMembers(pn.children, IndexOf(pn.children, c), nextId);
    } else {
      ReplaceMembers(pn.floating, IndexOf(pn.floating, c), nextId);
    }
    NoDupConcat(pn2.children, pn2.floating);
  }

  /** new_container(c, layout) on a node with a parent keeps the arena well formed. */
  lemma WrapChildWellFormed(nodes: Arena, depth: Ranks, bound: nat, nextId: NodeId, c: NodeId, p: NodeId, layout: Layout)
    requires WellFormed(nodes, depth, bound, nextId) && p in nodes && InList(c, nodes[p])
    ensures c in nodes
    ensures WellFormed(WrapChild(nodes, c, p, nextId, layout), WrapDepth(depth, p, nextId), 2 * bound, nextId + 1)
  {
    WrapChildOk(nodes, depth, bound, nextId, c, p, layout);
    InterposeWellFormed(nodes, depth, bound, nextId, p, [c], ReplaceChild(nodes[p], c, nextId), ChildWrapper(nodes[c], c, p, layout));
  }

  // ---------------------------------------------------------- field changes

  /** b differs from a at most in fields that do not bear on the shape. */
  ghost predicate SameShape(a: Arena, b: Arena) {
    a.Keys == b.Keys &&
    forall m :: m in a ==>
      b[m].kind == a[m].kind && b[m].parent == a[m].parent && b[m].children == a[m].children &&
      b[m].floating == a[m].floating && b[m].focused == a[m].focused
  }

  lemma SameShapeWellFormed(a: Arena, b: Arena, depth: Ranks, bound: nat, nextId: NodeId)
    requires WellFormed(a, depth, bound, nextId) && SameShape(a, b)
    ensures WellFormed(b, depth, bound, nextId)
  {
    forall id: NodeId, x: NodeId {:trigger InList(x, b[id])} | id in b && InList(x, b[id])
      ensures x in b && b[x].parent == Some(id) && id in depth && x in depth && depth[id] < depth[x] < bound
    {
      assert InList(x, a[id]);
    }
    forall x | Live(b, x)
      ensures UpLink(b, depth, x)
    {
      Up(a, depth, x);
    }
    forall x | Live(b, x)
      ensures FocusLink(b, depth, x)
    {
      Focus(a, depth, x);
      if b[x].focused.Some? {
        assert b[x].focused.value in b <==> b[x].focused.value in a;
      }
    }
  }
}
