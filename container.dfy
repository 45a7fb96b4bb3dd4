/** The lifecycle of the container tree (sway/container.c): creating outputs,
    workspaces, wrapping containers and views, destroying them, and the
    visibility and gap traversals. The tree is a class holding the arena;
    each operation is a method stated against the arena edits of TreeEdit
    and TreeShape, and the backend calls it makes are appended to a log. */
module ContainerTree {
  import opened Common
  import opened TreeTypes
  import opened TreeShape
  import opened TreeEdit
  import opened TreeLookup
  import opened TreeMap

  // ----------------------------------------------------------- configuration

  /** The position of the first output config whose name matches, ignoring
      case, or |cs| when none does. */
  function ConfigIndex(cs: seq<OutputConfig>, name: string): (i: nat)
    ensures i <= |cs|
    ensures i < |cs| ==> SameIgnoringCase(name, cs[i].name)
    ensures forall j :: 0 <= j < i ==> !SameIgnoringCase(name, cs[j].name)
  {
    if cs == [] then 0
    else if SameIgnoringCase(name, cs[0].name) then 0
    else 1 + ConfigIndex(cs[1..], name)
  }

  /** The output config new_output settles on: the first one whose name
      matches, or null. */
  function ConfigFor(cs: seq<OutputConfig>, name: string): (oc: Option<OutputConfig>)
    ensures oc.Some? ==> oc.value in cs && SameIgnoringCase(name, oc.value.name)
    ensures oc.None? ==> forall c :: c in cs ==> !SameIgnoringCase(name, c.name)
  {
    var i := ConfigIndex(cs, name);
    if i < |cs| then Some(cs[i]) else None
  }

  /** The config new_output settles on for an output the backend may leave
      unnamed: an unnamed output matches no config. */
  function NamedConfig(cs: seq<OutputConfig>, name: Option<string>): (oc: Option<OutputConfig>)
    ensures name.None? ==> oc.None?
    ensures name.Some? && oc.Some? ==> oc.value in cs && SameIgnoringCase(name.value, oc.value.name)
    ensures name.Some? && oc.None? ==> forall c :: c in cs ==> !SameIgnoringCase(name.value, c.name)
  {
    if name.Some? then ConfigFor(cs, name.value) else None
  }

  /** The config loop of new_output: oc is reset to null after every
      mismatch, so a scan that finds nothing leaves it null. */
  method MatchOutputConfig(cs: seq<OutputConfig>, name: string) returns (oc: Option<OutputConfig>)
    ensures oc == ConfigFor(cs, name)
  {
    var i := 0;
    while i < |cs|
      invariant 0 <= i <= |cs|
      invariant forall j :: 0 <= j < i ==> !SameIgnoringCase(name, cs[j].name)
    {
      oc := Some(cs[i]);
      if SameIgnoringCase(name, cs[i].name) {
        return;
      }
      oc := None;
      i := i + 1;
    }
    oc := None;
  }

  /** A matched config that sets both width and height. */
  predicate Sized(oc: Option<OutputConfig>) {
    oc.Some? && oc.value.width != -1 && oc.value.height != -1
  }

  /** A matched config that sets both x and y. */
  predicate Positioned(oc: Option<OutputConfig>) {
    oc.Some? && oc.value.x != -1 && oc.value.y != -1
  }

  /** The position of the first workspace_output entry for the output, or |wsos|. */
  function WorkspaceOutputIndex(wsos: seq<WorkspaceOutput>, name: string): (i: nat)
    ensures i <= |wsos|
    ensures i < |wsos| ==> SameIgnoringCase(wsos[i].output, name)
    ensures forall j :: 0 <= j < i ==> !SameIgnoringCase(wsos[j].output, name)
  {
    if wsos == [] then 0
    else if SameIgnoringCase(wsos[0].output, name) then 0
    else 1 + WorkspaceOutputIndex(wsos[1..], name)
  }

  /** The name new_output gives the output's first workspace: the workspace
      of the first entry for the output when no workspace of that name
      exists yet, and otherwise the next generated name. */
  function FirstWorkspaceName(nodes: Arena, ghost depth: Ranks, ghost bound: nat, wsos: seq<WorkspaceOutput>,
                              name: string, nextName: string): (r: string)
    requires Linked(nodes, depth, bound)
    ensures r == nextName ||
      (exists i :: 0 <= i < |wsos| && SameIgnoringCase(wsos[i].output, name) && r == wsos[i].workspace)
    ensures r != nextName ==>
      WorkspaceOutputIndex(wsos, name) < |wsos| && r == wsos[WorkspaceOutputIndex(wsos, name)].workspace
    ensures r != nextName ==>
      forall x :: x in SearchOrder(nodes, depth, bound, RootId) ==> !WorkspaceNameTest(r)(nodes[x])
    ensures (forall i :: 0 <= i < |wsos| ==> !SameIgnoringCase(wsos[i].output, name)) ==> r == nextName
    ensures var i := WorkspaceOutputIndex(wsos, name);
      i < |wsos| && WorkspaceByName(nodes, depth, bound, wsos[i].workspace).None? ==> r == wsos[i].workspace
  {
    var i := WorkspaceOutputIndex(wsos, name);
    if i < |wsos| && WorkspaceByName(nodes, depth, bound, wsos[i].workspace).None? then wsos[i].workspace
    else nextName
  }

  // ------------------------------------------------------------- placement

  /** The right edge of the outputs among s: the largest x + width, or 0. */
  function RightEdge(nodes: Arena, s: seq<NodeId>): (x: int)
    requires AllLive(nodes, s)
    ensures x >= 0
    ensures forall m :: m in s && nodes[m].kind == Output ==> x >= nodes[m].x + nodes[m].width
    ensures x == 0 || exists m :: m in s && nodes[m].kind == Output && x == nodes[m].x + nodes[m].width
    decreases |s|
  {
    if s == [] then 0
    else
      var x := RightEdge(nodes, s[..|s| - 1]);
      var c := nodes[s[|s| - 1]];
      if c.kind == Output && c.width + c.x > x then c.width + c.x else x
  }

  /** The position loop of new_output over the outputs listed by the root. */
  method OutputsRightEdge(nodes: Arena, kids: seq<NodeId>) returns (x: int)
    requires AllLive(nodes, kids)
    ensures x == RightEdge(nodes, kids)
  {
    x := 0;
    var i := 0;
    while i < |kids|
      invariant 0 <= i <= |kids|
      invariant x == RightEdge(nodes, kids[..i])
    {
      assert kids[..i + 1][..i] == kids[..i];
      var c := nodes[kids[i]];
      if c.kind == Output && c.width + c.x > x {
        x := c.width + c.x;
      }
      i := i + 1;
    }
    assert kids[..i] == kids;
  }

  /** The output record new_output fills in: the configured size when both
      dimensions are set, else the reported one; the configured position
      when both coordinates are set, else x at the given right edge and y 0;
      outer gaps plus half the inner gaps. */
  function OutputNode(handle: int, name: Option<string>, reportedWidth: int, reportedHeight: int,
                      cfg: Config, oc: Option<OutputConfig>, edge: int): (r: Node)
    ensures Detached(r) && r.kind == Output && r.handle == handle && r.name == name
    ensures Sized(oc) ==> r.width == oc.value.width && r.height == oc.value.height
    ensures !Positioned(oc) ==> r.x == edge && r.y == 0
  {
    NewSwayc(Output).(
      width := if Sized(oc) then oc.value.width else reportedWidth,
      height := if Sized(oc) then oc.value.height else reportedHeight,
      handle := handle, name := name,
      gaps := cfg.gapsOuter + CHalf(cfg.gapsInner),
      x := if Positioned(oc) then oc.value.x else edge,
      y := if Positioned(oc) then oc.value.y else 0)
  }

  /** An output placed without a configured position sits at the right edge
      of the outputs already there: it starts no further left than any of
      them ends, and touches the one ending furthest right. */
  lemma OutputPlacedRight(nodes: Arena, s: seq<NodeId>, handle: int, name: Option<string>, w: int, h: int,
                          cfg: Config, oc: Option<OutputConfig>)
    requires AllLive(nodes, s) && !Positioned(oc)
    ensures var on := OutputNode(handle, name, w, h, cfg, oc, RightEdge(nodes, s));
      on.y == 0 && on.x >= 0 &&
      (forall m :: m in s && nodes[m].kind == Output ==> on.x >= nodes[m].x + nodes[m].width) &&
      (on.x == 0 || exists m :: m in s && nodes[m].kind == Output && on.x == nodes[m].x + nodes[m].width)
  {
  }

  /** The workspace record new_workspace fills in: it covers the output,
      is visible, and lays out horizontally. */
  function WorkspaceNode(on: Node, name: string): (r: Node)
    ensures Detached(r) && r.kind == Workspace && r.visible && r.name == Some(name)
    ensures r.x == on.x && r.y == on.y && r.width == on.width && r.height == on.height
  {
    NewSwayc(Workspace).(layout := Horizontal, x := on.x, y := on.y, width := on.width, height := on.height,
                         name := Some(name), visible := true)
  }

  /** The view record new_view fills in: visible and focused, no size yet,
      the reported geometry as its desired size, and the inner gaps. */
  function ViewNode(handle: int, title: Option<string>, reportedWidth: int, reportedHeight: int, gapsInner: int): (r: Node)
    ensures Detached(r) && r.kind == View && r.handle == handle && r.visible && r.isFocused && !r.isFloating
    ensures r.name == title && r.gaps == gapsInner && r.width == 0 && r.height == 0
    ensures r.desiredWidth == reportedWidth && r.desiredHeight == reportedHeight
  {
    NewSwayc(View).(handle := handle, name := title, visible := true, isFocused := true,
                    width := 0, height := 0, desiredWidth := reportedWidth, desiredHeight := reportedHeight,
                    gaps := gapsInner, isFloating := false)
  }

  /** The view record new_floating_view fills in: the requested size,
      centred on the workspace with C's truncating division. */
  function FloatingViewNode(handle: int, title: Option<string>, w: int, h: int, ws: Node): (r: Node)
    ensures Detached(r) && r.kind == View && r.handle == handle && r.visible && r.isFloating && r.name == title
    ensures r.width == w && r.height == h && r.desiredWidth == w && r.desiredHeight == h
  {
    NewSwayc(View).(handle := handle, name := title, visible := true,
                    x := CHalf(ws.width - w), y := CHalf(ws.height - h), width := w, height := h,
                    desiredWidth := w, desiredHeight := h, isFloating := true)
  }

  /** A floating view is centred: its margins on the two sides differ by at
      most one. When it is wider than the workspace both margins are
      negative and the left one is the larger, as truncation toward zero
      rounds the half up. */
  lemma FloatingViewCentred(handle: int, title: Option<string>, w: int, h: int, ws: Node)
    ensures var v := FloatingViewNode(handle, title, w, h, ws);
      var left := v.x; var right := ws.width - (v.x + v.width);
      var top := v.y; var bottom := ws.height - (v.y + v.height);
      (w <= ws.width ==> 0 <= left && 0 <= right - left <= 1) &&
      (w > ws.width ==> left <= 0 && 0 <= left - right <= 1) &&
      (h <= ws.height ==> 0 <= top && 0 <= bottom - top <= 1) &&
      (h > ws.height ==> top <= 0 && 0 <= top - bottom <= 1)
  {
  }

  /** new_view(s, ·) when s is a workspace: the view is appended to s's
      children, and becomes s's focus when it is s's first child; nothing
      else changes. */
  lemma ViewAddedToWorkspace(nodes: Arena, nextId: NodeId, s: NodeId, n: Node)
    requires s in nodes && nextId !in nodes
    ensures var r := AttachChild(nodes, s, nextId, n); var v := nextId; var sn := nodes[s];
      r.Keys == nodes.Keys + {v} && r[v] == n.(parent := Some(s)) &&
      r[s].children == sn.children + [v] && r[s].floating == sn.floating &&
      r[s].focused == (if sn.children == [] then Some(v) else sn.focused) &&
      r[s].kind == sn.kind && r[s].parent == sn.parent &&
      (forall m :: m in nodes && m != s ==> r[m] == nodes[m])
  {
  }

  /** new_view(s, ·) when s is not a workspace and p is its parent (which
      WrappedHasParent provides for any s but the root): the view joins the
      children of p right after s (at the end when s floats), p's focus
      and floating list stay, and nothing else changes. */
  lemma ViewAddedBeside(nodes: Arena, nextId: NodeId, s: NodeId, p: NodeId, n: Node)
    requires s in nodes && p in nodes && s != p && InList(s, nodes[p]) && nextId !in nodes
    ensures var pn := nodes[p]; var v := nextId;
      var r := AttachSibling(nodes, p, s, v, n); var i := IndexOf(pn.children, s);
      r.Keys == nodes.Keys + {v} && r[v] == n.(parent := Some(p)) &&
      (s in pn.children ==>
         r[p].children == pn.children[..i + 1] + [v] + pn.children[i + 1..] &&
         r[p].children[i] == s && r[p].children[i + 1] == v) &&
      (s !in pn.children ==> r[p].children == pn.children + [v]) &&
      r[p].floating == pn.floating && r[p].focused == pn.focused &&
      r[p].kind == pn.kind && r[p].parent == pn.parent &&
      (forall m :: m in nodes && m != p ==> r[m] == nodes[m])
  {
    var pn, v := nodes[p], nextId;
    var r := AttachSibling(nodes, p, s, v, n);
    assert r == nodes[v := n.(parent := Some(p))][p := AddSibling(pn, s, v)];
    assert r[p] == AddSibling(pn, s, v);
    if s in pn.children {
      assert SiblingSlot(pn.children, s) == IndexOf(pn.children, s) + 1;
    }
  }

  /** new_floating_view on the active workspace ws: the view is appended to
      ws's floating list, takes ws's focus when ws had none, and nothing
      else changes. */
  lemma FloatingViewAdded(nodes: Arena, nextId: NodeId, ws: NodeId, n: Node)
    requires ws in nodes && nextId !in nodes
    ensures var r := AttachFloating(nodes, ws, nextId, n); var v := nextId; var wn := nodes[ws];
      r.Keys == nodes.Keys + {v} && r[v] == n.(parent := Some(ws)) &&
      r[ws].floating == wn.floating + [v] && r[ws].children == wn.children &&
      r[ws].focused == (if wn.focused.None? then Some(v) else wn.focused) &&
      r[ws].kind == wn.kind && r[ws].parent == wn.parent &&
      (forall m :: m in nodes && m != ws ==> r[m] == nodes[m])
  {
  }

  // ------------------------------------------------------- destroy_workspace

  /** The guards of destroy_workspace, lines 300-313: a workspace stays when
      the nearest output above it has exactly one child, or when it holds
      any tiled or floating node. */
  predicate WorkspaceKept(nodes: Arena, ghost depth: Ranks, ghost bound: nat, w: NodeId)
    requires Ranked(nodes, depth, bound) && UpLinks(nodes, depth) && w in nodes
  {
    var o := ParentOf(nodes, depth, bound, w, KindIs(Output));
    (o.Some? && |nodes[o.value].children| == 1) || nodes[w].children != [] || nodes[w].floating != []
  }

  /** The output guard of destroy_workspace: when the workspace's parent is
      an output, that output is the nearest one, so it lists the workspace
      among at least two children. */
  lemma OutputGuard(nodes: Arena, depth: Ranks, bound: nat, nextId: NodeId, w: NodeId)
    requires WellFormed(nodes, depth, bound, nextId) && w in nodes && w != RootId
    requires !WorkspaceKept(nodes, depth, bound, w)
    ensures nodes[w].parent.Some? && nodes[w].parent.value in nodes
    ensures var pn := nodes[nodes[w].parent.value];
      pn.kind == Output ==> w in pn.children && |pn.children| >= 2 && NoDup(pn.children)
  {
    Up(nodes, depth, w);
    var p := nodes[w].parent.value;
    if nodes[p].kind == Output {
      assert Ancestors(nodes, depth, bound, w) == [p] + Ancestors(nodes, depth, bound, p);
      assert ParentOf(nodes, depth, bound, w, KindIs(Output)) == Some(p);
      assert nodes[p].floating == [];
      assert nodes[p].children + nodes[p].floating == nodes[p].children;
      assert NoDup(nodes[p].children + nodes[p].floating);
    }
  }

  /** A workspace destroy_workspace frees goes alone, its parent stops
      listing it and nothing else changes; an output that held it keeps at
      least one child, so the last workspace of an output is never freed. */
  lemma WorkspaceDestroyed(nodes: Arena, depth: Ranks, bound: nat, nextId: NodeId, w: NodeId)
    requires WellFormed(nodes, depth, bound, nextId) && w in nodes && w != RootId
    requires !WorkspaceKept(nodes, depth, bound, w)
    ensures nodes[w].parent.Some? && nodes[w].parent.value in nodes
    ensures var p := nodes[w].parent.value; var r := RemoveSubtree(nodes, depth, bound, w);
      r.Keys == nodes.Keys - {w} && p in r &&
      (forall x :: InList(x, r[p]) <==> InList(x, nodes[p]) && x != w) &&
      (forall m :: m in r && m != p ==> r[m] == nodes[m]) &&
      (nodes[p].kind == Output ==> |r[p].children| >= 1)
  {
    OutputGuard(nodes, depth, bound, nextId, w);
    RemoveSubtreeWellFormed(nodes, depth, bound, nextId, w);
    RemoveLeaf(nodes, depth, bound, nextId, w);
    var p := nodes[w].parent.value;
    var pn := nodes[p];
    assert InList(w, pn) && NoDup(pn.children + pn.floating);
    RemoveChildFacts(pn, w);
    if pn.kind == Output {
      WithoutMembers(pn.children, IndexOf(pn.children, w));
    }
  }

  // ------------------------------------------------------- destroy_container

  /** The loop of destroy_container: while the current node is an empty
      container it is freed and its parent becomes current. The arena after
      the loop, and the node it stops at. */
  function Collapse(nodes: Arena, ghost depth: Ranks, ghost bound: nat, ghost nextId: NodeId, c: NodeId): (r: (Arena, NodeId))
    requires WellFormed(nodes, depth, bound, nextId) && c in nodes
    ensures r.1 in r.0 && r.0.Keys <= nodes.Keys
    ensures !(r.0[r.1].kind == Container && r.0[r.1].children == [])
    decreases depth[c]
  {
    if nodes[c].kind == Container && nodes[c].children == [] then
      RemoveSubtreeWellFormed(nodes, depth, bound, nextId, c);
      Up(nodes, depth, c);
      Collapse(RemoveSubtree(nodes, depth, bound, c), depth, bound, nextId, nodes[c].parent.value)
    else (nodes, c)
  }

  /** Freeing one empty container: the arena loses it alone, the parent
      survives with its ancestors, and no other node changes. */
  lemma CollapseStep(nodes: Arena, depth: Ranks, bound: nat, nextId: NodeId, c: NodeId)
    requires WellFormed(nodes, depth, bound, nextId) && c in nodes
    requires nodes[c].kind == Container && nodes[c].children == []
    ensures c != RootId && nodes[c].parent.Some?
    ensures var p := nodes[c].parent.value; var r := RemoveSubtree(nodes, depth, bound, c);
      p in nodes && p in r && WellFormed(r, depth, bound, nextId) && r.Keys == nodes.Keys - {c} &&
      depth[p] < depth[c] &&
      Ancestors(nodes, depth, bound, c) == [p] + Ancestors(nodes, depth, bound, p) &&
      Ancestors(r, depth, bound, p) == Ancestors(nodes, depth, bound, p) &&
      r[p].kind == nodes[p].kind &&
      (forall m :: m in r && m != p ==> r[m] == nodes[m])
  {
    RemoveSubtreeWellFormed(nodes, depth, bound, nextId, c);
    Up(nodes, depth, c);
    var p := nodes[c].parent.value;
    AncestorsOfMember(nodes, depth, bound, p, c);
    RemoveLeaf(nodes, depth, bound, nextId, c);
    AncestorsAfterRemoval(nodes, depth, bound, nextId, c, p);
    RemoveChildFacts(nodes[p], c);
  }

  /** What the loop of destroy_container leaves when it starts at c and
      ends with the arena r at top: top is c or an ancestor of c and is not
      an empty container; only containers on the way up from c were freed;
      and no surviving node but top changed. */
  ghost predicate CollapsedFrom(nodes: Arena, depth: Ranks, bound: nat, c: NodeId, r: Arena, top: NodeId)
    requires Ranked(nodes, depth, bound) && UpLinks(nodes, depth) && c in nodes
  {
    top in r && top in nodes &&
    !(r[top].kind == Container && r[top].children == []) &&
    (top == c || top in Ancestors(nodes, depth, bound, c)) &&
    (top != c ==> c !in r) &&
    r.Keys <= nodes.Keys &&
    (forall m :: m in nodes && m !in r ==>
       nodes[m].kind == Container && (m == c || m in Ancestors(nodes, depth, bound, c))) &&
    r[top].kind == nodes[top].kind &&
    (forall m :: m in r && m != top ==> r[m] == nodes[m])
  }

  /** One freed container more at the bottom of the climb. */
  lemma CollapseLift(nodes: Arena, depth: Ranks, bound: nat, nextId: NodeId, c: NodeId, r: Arena, top: NodeId)
    requires WellFormed(nodes, depth, bound, nextId) && c in nodes
    requires nodes[c].kind == Container && nodes[c].children == []
    requires c != RootId && nodes[c].parent.Some?
    requires var p := nodes[c].parent.value; var r1 := RemoveSubtree(nodes, depth, bound, c);
      p in r1 && WellFormed(r1, depth, bound, nextId) && CollapsedFrom(r1, depth, bound, p, r, top)
    ensures CollapsedFrom(nodes, depth, bound, c, r, top)
  {
    CollapseStep(nodes, depth, bound, nextId, c);
    var p := nodes[c].parent.value;
    var r1 := RemoveSubtree(nodes, depth, bound, c);
    forall m | m in nodes && m !in r
      ensures nodes[m].kind == Container && (m == c || m in Ancestors(nodes, depth, bound, c))
    {
      if m != c {
        assert m in r1;
      }
    }
    forall m | m in r && m != top
      ensures r[m] == nodes[m]
    {
      assert m in r1 && m != p;
    }
  }

  /** destroy_container never leaves an empty container current, frees
      only containers on the way up from where it starts, stops there or
      at an ancestor, and changes no surviving node but the one it stops at. */
  lemma {:induction false} CollapseFacts(nodes: Arena, depth: Ranks, bound: nat, nextId: NodeId, c: NodeId)
    requires WellFormed(nodes, depth, bound, nextId) && c in nodes
    ensures var (r, top) := Collapse(nodes, depth, bound, nextId, c);
      WellFormed(r, depth, bound, nextId) && CollapsedFrom(nodes, depth, bound, c, r, top)
    decreases depth[c]
  {
    if nodes[c].kind == Container && nodes[c].children == [] {
      CollapseStep(nodes, depth, bound, nextId, c);
      var p := nodes[c].parent.value;
      var r1 := RemoveSubtree(nodes, depth, bound, c);
      CollapseFacts(r1, depth, bound, nextId, p);
      var res := Collapse(r1, depth, bound, nextId, p);
      assert Collapse(nodes, depth, bound, nextId, c) == res;
      CollapseLift(nodes, depth, bound, nextId, c, res.0, res.1);
    }
  }

  /** The nodes a holder lists are live. */
  lemma ListsLive(nodes: Arena, depth: Ranks, bound: nat, nextId: NodeId, p: NodeId)
    requires WellFormed(nodes, depth, bound, nextId) && p in nodes
    ensures AllLive(nodes, nodes[p].children) && AllLive(nodes, nodes[p].floating)
  {
    forall c | c in nodes[p].children || c in nodes[p].floating
      ensures c in nodes
    {
      assert InList(c, nodes[p]);
    }
  }

  /** The ranks after new_output: the output one below the root, its
      workspace one below the output. */
  function OutputDepth(depth: Ranks, o: NodeId): Ranks
    requires RootId in depth
  {
    LeafDepth(LeafDepth(depth, RootId, o), o, o + 1)
  }

  /** The arena with w's is_focused flag set. */
  function FocusMarked(nodes: Arena, w: NodeId): Arena
    requires w in nodes
  {
    nodes[w := nodes[w].(isFocused := true)]
  }

  /** The arena after new_output: the output on joins the root with the
      fresh id o, its first workspace wsName, covering it, joins it, and
      the workspace is marked focused. */
  function OutputAdded(nodes: Arena, o: NodeId, on: Node, wsName: string): (r: Arena)
    requires RootId in nodes
    ensures r.Keys == nodes.Keys + {o, o + 1}
    ensures r[o + 1].isFocused && r[o + 1].name == Some(wsName)
  {
    var n1 := AttachChild(nodes, RootId, o, on);
    FocusMarked(AttachChild(n1, o, o + 1, WorkspaceNode(on, wsName)), o + 1)
  }

  /** What new_output leaves: the output joins the root's children, and
      its first workspace, visible, laid out horizontally, covering the
      output and marked focused, is the output's only child and its focus;
      nothing else changes. */
  lemma OutputAddedFacts(nodes: Arena, depth: Ranks, bound: nat, nextId: NodeId, on: Node, wsName: string)
    requires WellFormed(nodes, depth, bound, nextId) && Detached(on)
    ensures var o := nextId; var w := nextId + 1; var r := OutputAdded(nodes, o, on, wsName);
      o !in nodes && w !in nodes && r.Keys == nodes.Keys + {o, w} &&
      r[RootId].children == nodes[RootId].children + [o] &&
      r[o] == on.(parent := Some(RootId), children := [w], focused := Some(w)) &&
      r[w] == WorkspaceNode(on, wsName).(parent := Some(o), isFocused := true) &&
      r[w].kind == Workspace && r[w].layout == Horizontal && r[w].visible && r[w].name == Some(wsName) &&
      r[w].x == on.x && r[w].y == on.y && r[w].width == on.width && r[w].height == on.height &&
      r[w].children == [] && r[w].floating == [] &&
      (forall m :: m in nodes && m != RootId ==> r[m] == nodes[m])
  {
    assert nextId !in nodes && nextId + 1 !in nodes;
  }

  /** The arena after new_output is well formed, with the ranks and the
      bound the two new nodes take. */
  lemma OutputAddedWellFormed(nodes: Arena, depth: Ranks, bound: nat, nextId: NodeId, on: Node, wsName: string,
                              r: Arena, rd: Ranks, rb: nat, rn: NodeId)
    requires WellFormed(nodes, depth, bound, nextId) && Detached(on) && on.kind == Output
    requires r == OutputAdded(nodes, nextId, on, wsName)
    requires rd == OutputDepth(depth, nextId) && rb == bound + 2 && rn == nextId + 2
    ensures WellFormed(r, rd, rb, rn)
  {
    var o, w := nextId, nextId + 1;
    var wn := WorkspaceNode(on, wsName);
    var n1 := AttachChild(nodes, RootId, o, on);
    AttachChildWellFormed(nodes, depth, bound, nextId, RootId, on);
    AttachChildWellFormed(n1, LeafDepth(depth, RootId, o), bound + 1, nextId + 1, o, wn);
    var n2 := AttachChild(n1, o, w, wn);
    RetouchedWellFormed(n2, OutputDepth(depth, o), bound + 2, nextId + 2, w, n2[w].(isFocused := true), r);
  }

  /** The arena after the first step of new_output is linked. */
  lemma OutputLinked(nodes: Arena, depth: Ranks, bound: nat, nextId: NodeId, on: Node)
    requires WellFormed(nodes, depth, bound, nextId) && Detached(on)
    ensures var n1 := AttachChild(nodes, RootId, nextId, on);
      nextId in n1 && Linked(n1, LeafDepth(depth, RootId, nextId), bound + 1)
  {
    AttachChildWellFormed(nodes, depth, bound, nextId, RootId, on);
  }

  /** The name new_output gives the first workspace of the output on,
      once on has joined the root with the fresh id nextId: the generated
      name for an unnamed output, which skips the workspace_output search. */
  function OutputWorkspaceName(nodes: Arena, ghost depth: Ranks, ghost bound: nat, nextId: NodeId, on: Node,
                               wsos: seq<WorkspaceOutput>, name: Option<string>, nextName: string): (r: string)
    requires WellFormed(nodes, depth, bound, nextId) && Detached(on)
    ensures name.None? ==> r == nextName
    ensures r != nextName ==>
      name.Some? && exists i :: 0 <= i < |wsos| && SameIgnoringCase(wsos[i].output, name.value) && r == wsos[i].workspace
  {
    OutputLinked(nodes, depth, bound, nextId, on);
    if name.None? then nextName
    else FirstWorkspaceName(AttachChild(nodes, RootId, nextId, on), LeafDepth(depth, RootId, nextId), bound + 1,
                            wsos, name.value, nextName)
  }

  /** The arena after new_workspace(o, name): a fresh visible workspace
      named name, laid out horizontally and covering the output, is
      appended to o's children; nothing else changes. */
  lemma WorkspaceAdded(nodes: Arena, depth: Ranks, bound: nat, nextId: NodeId, o: NodeId, name: string)
    requires WellFormed(nodes, depth, bound, nextId) && o in nodes
    ensures var r := AttachChild(nodes, o, nextId, WorkspaceNode(nodes[o], name)); var w := nextId;
      w !in nodes && r.Keys == nodes.Keys + {w} &&
      r[w].kind == Workspace && r[w].parent == Some(o) && r[w].layout == Horizontal &&
      r[w].visible && r[w].name == Some(name) && r[w].children == [] && r[w].floating == [] &&
      r[w].x == nodes[o].x && r[w].y == nodes[o].y && r[w].width == nodes[o].width && r[w].height == nodes[o].height &&
      r[o].children == nodes[o].children + [w] &&
      (forall m :: m in nodes && m != o ==> r[m] == nodes[m])
  {
    assert nextId !in nodes;
  }

  /** The workspace_output loop of new_output: the first entry for the
      output decides, and its workspace is used only when no workspace of
      that name exists. */
  method NameFirstWorkspace(nodes: Arena, ghost depth: Ranks, ghost bound: nat,
                            wsos: seq<WorkspaceOutput>, name: string, nextName: string) returns (r: string)
    requires Linked(nodes, depth, bound)
    ensures r == FirstWorkspaceName(nodes, depth, bound, wsos, name, nextName)
  {
    var i := 0;
    while i < |wsos|
      invariant 0 <= i <= |wsos|
      invariant forall j :: 0 <= j < i ==> !SameIgnoringCase(wsos[j].output, name)
    {
      if SameIgnoringCase(wsos[i].output, name) {
        if WorkspaceByName(nodes, depth, bound, wsos[i].workspace).Some? {
          return nextName;
        }
        return wsos[i].workspace;
      }
      i := i + 1;
    }
    return nextName;
  }

  /** What new_container(ws, layout) leaves for a workspace ws, lines
      179-198: every former child of ws names the fresh container k as its
      parent; ws holds exactly [k], focuses k and takes the requested
      layout; k is a container with ws's children, old focus, old layout,
      geometry and visibility; nothing else changes. */
  lemma WrapWorkspaceFacts(nodes: Arena, depth: Ranks, bound: nat, nextId: NodeId, ws: NodeId, layout: Layout)
    requires WellFormed(nodes, depth, bound, nextId) && ws in nodes && nodes[ws].kind == Workspace
    ensures var r := WrapWorkspace(nodes, ws, nextId, layout); var k := nextId; var wn := nodes[ws];
      k !in nodes && r.Keys == nodes.Keys + {k} &&
      r[ws] == wn.(children := [k], focused := Some(k), layout := layout) &&
      r[k].kind == Container && r[k].parent == Some(ws) && r[k].children == wn.children && r[k].floating == [] &&
      r[k].focused == wn.focused && r[k].layout == wn.layout &&
      r[k].x == wn.x && r[k].y == wn.y && r[k].width == wn.width && r[k].height == wn.height &&
      r[k].visible == wn.visible &&
      (forall c :: c in wn.children ==> c in nodes && r[c] == nodes[c].(parent := Some(k))) &&
      (forall m :: m in nodes && m != ws && m !in wn.children ==> r[m] == nodes[m])
  {
    ListsLive(nodes, depth, bound, nextId, ws);
    forall c | c in nodes[ws].children
      ensures c != ws
    {
      assert InList(c, nodes[ws]);
    }
  }

  /** What new_container(c, layout) leaves for a node c listed by p,
      lines 199-204: the fresh container k takes c's slot in p, in
      whichever list held c, and p's focus if it was c; k is a container
      holding and focusing c alone, with the requested layout and c's
      geometry and visibility; c names k as its parent; nothing else
      changes. */
  lemma WrapChildFacts(nodes: Arena, nextId: NodeId, c: NodeId, p: NodeId, layout: Layout)
    requires c in nodes && p in nodes && c != p && InList(c, nodes[p]) && nextId !in nodes
    ensures var pn := nodes[p]; var cn := nodes[c];
      var r := WrapChild(nodes, c, p, nextId, layout); var k := nextId;
      r.Keys == nodes.Keys + {k} &&
      (c in pn.children ==>
         r[p].children == pn.children[IndexOf(pn.children, c) := k] && r[p].floating == pn.floating) &&
      (c !in pn.children ==>
         r[p].children == pn.children && r[p].floating == pn.floating[IndexOf(pn.floating, c) := k]) &&
      r[p].focused == (if pn.focused == Some(c) then Some(k) else pn.focused) &&
      r[p].kind == pn.kind && r[p].parent == pn.parent && r[p].layout == pn.layout &&
      r[k].kind == Container && r[k].parent == Some(p) && r[k].children == [c] && r[k].floating == [] &&
      r[k].focused == Some(c) && r[k].layout == layout &&
      r[k].x == cn.x && r[k].y == cn.y && r[k].width == cn.width && r[k].height == cn.height &&
      r[k].visible == cn.visible &&
      r[c] == cn.(parent := Some(k)) &&
      (forall m :: m in nodes && m != p && m != c ==> r[m] == nodes[m])
  {
    WrapChildEntries(nodes, nextId, c, p, layout);
    ReplaceChildFields(nodes[p], c, nextId);
  }

  /** The entries WrapChild writes: the holder, the wrapper and the child. */
  lemma WrapChildEntries(nodes: Arena, nextId: NodeId, c: NodeId, p: NodeId, layout: Layout)
    requires c in nodes && p in nodes && c != p && InList(c, nodes[p]) && nextId !in nodes
    ensures var r := WrapChild(nodes, c, p, nextId, layout);
      r.Keys == nodes.Keys + {nextId} &&
      r[p] == ReplaceChild(nodes[p], c, nextId) && r[nextId] == ChildWrapper(nodes[c], c, p, layout) &&
      r[c] == nodes[c].(parent := Some(nextId)) &&
      (forall m :: m in nodes && m != p && m != c ==> r[m] == nodes[m])
  {
    var k, pn, cn := nextId, nodes[p], nodes[c];
    var r := WrapChild(nodes, c, p, k, layout);
    var rep := Reparented(nodes, [c], k);
    assert rep[c] == cn.(parent := Some(k));
    assert forall m :: m in nodes && m != c ==> rep[m] == nodes[m];
    assert r == rep[k := ChildWrapper(cn, c, p, layout)][p := ReplaceChild(pn, c, k)];
  }

  /** replace_child(c, k) on the holder: k takes c's slot in whichever list
      held it, and the focus follows; nothing else of the holder changes. */
  lemma ReplaceChildFields(pn: Node, c: NodeId, k: NodeId)
    requires InList(c, pn)
    ensures var r := ReplaceChild(pn, c, k);
      (c in pn.children ==> r.children == pn.children[IndexOf(pn.children, c) := k] && r.floating == pn.floating) &&
      (c !in pn.children ==> r.children == pn.children && r.floating == pn.floating[IndexOf(pn.floating, c) := k]) &&
      r.focused == (if pn.focused == Some(c) then Some(k) else pn.focused) &&
      r.kind == pn.kind && r.parent == pn.parent && r.layout == pn.layout
  {
  }

  /** The loop of new_container, lines 186-191, run on the arena: each
      child of the workspace in turn names k as its parent. */
  method ReparentAll(nodes: Arena, kids: seq<NodeId>, k: NodeId) returns (ns: Arena)
    requires AllLive(nodes, kids)
    ensures ns == Reparented(nodes, kids, k)
  {
    ns := nodes;
    var i := 0;
    while i < |kids|
      invariant 0 <= i <= |kids|
      invariant ns == Reparented(nodes, kids[..i], k)
    {
      ReparentedStep(nodes, kids[..i], kids[i], k);
      assert kids[..i + 1] == kids[..i] + [kids[i]];
      ns := ns[kids[i] := ns[kids[i]].(parent := Some(k))];
      i := i + 1;
    }
    assert kids[..i] == kids;
  }

  /** new_container(ws, layout) for a workspace ws, lines 179-198, built
      the way the source builds it: a fresh container copying ws's
      geometry and visibility, the re-parenting loop, then the swap of
      layouts and the new child list and focus of ws. */
  method WorkspaceWrapped(nodes: Arena, ws: NodeId, k: NodeId, layout: Layout) returns (r: Arena)
    requires ws in nodes && AllLive(nodes, nodes[ws].children)
    ensures r == WrapWorkspace(nodes, ws, k, layout)
  {
    var wn := nodes[ws];
    var cont := NewSwayc(Container).(layout := layout, width := wn.width, height := wn.height,
                                     x := wn.x, y := wn.y, visible := wn.visible);
    cont := cont.(focused := wn.focused);
    var ns := ReparentAll(nodes, wn.children, k);
    cont := cont.(children := wn.children, parent := Some(ws), layout := wn.layout);
    assert cont == WorkspaceWrapper(wn, ws);
    r := ns[k := cont][ws := wn.(children := [k], focused := Some(k), layout := layout)];
  }

  /** The node new_container wraps, when it is not the root, has a parent
      that lists it. */
  lemma WrappedHasParent(nodes: Arena, depth: Ranks, bound: nat, nextId: NodeId, c: NodeId)
    requires WellFormed(nodes, depth, bound, nextId) && c in nodes && c != RootId
    ensures nodes[c].parent.Some? && nodes[c].parent.value in nodes && nodes[c].parent.value != c &&
      InList(c, nodes[nodes[c].parent.value]) && nextId !in nodes
  {
    Up(nodes, depth, c);
  }

  /** new_container(ws, layout) keeps the tree well formed, stated for the
      values the fields take. */
  lemma WrapWorkspaceWellFormedAt(nodes: Arena, depth: Ranks, bound: nat, nextId: NodeId, ws: NodeId, layout: Layout,
                                  r: Arena, rd: Ranks, rb: nat, rn: NodeId)
    requires WellFormed(nodes, depth, bound, nextId) && ws in nodes && nodes[ws].kind == Workspace
    requires r == WrapWorkspace(nodes, ws, nextId, layout) && rd == WrapDepth(depth, ws, nextId)
    requires rb == 2 * bound && rn == nextId + 1
    ensures WellFormed(r, rd, rb, rn)
  {
    WrapWorkspaceWellFormed(nodes, depth, bound, nextId, ws, layout);
  }

  /** new_container(c, layout) keeps the tree well formed for a c with a
      parent, stated for the values the fields take. */
  lemma WrapChildWellFormedAt(nodes: Arena, depth: Ranks, bound: nat, nextId: NodeId, c: NodeId, p: NodeId, layout: Layout,
                              r: Arena, rd: Ranks, rb: nat, rn: NodeId)
    requires WellFormed(nodes, depth, bound, nextId) && p in nodes && InList(c, nodes[p]) && c in nodes
    requires r == WrapChild(nodes, c, p, nextId, layout) && rd == WrapDepth(depth, p, nextId)
    requires rb == 2 * bound && rn == nextId + 1
    ensures WellFormed(r, rd, rb, rn)
  {
    WrapChildWellFormed(nodes, depth, bound, nextId, c, p, layout);
  }

  /** Skipping an id keeps the tree well formed. */
  lemma SkipIdWellFormed(nodes: Arena, depth: Ranks, bound: nat, nextId: NodeId, rn: NodeId)
    requires WellFormed(nodes, depth, bound, nextId) && rn == nextId + 1
    ensures WellFormed(nodes, depth, bound, rn)
  {
  }

  /** Changing fields of one node that do not bear on the shape keeps the
      tree well formed, stated for the arena the field takes. */
  lemma RetouchedWellFormed(nodes: Arena, depth: Ranks, bound: nat, nextId: NodeId, v: NodeId, n2: Node, r: Arena)
    requires WellFormed(nodes, depth, bound, nextId) && v in nodes
    requires n2.kind == nodes[v].kind && n2.parent == nodes[v].parent && n2.children == nodes[v].children
    requires n2.floating == nodes[v].floating && n2.focused == nodes[v].focused
    requires r == nodes[v := n2]
    ensures WellFormed(r, depth, bound, nextId) && SameShape(nodes, r) && SameHandles(nodes, r) == (n2.handle == nodes[v].handle)
  {
    SameShapeWellFormed(nodes, r, depth, bound, nextId);
  }

  /** The state of a container_map loop over p's list after its first i
      entries: the arena n0 it started from with the callback run over what
      those entries reach, and the log l0 with their commands appended. */
  ghost predicate MapAt(n0: Arena, depth: Ranks, bound: nat, nextId: NodeId, cb: Callback, p: NodeId, floating: bool, i: nat,
                        nodes: Arena, log: seq<Command>, l0: seq<Command>) {
    WellFormed(n0, depth, bound, nextId) && p in n0 && p in depth && depth[p] < bound &&
    ViewsPlaced(n0, depth, bound, cb, p) && i <= |Listed(n0[p], floating)| &&
    AllPlaced(n0, depth, bound, cb, VisitPrefix(n0, depth, bound, p, floating, i)) &&
    nodes == Mapped(n0, cb, Seen(VisitPrefix(n0, depth, bound, p, floating, i))) &&
    log == l0 + CallbackLog(n0, depth, bound, cb, VisitPrefix(n0, depth, bound, p, floating, i))
  }

  /** A container_map loop starts with nothing done. */
  lemma MapAtStart(n0: Arena, depth: Ranks, bound: nat, nextId: NodeId, cb: Callback, p: NodeId, floating: bool, l0: seq<Command>)
    requires WellFormed(n0, depth, bound, nextId) && p in n0 && ViewsPlaced(n0, depth, bound, cb, p)
    ensures MapAt(n0, depth, bound, nextId, cb, p, floating, 0, n0, l0, l0)
  {
    MappedNothing(n0, cb);
    PrefixPlaced(n0, depth, bound, cb, p, floating, 0);
  }

  /** What one entry of a container_map loop needs and gives, for the arena
      before it: the entry c can take the callback, with the commands it
      would make in n0; after the callback the walk below c may run, and it
      reaches and logs what it would in n0; the two together complete the
      longer prefix. */
  lemma EntryReady(n0: Arena, depth: Ranks, bound: nat, nextId: NodeId, cb: Callback, p: NodeId, floating: bool, i: nat, before: Arena)
    requires WellFormed(n0, depth, bound, nextId) && p in n0 && ViewsPlaced(n0, depth, bound, cb, p)
    requires i < |Listed(n0[p], floating)|
    requires before == Mapped(n0, cb, Seen(VisitPrefix(n0, depth, bound, p, floating, i)))
    ensures p in before && Listed(before[p], floating) == Listed(n0[p], floating)
    ensures var c := Listed(n0[p], floating)[i];
      c in n0 && c in before && p in depth && c in depth && depth[p] < depth[c] < bound &&
      WellFormed(before, depth, bound, nextId) &&
      Placed(n0, depth, bound, cb, c) && ViewsPlaced(n0, depth, bound, cb, c) &&
      Placed(before, depth, bound, cb, c) && Commands(before, depth, bound, cb, c) == Commands(n0, depth, bound, cb, c) &&
      var mid := before[c := Effect(cb, before[c])];
      WellFormed(mid, depth, bound, nextId) && ViewsPlaced(mid, depth, bound, cb, c) &&
      CallbackLog(mid, depth, bound, cb, Visit(mid, depth, bound, c)) == CallbackLog(n0, depth, bound, cb, Visit(n0, depth, bound, c)) &&
      Mapped(mid, cb, Seen(Visit(mid, depth, bound, c))) == Mapped(n0, cb, Seen(VisitPrefix(n0, depth, bound, p, floating, i + 1))) &&
      AllPlaced(n0, depth, bound, cb, VisitPrefix(n0, depth, bound, p, floating, i)) &&
      AllPlaced(n0, depth, bound, cb, VisitPrefix(n0, depth, bound, p, floating, i + 1)) &&
      CallbackLog(n0, depth, bound, cb, VisitPrefix(n0, depth, bound, p, floating, i)) +
      Commands(n0, depth, bound, cb, c) +
      CallbackLog(n0, depth, bound, cb, Visit(n0, depth, bound, c)) ==
        CallbackLog(n0, depth, bound, cb, VisitPrefix(n0, depth, bound, p, floating, i + 1))
  {
    var c := Listed(n0[p], floating)[i];
    MapStepNodes(n0, depth, bound, nextId, cb, p, floating, i);
    LogStep(n0, depth, bound, cb, p, floating, i);
    LogTransfer(n0, before, depth, bound, cb, c);
    assert InList(c, n0[p]);
    var mid := before[c := Effect(cb, before[c])];
    LogTransfer(n0, mid, depth, bound, cb, c);
  }

  /** container_map on id after its two loops: the children loop (skipped
      for a view) took n0 to n1, the floating loop (run for a workspace
      only) took n1 to n2; together they ran the callback over, and logged,
      exactly what is visited from id. */
  lemma MapCompleted(n0: Arena, depth: Ranks, bound: nat, nextId: NodeId, cb: Callback, id: NodeId,
                     n1: Arena, l1: seq<Command>, n2: Arena, l2: seq<Command>, l0: seq<Command>)
    requires WellFormed(n0, depth, bound, nextId) && id in n0 && ViewsPlaced(n0, depth, bound, cb, id)
    requires n0[id].kind != View ==> MapAt(n0, depth, bound, nextId, cb, id, false, |n0[id].children|, n1, l1, l0)
    requires n0[id].kind == View ==> n1 == n0 && l1 == l0
    requires n0[id].kind == Workspace ==> id in n1 && MapAt(n1, depth, bound, nextId, cb, id, true, |n1[id].floating|, n2, l2, l1)
    requires n0[id].kind != Workspace ==> n2 == n1 && l2 == l1
    ensures n2 == Mapped(n0, cb, Seen(Visit(n0, depth, bound, id)))
    ensures l2 == l0 + CallbackLog(n0, depth, bound, cb, Visit(n0, depth, bound, id))
  {
    MapDone(n0, depth, bound, nextId, cb, id);
    var visit := Visit(n0, depth, bound, id);
    if n0[id].kind == View {
      assert visit == [] && Seen(visit) == {};
      assert n2 == Mapped(n0, cb, Seen(visit));
    } else {
      var kids := VisitPrefix(n0, depth, bound, id, false, |n0[id].children|);
      var kidsLog := CallbackLog(n0, depth, bound, cb, kids);
      assert n1 == Mapped(n0, cb, Seen(kids)) && l1 == l0 + kidsLog;
      if n0[id].kind == Workspace {
        var floats := VisitPrefix(n1, depth, bound, id, true, |n1[id].floating|);
        assert n2 == Mapped(n1, cb, Seen(floats)) && l2 == l1 + CallbackLog(n1, depth, bound, cb, floats);
        assert n2 == Mapped(n0, cb, Seen(visit));
        LogJoined(l0, kidsLog, CallbackLog(n1, depth, bound, cb, floats));
      } else {
        assert visit == kids;
        assert n2 == Mapped(n0, cb, Seen(visit));
      }
    }
  }

  /** The log after one more entry of a container_map loop, regrouped. */
  lemma LogRegrouped(l0: seq<Command>, pre: seq<Command>, cmds: seq<Command>, below: seq<Command>)
    ensures l0 + pre + cmds + below == l0 + (pre + cmds + below)
  {
  }

  /** The log after both loops of container_map, regrouped. */
  lemma LogJoined(l0: seq<Command>, kids: seq<Command>, floats: seq<Command>)
    ensures l0 + kids + floats == l0 + (kids + floats)
  {
  }

  /** The first half of new_output: the output record, or null when its
      config disables it, with the resolution request passed to the
      backend when the config sets a size. A configured position is
      used, and otherwise the output goes to the right of those already
      there. */
  method ConfigureOutput(nodes: Arena, handle: int, name: Option<string>, reportedWidth: int, reportedHeight: int, cfg: Config)
    returns (on: Option<Node>, resize: Option<Command>)
    requires RootId in nodes && AllLive(nodes, nodes[RootId].children)
    ensures var oc := NamedConfig(cfg.outputConfigs, name);
      on.None? <==> oc.Some? && !oc.value.enabled
    ensures on.None? ==> resize.None?
    ensures on.Some? ==>
      var oc := NamedConfig(cfg.outputConfigs, name);
      on.value == OutputNode(handle, name, reportedWidth, reportedHeight, cfg, oc,
                             if Positioned(oc) then 0 else RightEdge(nodes, nodes[RootId].children)) &&
      resize == (if Sized(oc) then Some(SetResolution(handle, oc.value.width, oc.value.height)) else None)
  {
    var oc := None;
    if name.Some? {
      oc := MatchOutputConfig(cfg.outputConfigs, name.value);
    }
    if oc.Some? && !oc.value.enabled {
      return None, None;
    }
    var width, height := reportedWidth, reportedHeight;
    resize := None;
    if Sized(oc) {
      width, height := oc.value.width, oc.value.height;
      resize := Some(SetResolution(handle, width, height));
    }
    var x, y := 0, 0;
    if Positioned(oc) {
      x, y := oc.value.x, oc.value.y;
    } else {
      x := OutputsRightEdge(nodes, nodes[RootId].children);
    }
    on := Some(NewSwayc(Output).(width := width, height := height, handle := handle, name := name,
                                 gaps := cfg.gapsOuter + CHalf(cfg.gapsInner), x := x, y := y));
  }

  /** The workspace_output search of new_output, made once the output on
      has joined the root with the next fresh id. */
  method NameOutputWorkspace(nodes: Arena, ghost depth: Ranks, ghost bound: nat, nextId: NodeId,
                             on: Node, wsos: seq<WorkspaceOutput>, name: Option<string>, nextName: string) returns (r: string)
    requires WellFormed(nodes, depth, bound, nextId) && Detached(on)
    ensures r == OutputWorkspaceName(nodes, depth, bound, nextId, on, wsos, name, nextName)
  {
    if name.None? {
      return nextName;
    }
    OutputLinked(nodes, depth, bound, nextId, on);
    r := NameFirstWorkspace(AttachChild(nodes, RootId, nextId, on), LeafDepth(depth, RootId, nextId), bound + 1,
                            wsos, name.value, nextName);
  }

  // ------------------------------------------------------------------ tree

  /** The tree of containers below root_container, with the allocator for
      fresh nodes and the log of the calls made to the compositor backend. */
  class Tree {
    var nodes: Arena
    var nextId: NodeId
    var log: seq<Command>
    ghost var depth: Ranks
    ghost var bound: nat

    ghost predicate Valid()
      reads this
    {
      WellFormed(nodes, depth, bound, nextId)
    }

    /** root_container as layout initialisation leaves it: a root with no
        children and no focus. */
    constructor ()
      ensures Valid()
      ensures nodes == map[RootId := NewSwayc(Root)] && nextId == RootId + 1 && log == []
    {
      nodes := map[RootId := NewSwayc(Root)];
      nextId := RootId + 1;
      log := [];
      depth := map[RootId := 0];
      bound := 1;
    }

    /** free_swayc(n): n and every node below it leave the tree, and n's
        parent no longer lists it. */
    method FreeSwayc(n: NodeId)
      requires Valid() && n in nodes && n != RootId
      modifies this
      ensures Valid()
      ensures nodes == RemoveSubtree(old(nodes), old(depth), old(bound), n)
      ensures nextId == old(nextId) && log == old(log) && depth == old(depth) && bound == old(bound)
    {
      RemoveSubtreeWellFormed(nodes, depth, bound, nextId, n);
      nodes := RemoveSubtree(nodes, depth, bound, n);
    }

    /** new_swayc's allocation of a node filled in as n, then add_child(p, ·). */
    method AttachNewChild(p: NodeId, n: Node) returns (c: NodeId)
      requires Valid() && p in nodes && nodes[p].kind != View && Detached(n)
      modifies this
      ensures Valid()
      ensures c == old(nextId) && c !in old(nodes)
      ensures nodes == AttachChild(old(nodes), p, c, n) && nextId == old(nextId) + 1 && log == old(log)
      ensures depth == LeafDepth(old(depth), p, c) && bound == old(bound) + 1
    {
      AttachChildWellFormed(nodes, depth, bound, nextId, p, n);
      c := nextId;
      nodes := AttachChild(nodes, p, c, n);
      depth := LeafDepth(depth, p, c);
      bound := bound + 1;
      nextId := nextId + 1;
    }

    /** new_swayc's allocation of a node filled in as n, then add_sibling(s, ·). */
    method AttachNewSibling(s: NodeId, n: Node) returns (c: NodeId)
      requires Valid() && s in nodes && s != RootId && Detached(n)
      modifies this
      ensures Valid()
      ensures c == old(nextId) && c !in old(nodes)
      ensures old(nodes)[s].parent.Some? && old(nodes)[s].parent.value in old(nodes)
      ensures var p := old(nodes)[s].parent.value;
        nodes == AttachSibling(old(nodes), p, s, c, n) && nextId == old(nextId) + 1 && log == old(log) &&
        depth == LeafDepth(old(depth), p, c) && bound == old(bound) + 1
    {
      AttachSiblingWellFormed(nodes, depth, bound, nextId, s, n);
      var p := nodes[s].parent.value;
      c := nextId;
      nodes := AttachSibling(nodes, p, s, c, n);
      depth := LeafDepth(depth, p, c);
      bound := bound + 1;
      nextId := nextId + 1;
    }

    /** new_swayc's allocation of a node filled in as n, then the floating
        append and focus of new_floating_view. */
    method AttachNewFloating(ws: NodeId, n: Node) returns (c: NodeId)
      requires Valid() && ws in nodes && nodes[ws].kind == Workspace && Detached(n)
      modifies this
      ensures Valid()
      ensures c == old(nextId) && c !in old(nodes)
      ensures nodes == AttachFloating(old(nodes), ws, c, n) && nextId == old(nextId) + 1 && log == old(log)
      ensures depth == LeafDepth(old(depth), ws, c) && bound == old(bound) + 1
    {
      AttachFloatingWellFormed(nodes, depth, bound, nextId, ws, n);
      c := nextId;
      nodes := AttachFloating(nodes, ws, c, n);
      depth := LeafDepth(depth, ws, c);
      bound := bound + 1;
      nextId := nextId + 1;
    }

    // ------------------------------------------------------------ creation

    /** new_workspace(output, name): null for a null output, and otherwise a
        workspace covering the output, appended to its children. */
    method NewWorkspace(output: Option<NodeId>, name: string) returns (r: Option<NodeId>)
      requires Valid() && (output.Some? ==> output.value in nodes && nodes[output.value].kind != View)
      modifies this
      ensures Valid() && log == old(log)
      ensures output.None? ==>
        r.None? && nodes == old(nodes) && nextId == old(nextId) && depth == old(depth) && bound == old(bound)
      ensures output.Some? ==>
        r == Some(old(nextId)) && old(nextId) !in old(nodes) && nextId == old(nextId) + 1 &&
        nodes == AttachChild(old(nodes), output.value, old(nextId), WorkspaceNode(old(nodes)[output.value], name)) &&
        depth == LeafDepth(old(depth), output.value, old(nextId)) && bound == old(bound) + 1
    {
      if output.None? {
        return None;
      }
      var w := AttachNewChild(output.value, WorkspaceNode(nodes[output.value], name));
      r := Some(w);
    }

    /** new_container around a workspace ws, lines 179-198: the fresh
        container takes over ws's children, focus and layout, and becomes
        ws's only child and its focus; ws takes the requested layout. */
    method WrapWorkspaceChildren(ws: NodeId, layout: Layout) returns (k: NodeId)
      requires Valid() && ws in nodes && nodes[ws].kind == Workspace
      modifies this
      ensures Valid()
      ensures k == old(nextId) && nextId == old(nextId) + 1 && log == old(log) &&
        nodes == WrapWorkspace(old(nodes), ws, k, layout) &&
        depth == WrapDepth(old(depth), ws, k) && bound == 2 * old(bound)
    {
      ListsLive(nodes, depth, bound, nextId, ws);
      k := nextId;
      var ns := WorkspaceWrapped(nodes, ws, k, layout);
      WrapWorkspaceWellFormedAt(nodes, depth, bound, nextId, ws, layout, ns, WrapDepth(depth, ws, k), 2 * bound, nextId + 1);
      nodes := ns;
      depth := WrapDepth(depth, ws, k);
      bound := 2 * bound;
      nextId := nextId + 1;
    }

    /** new_container(child, layout): a fresh container around child, which
        must not be null. Around a workspace it takes over the workspace's
        children; around any other node with a parent it takes that node's
        slot and holds it; around the root, which has no parent, it is
        left out of the tree. The guard against floating children never
        fires for a non-null child. */
    method NewContainer(child: NodeId, layout: Layout) returns (k: NodeId)
      requires Valid() && child in nodes
      modifies this
      ensures Valid()
      ensures k == old(nextId) && nextId == old(nextId) + 1 && log == old(log)
      ensures old(nodes)[child].kind == Workspace ==>
        nodes == WrapWorkspace(old(nodes), child, k, layout) &&
        depth == WrapDepth(old(depth), child, k) && bound == 2 * old(bound)
      ensures old(nodes)[child].kind != Workspace && child == RootId ==>
        nodes == old(nodes) && depth == old(depth) && bound == old(bound)
      ensures old(nodes)[child].kind != Workspace && child != RootId ==>
        old(nodes)[child].parent.Some? && old(nodes)[child].parent.value in old(nodes) &&
        var p := old(nodes)[child].parent.value;
        InList(child, old(nodes)[p]) &&
        nodes == WrapChild(old(nodes), child, p, k, layout) &&
        depth == WrapDepth(old(depth), p, k) && bound == 2 * old(bound)
    {
      if nodes[child].kind == Workspace {
        k := WrapWorkspaceChildren(child, layout);
        return;
      }
      if child == RootId {
        // replace_child finds no parent: the container stays outside the tree
        k := nextId;
        SkipIdWellFormed(nodes, depth, bound, nextId, nextId + 1);
        nextId := nextId + 1;
        return;
      }
      k := WrapInParent(child, layout);
    }

    /** The else branch of new_container: replace_child puts the new container
        in the child's slot of its parent and add_child moves the child into it. */
    method WrapInParent(child: NodeId, layout: Layout) returns (k: NodeId)
      requires Valid() && child in nodes && child != RootId
      modifies this
      ensures Valid()
      ensures k == old(nextId) && nextId == old(nextId) + 1 && log == old(log)
      ensures old(nodes)[child].parent.Some? && old(nodes)[child].parent.value in old(nodes)
      ensures var p := old(nodes)[child].parent.value;
        InList(child, old(nodes)[p]) &&
        nodes == WrapChild(old(nodes), child, p, k, layout) &&
        depth == WrapDepth(old(depth), p, k) && bound == 2 * old(bound)
    {
      k := nextId;
      WrappedHasParent(nodes, depth, bound, nextId, child);
      var p := nodes[child].parent.value;
      WrapChildWellFormedAt(nodes, depth, bound, nextId, child, p, layout,
                            WrapChild(nodes, child, p, k, layout), WrapDepth(depth, p, k), 2 * bound, nextId + 1);
      nodes, depth, bound, nextId := WrapChild(nodes, child, p, k, layout), WrapDepth(depth, p, k), 2 * bound, nextId + 1;
    }

    /** new_view(sibling, handle): null for a null sibling. A view with the
        window's title and requested size, the inner gaps and the focus mark
        is added as a child of a workspace sibling and as a sibling
        otherwise. The root has no parent to take a sibling. */
    method NewView(sibling: Option<NodeId>, handle: int, title: Option<string>,
                   reportedWidth: int, reportedHeight: int, cfg: Config) returns (r: Option<NodeId>)
      requires Valid() && (sibling.Some? ==> sibling.value in nodes && sibling.value != RootId)
      modifies this
      ensures Valid() && log == old(log)
      ensures sibling.None? ==>
        r.None? && nodes == old(nodes) && nextId == old(nextId) && depth == old(depth) && bound == old(bound)
      ensures sibling.Some? ==>
        var s := sibling.value; var n := ViewNode(handle, title, reportedWidth, reportedHeight, cfg.gapsInner);
        r == Some(old(nextId)) && nextId == old(nextId) + 1 && bound == old(bound) + 1 &&
        (old(nodes)[s].kind == Workspace ==>
           nodes == AttachChild(old(nodes), s, old(nextId), n) && depth == LeafDepth(old(depth), s, old(nextId))) &&
        (old(nodes)[s].kind != Workspace ==>
           old(nodes)[s].parent.Some? && old(nodes)[s].parent.value in old(nodes) &&
           nodes == AttachSibling(old(nodes), old(nodes)[s].parent.value, s, old(nextId), n) &&
           depth == LeafDepth(old(depth), old(nodes)[s].parent.value, old(nextId)))
    {
      if sibling.None? {
        return None;
      }
      var s := sibling.value;
      var n := ViewNode(handle, title, reportedWidth, reportedHeight, cfg.gapsInner);
      var v;
      if nodes[s].kind == Workspace {
        v := AttachNewChild(s, n);
      } else {
        v := AttachNewSibling(s, n);
      }
      r := Some(v);
    }

    /** new_floating_view(handle): null when there is no active workspace.
        Otherwise a floating view of the requested size, centred on the
        active workspace, joins that workspace's floating list. */
    method NewFloatingView(handle: int, title: Option<string>, w: int, h: int) returns (r: Option<NodeId>)
      requires Valid()
      requires ActiveWorkspace(nodes).Some? ==> nodes[ActiveWorkspace(nodes).value].kind == Workspace
      modifies this
      ensures Valid() && log == old(log)
      ensures ActiveWorkspace(old(nodes)).None? ==>
        r.None? && nodes == old(nodes) && nextId == old(nextId) && depth == old(depth) && bound == old(bound)
      ensures ActiveWorkspace(old(nodes)).Some? ==>
        var ws := ActiveWorkspace(old(nodes)).value;
        r == Some(old(nextId)) && nextId == old(nextId) + 1 && bound == old(bound) + 1 &&
        nodes == AttachFloating(old(nodes), ws, old(nextId), FloatingViewNode(handle, title, w, h, old(nodes)[ws])) &&
        depth == LeafDepth(old(depth), ws, old(nextId))
    {
      var active := ActiveWorkspace(nodes);
      if active.None? {
        return None;
      }
      var ws := active.value;
      var v := AttachNewFloating(ws, FloatingViewNode(handle, title, w, h, nodes[ws]));
      r := Some(v);
    }

    // ---------------------------------------------------------- destruction

    /** destroy_output(output): null for a null output; otherwise the output
        and everything below it are freed and the root is returned. */
    method DestroyOutput(output: Option<NodeId>) returns (r: Option<NodeId>)
      requires Valid() && (output.Some? ==> output.value in nodes && output.value != RootId)
      modifies this
      ensures Valid() && nextId == old(nextId) && log == old(log) && depth == old(depth) && bound == old(bound)
      ensures output.None? ==> r.None? && nodes == old(nodes)
      ensures output.Some? ==> r == Some(RootId) && nodes == RemoveSubtree(old(nodes), old(depth), old(bound), output.value)
    {
      if output.None? {
        return None;
      }
      FreeSwayc(output.value);
      r := Some(RootId);
    }

    /** destroy_workspace(workspace): null, with nothing changed, for a null
        workspace and for one the guards keep; otherwise the workspace is
        freed and its parent returned. */
    method DestroyWorkspace(workspace: Option<NodeId>) returns (r: Option<NodeId>)
      requires Valid() && (workspace.Some? ==> workspace.value in nodes && workspace.value != RootId)
      requires workspace.Some? ==> nodes[workspace.value].kind == Workspace
      modifies this
      ensures Valid() && nextId == old(nextId) && log == old(log) && depth == old(depth) && bound == old(bound)
      ensures workspace.None? ==> r.None? && nodes == old(nodes)
      ensures workspace.Some? && WorkspaceKept(old(nodes), old(depth), old(bound), workspace.value) ==>
        r.None? && nodes == old(nodes)
      ensures workspace.Some? && !WorkspaceKept(old(nodes), old(depth), old(bound), workspace.value) ==>
        r == old(nodes)[workspace.value].parent && r.Some? &&
        nodes == RemoveSubtree(old(nodes), old(depth), old(bound), workspace.value)
    {
      if workspace.None? {
        return None;
      }
      var w := workspace.value;
      var output := ParentOf(nodes, depth, bound, w, KindIs(Output));
      if output.Some? && |nodes[output.value].children| == 1 {
        return None;
      }
      if nodes[w].children == [] && nodes[w].floating == [] {
        Up(nodes, depth, w);
        r := nodes[w].parent;
        FreeSwayc(w);
        return;
      }
      return None;
    }

    /** destroy_container(container): null for a null container; otherwise
        empty containers are freed upward from it and the first node that
        is not an empty container is returned. */
    method DestroyContainer(container: Option<NodeId>) returns (r: Option<NodeId>)
      requires Valid() && (container.Some? ==> container.value in nodes)
      requires container.Some? ==> nodes[container.value].kind != View
      modifies this
      ensures Valid() && nextId == old(nextId) && log == old(log) && depth == old(depth) && bound == old(bound)
      ensures container.None? ==> r.None? && nodes == old(nodes)
      ensures container.Some? ==>
        r.Some? && (nodes, r.value) == Collapse(old(nodes), old(depth), old(bound), old(nextId), container.value)
    {
      if container.None? {
        return None;
      }
      var cur := container.value;
      while nodes[cur].children == [] && nodes[cur].kind == Container
        invariant Valid() && cur in nodes
        invariant nextId == old(nextId) && log == old(log) && depth == old(depth) && bound == old(bound)
        invariant Collapse(nodes, depth, bound, nextId, cur) == Collapse(old(nodes), old(depth), old(bound), old(nextId), container.value)
        decreases depth[cur]
      {
        CollapseStep(nodes, depth, bound, nextId, cur);
        var parent := nodes[cur].parent.value;
        FreeSwayc(cur);
        cur := parent;
      }
      r := Some(cur);
    }

    /** destroy_view(view): null for a null view; otherwise the view is
        freed, and its parent is returned, or, when the parent is a
        container, what destroy_container makes of it. */
    method DestroyView(view: Option<NodeId>) returns (r: Option<NodeId>)
      requires Valid() && (view.Some? ==> view.value in nodes && view.value != RootId)
      modifies this
      ensures Valid() && nextId == old(nextId) && log == old(log) && depth == old(depth) && bound == old(bound)
      ensures view.None? ==> r.None? && nodes == old(nodes)
      ensures view.Some? ==>
        old(nodes)[view.value].parent.Some? &&
        var p := old(nodes)[view.value].parent.value; var freed := RemoveSubtree(old(nodes), old(depth), old(bound), view.value);
        p in freed && WellFormed(freed, old(depth), old(bound), old(nextId)) &&
        (freed[p].kind == Container ==>
           r.Some? && (nodes, r.value) == Collapse(freed, old(depth), old(bound), old(nextId), p)) &&
        (freed[p].kind != Container ==> r == Some(p) && nodes == freed)
    {
      if view.None? {
        return None;
      }
      RemoveSubtreeWellFormed(nodes, depth, bound, nextId, view.value);
      var parent := nodes[view.value].parent.value;
      FreeSwayc(view.value);
      if nodes[parent].kind == Container {
        r := DestroyContainer(Some(parent));
        return;
      }
      r := Some(parent);
    }

    // ----------------------------------------------------------- traversal

    /** set_view_visibility(view, &visible): nothing for a null node. A view
        is moved to the output above it, masked and raised or lowered by
        the backend; every node takes the visibility. */
    method SetViewVisibility(view: Option<NodeId>, visible: bool)
      requires Valid() && (view.Some? ==> Placed(nodes, depth, bound, VisibilityCallback(visible), view.value))
      modifies this
      ensures Valid() && nextId == old(nextId) && depth == old(depth) && bound == old(bound)
      ensures view.None? ==> nodes == old(nodes) && log == old(log)
      ensures view.Some? ==>
        var v := view.value; var vn := old(nodes)[v];
        nodes == old(nodes)[v := vn.(visible := visible)] &&
        (vn.kind == View ==>
           var o := OutputAbove(old(nodes), old(depth), old(bound), v).value;
           log == old(log) + [SetViewOutput(vn.handle, old(nodes)[o].handle), SetMask(vn.handle, visible),
                              if visible then BringToFront(vn.handle) else SendToBack(vn.handle)]) &&
        (vn.kind != View ==> log == old(log))
    {
      if view.None? {
        return;
      }
      var v := view.value;
      var vn := nodes[v];
      if vn.kind == View {
        var o := ParentOf(nodes, depth, bound, v, KindIs(Output)).value;
        var raise := if visible then BringToFront(vn.handle) else SendToBack(vn.handle);
        log := log + [SetViewOutput(vn.handle, nodes[o].handle), SetMask(vn.handle, visible), raise];
      }
      RetouchedWellFormed(nodes, depth, bound, nextId, v, vn.(visible := visible), nodes[v := vn.(visible := visible)]);
      nodes := nodes[v := vn.(visible := visible)];
    }

    /** reset_gaps(view, ·): nothing for a null node; an output takes the
        configured outer gaps and a view the inner gaps. */
    method ResetGaps(view: Option<NodeId>, gapsInner: int, gapsOuter: int)
      requires Valid() && (view.Some? ==> view.value in nodes)
      modifies this
      ensures Valid() && nextId == old(nextId) && depth == old(depth) && bound == old(bound) && log == old(log)
      ensures view.None? ==> nodes == old(nodes)
      ensures view.Some? ==>
        var v := view.value; var vn := old(nodes)[v];
        (vn.kind == Output ==> nodes == old(nodes)[v := vn.(gaps := gapsOuter)]) &&
        (vn.kind == View ==> nodes == old(nodes)[v := vn.(gaps := gapsInner)]) &&
        (vn.kind != Output && vn.kind != View ==> nodes == old(nodes))
    {
      if view.None? {
        return;
      }
      var v := view.value;
      var vn := nodes[v];
      if vn.kind == Output {
        RetouchedWellFormed(nodes, depth, bound, nextId, v, vn.(gaps := gapsOuter), nodes[v := vn.(gaps := gapsOuter)]);
        nodes := nodes[v := vn.(gaps := gapsOuter)];
      }
      if vn.kind == View {
        RetouchedWellFormed(nodes, depth, bound, nextId, v, vn.(gaps := gapsInner), nodes[v := vn.(gaps := gapsInner)]);
        nodes := nodes[v := vn.(gaps := gapsInner)];
      }
    }

    /** The call f(child, data) of container_map, for the two callbacks
        the core passes it. */
    method ApplyCallback(c: NodeId, cb: Callback)
      requires Valid() && Placed(nodes, depth, bound, cb, c)
      modifies this
      ensures Valid() && nextId == old(nextId) && depth == old(depth) && bound == old(bound)
      ensures nodes == old(nodes)[c := Effect(cb, old(nodes)[c])]
      ensures log == old(log) + Commands(old(nodes), old(depth), old(bound), cb, c)
    {
      match cb
      case VisibilityCallback(visible) =>
        SetViewVisibility(Some(c), visible);
      case GapsCallback(inner, outer) =>
        ResetGaps(Some(c), inner, outer);
    }

    /** Entry i of one loop of container_map over p's list: the callback on
        the entry, then the walk below it. The state before is that of the
        first i entries done, and the state after that of i + 1. */
    method MapEntry(p: NodeId, cb: Callback, floating: bool, i: nat, ghost n0: Arena, ghost l0: seq<Command>)
      requires Valid() && MapAt(n0, depth, bound, nextId, cb, p, floating, i, nodes, log, l0)
      requires i < |Listed(n0[p], floating)|
      modifies this
      ensures Valid() && nextId == old(nextId) && depth == old(depth) && bound == old(bound)
      ensures MapAt(n0, depth, bound, nextId, cb, p, floating, i + 1, nodes, log, l0)
      decreases bound - depth[p], 0
    {
      EntryReady(n0, depth, bound, nextId, cb, p, floating, i, nodes);
      var c := Listed(nodes[p], floating)[i];
      ApplyCallback(c, cb);
      ContainerMap(c, cb);
      LogRegrouped(l0, CallbackLog(n0, depth, bound, cb, VisitPrefix(n0, depth, bound, p, floating, i)),
                   Commands(n0, depth, bound, cb, c), CallbackLog(n0, depth, bound, cb, Visit(n0, depth, bound, c)));
    }

    /** One loop of container_map over p's children, or over its floating
        views: for each entry, the callback and then the walk below it. */
    method MapList(p: NodeId, cb: Callback, floating: bool)
      requires Valid() && p in nodes && ViewsPlaced(nodes, depth, bound, cb, p)
      modifies this
      ensures Valid() && nextId == old(nextId) && depth == old(depth) && bound == old(bound)
      ensures MapAt(old(nodes), depth, bound, nextId, cb, p, floating, |Listed(old(nodes)[p], floating)|, nodes, log, old(log))
      decreases bound - depth[p], 1
    {
      ghost var n0, l0 := nodes, log;
      var n := |Listed(nodes[p], floating)|;
      MapAtStart(n0, depth, bound, nextId, cb, p, floating, l0);
      var i := 0;
      while i < n
        invariant 0 <= i <= n && n == |Listed(n0[p], floating)| && n0 == old(nodes) && l0 == old(log)
        invariant Valid() && nextId == old(nextId) && depth == old(depth) && bound == old(bound)
        invariant MapAt(n0, depth, bound, nextId, cb, p, floating, i, nodes, log, l0)
      {
        MapEntry(p, cb, floating, i, n0, l0);
        i := i + 1;
      }
    }

    /** container_map(container, f, data): f on every node below container,
        in the order Visit gives, and nowhere else. */
    method ContainerMap(id: NodeId, cb: Callback)
      requires Valid() && id in nodes && ViewsPlaced(nodes, depth, bound, cb, id)
      modifies this
      ensures Valid() && nextId == old(nextId) && depth == old(depth) && bound == old(bound)
      ensures nodes == Mapped(old(nodes), cb, Seen(Visit(old(nodes), old(depth), old(bound), id)))
      ensures log == old(log) + CallbackLog(old(nodes), old(depth), old(bound), cb, Visit(old(nodes), old(depth), old(bound), id))
      decreases bound - depth[id], 2
    {
      ghost var n0, l0 := nodes, log;
      MapDone(n0, depth, bound, nextId, cb, id);
      if nodes[id].kind != View {
        MapList(id, cb, false);
      }
      ghost var n1, l1 := nodes, log;
      if nodes[id].kind == Workspace {
        MapList(id, cb, true);
      }
      MapCompleted(n0, depth, bound, nextId, cb, id, n1, l1, nodes, log, l0);
    }

    /** update_visibility(container): the views below the workspace active
        for container are shown when that workspace is its parent's focus,
        and hidden otherwise. The source dereferences the workspace, its
        parent, and for each view the output above it, so these must exist. */
    method UpdateVisibility(container: NodeId)
      requires Valid() && container in nodes
      requires ActiveWorkspaceFor(nodes, depth, bound, Some(container)).Some?
      requires ViewsUnderOutput(nodes, depth, bound, ActiveWorkspaceFor(nodes, depth, bound, Some(container)).value)
      modifies this
      ensures Valid() && nextId == old(nextId) && depth == old(depth) && bound == old(bound)
      ensures var ws := ActiveWorkspaceFor(old(nodes), old(depth), old(bound), Some(container)).value;
        old(nodes)[ws].parent.Some? && old(nodes)[ws].parent.value in old(nodes) &&
        var cb := VisibilityCallback(old(nodes)[old(nodes)[ws].parent.value].focused == Some(ws));
        ViewsPlaced(old(nodes), old(depth), old(bound), cb, ws) &&
        nodes == Mapped(old(nodes), cb, Seen(Visit(old(nodes), old(depth), old(bound), ws))) &&
        log == old(log) + CallbackLog(old(nodes), old(depth), old(bound), cb, Visit(old(nodes), old(depth), old(bound), ws))
    {
      ActiveWorkspaceForCases(nodes, depth, bound, Some(container));
      var ws := ActiveWorkspaceFor(nodes, depth, bound, Some(container)).value;
      Up(nodes, depth, ws);
      var visible := nodes[nodes[ws].parent.value].focused == Some(ws);
      ViewsUnderOutputPlaced(nodes, depth, bound, VisibilityCallback(visible), ws);
      ContainerMap(ws, VisibilityCallback(visible));
    }

    /** The second half of new_output: the output joins the root, and its
        first workspace, named wsName, is created and marked focused. */
    method AddOutput(on: Node, wsName: string, calls: seq<Command>) returns (o: NodeId)
      requires Valid() && Detached(on) && on.kind == Output
      modifies this
      ensures Valid()
      ensures o == old(nextId) && nextId == old(nextId) + 2 && log == old(log) + calls &&
        nodes == OutputAdded(old(nodes), old(nextId), on, wsName) &&
        depth == OutputDepth(old(depth), old(nextId)) && bound == old(bound) + 2
    {
      OutputAddedWellFormed(nodes, depth, bound, nextId, on, wsName,
                            OutputAdded(nodes, nextId, on, wsName), OutputDepth(depth, nextId), bound + 2, nextId + 2);
      o := nextId;
      nodes, depth, bound, nextId, log := OutputAdded(nodes, o, on, wsName), OutputDepth(depth, o), bound + 2, nextId + 2, log + calls;
    }

    /** new_output(handle): an output named name (null when the backend
        gives none) that the backend reports at
        reportedWidth x reportedHeight. Null, with nothing changed, when its
        config disables it; otherwise the output joins the root, sized and
        placed by its config or by the report and the outputs already there,
        and gets its first workspace, which is marked focused. nextName is
        what workspace_next_name would return. */
    method NewOutput(handle: int, name: Option<string>, reportedWidth: int, reportedHeight: int, cfg: Config, nextName: string)
      returns (r: Option<NodeId>)
      requires Valid()
      modifies this
      ensures Valid()
      ensures var oc := NamedConfig(cfg.outputConfigs, name);
        r.None? <==> oc.Some? && !oc.value.enabled
      ensures r.None? ==>
        nodes == old(nodes) && nextId == old(nextId) && log == old(log) && depth == old(depth) && bound == old(bound)
      ensures r.Some? ==>
        var oc := NamedConfig(cfg.outputConfigs, name);
        AllLive(old(nodes), old(nodes)[RootId].children) &&
        var on := OutputNode(handle, name, reportedWidth, reportedHeight, cfg, oc,
                             if Positioned(oc) then 0 else RightEdge(old(nodes), old(nodes)[RootId].children));
        r == Some(old(nextId)) && nextId == old(nextId) + 2 &&
        nodes == OutputAdded(old(nodes), old(nextId), on,
                             OutputWorkspaceName(old(nodes), old(depth), old(bound), old(nextId), on, cfg.workspaceOutputs, name, nextName)) &&
        depth == OutputDepth(old(depth), old(nextId)) && bound == old(bound) + 2 &&
        log == old(log) + (if Sized(oc) then [SetResolution(handle, oc.value.width, oc.value.height)] else [])
    {
      ListsLive(nodes, depth, bound, nextId, RootId);
      var on, resize := ConfigureOutput(nodes, handle, name, reportedWidth, reportedHeight, cfg);
      if on.None? {
        return None;
      }
      var wsName := NameOutputWorkspace(nodes, depth, bound, nextId, on.value, cfg.workspaceOutputs, name, nextName);
      var o := AddOutput(on.value, wsName, if resize.Some? then [resize.value] else []);
      r := Some(o);
    }
  }
}
