/** What container_map does with the two callbacks the core passes it:
    set_view_visibility, which sets every node's visibility and tells the
    backend about each view, and reset_gaps, which restores the configured
    gaps of outputs and views. The effects are stated per node, and the
    lemmas here let a traversal that applies them one node at a time be
    compared with applying them to the whole visited set at once. */
module TreeMap {
  import opened Common
  import opened TreeTypes
  import opened TreeShape
  import opened TreeEdit
  import opened TreeLookup

  /** The callback handed to container_map, with its data argument. */
  datatype Callback =
    | VisibilityCallback(visible: bool)
    | GapsCallback(gapsInner: int, gapsOuter: int)

  /** What the callback does to the node it is called on. */
  function Effect(cb: Callback, n: Node): (e: Node)
    ensures e == n.(visible := e.visible, gaps := e.gaps)
  {
    match cb
    case VisibilityCallback(v) => n.(visible := v)
    case GapsCallback(inner, outer) =>
      if n.kind == Output then n.(gaps := outer)
      else if n.kind == View then n.(gaps := inner)
      else n
  }

  /** A callback touches neither the shape nor the handle, and calling it
      twice on a node is the same as calling it once. */
  lemma EffectFacts(cb: Callback, n: Node)
    ensures var e := Effect(cb, n);
      e.kind == n.kind && e.handle == n.handle && e.parent == n.parent &&
      e.children == n.children && e.floating == n.floating && e.focused == n.focused &&
      Effect(cb, e) == e
    ensures cb.VisibilityCallback? ==> Effect(cb, n) == n.(visible := cb.visible)
    ensures cb.GapsCallback? && n.kind == Output ==> Effect(cb, n).gaps == cb.gapsOuter
    ensures cb.GapsCallback? && n.kind == View ==> Effect(cb, n).gaps == cb.gapsInner
    ensures cb.GapsCallback? && n.kind != Output && n.kind != View ==> Effect(cb, n) == n
  {
  }

  /** The arena after the callback has run on every node of s. */
  function Mapped(nodes: Arena, cb: Callback, s: set<NodeId>): Arena {
    map m | m in nodes :: if m in s then Effect(cb, nodes[m]) else nodes[m]
  }

  ghost predicate SameHandles(a: Arena, b: Arena) {
    forall m :: m in a && m in b ==> b[m].handle == a[m].handle
  }

  /** Running the callback over s and then over t is running it over both. */
  lemma MappedCompose(nodes: Arena, cb: Callback, s: set<NodeId>, t: set<NodeId>)
    ensures Mapped(Mapped(nodes, cb, s), cb, t) == Mapped(nodes, cb, s + t)
  {
    forall m | m in nodes
      ensures Mapped(Mapped(nodes, cb, s), cb, t)[m] == Mapped(nodes, cb, s + t)[m]
    {
      EffectFacts(cb, nodes[m]);
    }
  }

  lemma MappedKeepsShape(nodes: Arena, cb: Callback, s: set<NodeId>)
    ensures SameShape(nodes, Mapped(nodes, cb, s)) && SameHandles(nodes, Mapped(nodes, cb, s))
    ensures forall m :: m in nodes ==> Mapped(nodes, cb, s)[m].kind == nodes[m].kind
  {
    var r := Mapped(nodes, cb, s);
    assert r.Keys == nodes.Keys;
    forall m | m in nodes
      ensures r[m].kind == nodes[m].kind && r[m].handle == nodes[m].handle
      ensures r[m].parent == nodes[m].parent && r[m].children == nodes[m].children
      ensures r[m].floating == nodes[m].floating && r[m].focused == nodes[m].focused
    {
      EffectFacts(cb, nodes[m]);
    }
  }

  /** Mapping set_view_visibility over s makes exactly the nodes of s take
      the visibility, and changes nothing else. */
  lemma MappedVisibility(nodes: Arena, visible: bool, s: set<NodeId>)
    ensures var r := Mapped(nodes, VisibilityCallback(visible), s);
      r.Keys == nodes.Keys &&
      forall m :: m in nodes ==>
        (m in s ==> r[m].visible == visible && r[m] == nodes[m].(visible := visible)) &&
        (m !in s ==> r[m] == nodes[m])
  {
  }

  /** Mapping reset_gaps over s gives the outputs of s the outer gaps and
      the views of s the inner gaps, and changes nothing else. */
  lemma MappedGaps(nodes: Arena, inner: int, outer: int, s: set<NodeId>)
    ensures var r := Mapped(nodes, GapsCallback(inner, outer), s);
      r.Keys == nodes.Keys &&
      forall m :: m in nodes ==>
        r[m] == nodes[m].(gaps := r[m].gaps) &&
        (m in s && nodes[m].kind == Output ==> r[m].gaps == outer) &&
        (m in s && nodes[m].kind == View ==> r[m].gaps == inner) &&
        (m !in s || (nodes[m].kind != Output && nodes[m].kind != View) ==> r[m] == nodes[m])
  {
  }

  // ------------------------------------------------ shape-only functions agree

  lemma SameShapeLinks(a: Arena, b: Arena, depth: Ranks, bound: nat)
    requires SameShape(a, b)
    ensures Ordered(a, depth, bound) ==> Ordered(b, depth, bound)
    ensures Ranked(a, depth, bound) ==> Ranked(b, depth, bound)
    ensures UpLinks(a, depth) ==> UpLinks(b, depth)
  {
    if Ordered(a, depth, bound) {
      forall id, x {:trigger InList(x, b[id])} | id in b && InList(x, b[id])
        ensures x in b && id in depth && x in depth && depth[id] < depth[x] < bound
      {
        assert InList(x, a[id]);
      }
    }
    if UpLinks(a, depth) {
      forall x | Live(b, x)
        ensures UpLink(b, depth, x)
      {
        Up(a, depth, x);
      }
    }
  }

  lemma {:induction false} AncestorsSameShape(a: Arena, b: Arena, depth: Ranks, bound: nat, id: NodeId)
    requires SameShape(a, b) && Ranked(a, depth, bound) && UpLinks(a, depth) && id in a
    ensures Ranked(b, depth, bound) && UpLinks(b, depth) && id in b
    ensures Ancestors(a, depth, bound, id) == Ancestors(b, depth, bound, id)
    decreases depth[id]
  {
    SameShapeLinks(a, b, depth, bound);
    Up(a, depth, id);
    if a[id].parent.Some? {
      AncestorsSameShape(a, b, depth, bound, a[id].parent.value);
    }
  }

  lemma {:induction false} VisitSameShape(a: Arena, b: Arena, depth: Ranks, bound: nat, id: NodeId)
    requires SameShape(a, b) && Ordered(a, depth, bound) && id in a && id in depth && depth[id] < bound
    ensures Ordered(b, depth, bound) && id in b
    ensures Visit(a, depth, bound, id) == Visit(b, depth, bound, id)
    decreases bound - depth[id], 1
  {
    SameShapeLinks(a, b, depth, bound);
    VisitPrefixSameShape(a, b, depth, bound, id, false, |a[id].children|);
    VisitPrefixSameShape(a, b, depth, bound, id, true, |a[id].floating|);
  }

  lemma {:induction false} VisitPrefixSameShape(a: Arena, b: Arena, depth: Ranks, bound: nat, p: NodeId, floating: bool, k: nat)
    requires SameShape(a, b) && Ordered(a, depth, bound) && p in a && p in depth && depth[p] < bound
    requires k <= |Listed(a[p], floating)|
    ensures Ordered(b, depth, bound) && p in b && Listed(b[p], floating) == Listed(a[p], floating)
    ensures VisitPrefix(a, depth, bound, p, floating, k) == VisitPrefix(b, depth, bound, p, floating, k)
    decreases bound - depth[p], 0, k
  {
    SameShapeLinks(a, b, depth, bound);
    if k > 0 {
      var c := Listed(a[p], floating)[k - 1];
      ListedInList(a[p], floating, k - 1);
      VisitPrefixSameShape(a, b, depth, bound, p, floating, k - 1);
      VisitSameShape(a, b, depth, bound, c);
    }
  }

  // ------------------------------------------------------ backend commands

  /** The output above m, which set_view_visibility hands the backend for a view. */
  function OutputAbove(nodes: Arena, ghost depth: Ranks, ghost bound: nat, m: NodeId): Option<NodeId>
    requires Ranked(nodes, depth, bound) && UpLinks(nodes, depth) && m in nodes
  {
    ParentOf(nodes, depth, bound, m, KindIs(Output))
  }

  /** The callback may run on m: set_view_visibility dereferences the output
      above a view, so a view must have one. */
  ghost predicate Placed(nodes: Arena, depth: Ranks, bound: nat, cb: Callback, m: NodeId)
    requires Ranked(nodes, depth, bound) && UpLinks(nodes, depth)
  {
    m in nodes && (cb.VisibilityCallback? && nodes[m].kind == View ==> OutputAbove(nodes, depth, bound, m).Some?)
  }

  /** The backend calls the callback makes on m: for a view, set_view_visibility
      moves it to its output, sets its mask and raises or lowers it. */
  function Commands(nodes: Arena, ghost depth: Ranks, ghost bound: nat, cb: Callback, m: NodeId): (r: seq<Command>)
    requires Ranked(nodes, depth, bound) && UpLinks(nodes, depth) && Placed(nodes, depth, bound, cb, m)
    ensures |r| == (if cb.VisibilityCallback? && nodes[m].kind == View then 3 else 0)
  {
    if cb.VisibilityCallback? && nodes[m].kind == View then
      var o := OutputAbove(nodes, depth, bound, m).value;
      var h := nodes[m].handle;
      [SetViewOutput(h, nodes[o].handle), SetMask(h, cb.visible),
       if cb.visible then BringToFront(h) else SendToBack(h)]
    else []
  }

  ghost predicate AllPlaced(nodes: Arena, depth: Ranks, bound: nat, cb: Callback, s: seq<NodeId>)
    requires Ranked(nodes, depth, bound) && UpLinks(nodes, depth)
  {
    forall m :: m in s ==> Placed(nodes, depth, bound, cb, m)
  }

  /** The backend calls the callback makes over s, in order. */
  function CallbackLog(nodes: Arena, ghost depth: Ranks, ghost bound: nat, cb: Callback, s: seq<NodeId>): seq<Command>
    requires Ranked(nodes, depth, bound) && UpLinks(nodes, depth) && AllPlaced(nodes, depth, bound, cb, s)
  {
    if s == [] then [] else CallbackLog(nodes, depth, bound, cb, s[..|s| - 1]) + Commands(nodes, depth, bound, cb, s[|s| - 1])
  }

  lemma {:induction false} CallbackLogConcat(nodes: Arena, depth: Ranks, bound: nat, cb: Callback, s: seq<NodeId>, t: seq<NodeId>)
    requires Ranked(nodes, depth, bound) && UpLinks(nodes, depth)
    requires AllPlaced(nodes, depth, bound, cb, s) && AllPlaced(nodes, depth, bound, cb, t)
    ensures AllPlaced(nodes, depth, bound, cb, s + t)
    ensures CallbackLog(nodes, depth, bound, cb, s + t) ==
      CallbackLog(nodes, depth, bound, cb, s) + CallbackLog(nodes, depth, bound, cb, t)
    decreases |t|
  {
    if t != [] {
      var t0 := t[..|t| - 1];
      assert (s + t)[..|s + t| - 1] == s + t0;
      assert (s + t)[|s + t| - 1] == t[|t| - 1];
      CallbackLogConcat(nodes, depth, bound, cb, s, t0);
    } else {
      assert s + t == s;
    }
  }

  /** The callbacks read only the shape and the handles. */
  lemma {:induction false} CallbackLogSameShape(a: Arena, b: Arena, depth: Ranks, bound: nat, cb: Callback, s: seq<NodeId>)
    requires SameShape(a, b) && SameHandles(a, b) && Ranked(a, depth, bound) && UpLinks(a, depth)
    requires AllPlaced(a, depth, bound, cb, s)
    ensures Ranked(b, depth, bound) && UpLinks(b, depth) && AllPlaced(b, depth, bound, cb, s)
    ensures CallbackLog(a, depth, bound, cb, s) == CallbackLog(b, depth, bound, cb, s)
    decreases |s|
  {
    SameShapeLinks(a, b, depth, bound);
    forall m | m in s
      ensures Placed(b, depth, bound, cb, m) && Commands(a, depth, bound, cb, m) == Commands(b, depth, bound, cb, m)
    {
      AncestorsSameShape(a, b, depth, bound, m);
      var anc := Ancestors(a, depth, bound, m);
      FirstMatchSameTest(a, b, anc, ProbeTest(KindIs(Output)));
    }
    if s != [] {
      CallbackLogSameShape(a, b, depth, bound, cb, s[..|s| - 1]);
    }
  }

  /** A first match that depends only on what two arenas agree on is the same in both. */
  lemma {:induction false} FirstMatchSameTest(a: Arena, b: Arena, s: seq<NodeId>, test: Node -> bool)
    requires AllLive(a, s) && AllLive(b, s)
    requires forall x :: x in s ==> test(a[x]) == test(b[x])
    ensures FirstMatch(a, s, test) == FirstMatch(b, s, test)
    ensures FirstIndex(a, s, test) == FirstIndex(b, s, test)
  {
    if s != [] {
      FirstMatchSameTest(a, b, s[1..], test);
    }
  }

  // ------------------------------------------------------------- placement

  /** A view below a node that lies under an output lies under that output too. */
  lemma {:induction false} OutputAboveDescends(nodes: Arena, depth: Ranks, bound: nat, p: NodeId, c: NodeId)
    requires Ranked(nodes, depth, bound) && UpLinks(nodes, depth) && BackLinks(nodes) && p in nodes && InList(c, nodes[p])
    requires nodes[p].kind == Output || OutputAbove(nodes, depth, bound, p).Some?
    ensures c in nodes && OutputAbove(nodes, depth, bound, c).Some?
  {
    AncestorsOfMember(nodes, depth, bound, p, c);
    FirstMatchCons(nodes, p, Ancestors(nodes, depth, bound, p), ProbeTest(KindIs(Output)));
  }

  /** Every node in the part of the tree that container_map visits from a
      node can take the callback when every view there lies under an output. */
  ghost predicate ViewsPlaced(nodes: Arena, depth: Ranks, bound: nat, cb: Callback, id: NodeId)
    requires Linked(nodes, depth, bound) && id in nodes
  {
    AllPlaced(nodes, depth, bound, cb, Visit(nodes, depth, bound, id))
  }

  /** The nodes visited from a listed child are visited from its holder. */
  lemma VisitNested(nodes: Arena, depth: Ranks, bound: nat, p: NodeId, c: NodeId, m: NodeId)
    requires Linked(nodes, depth, bound) && KindsOk(nodes) && p in nodes && InList(c, nodes[p])
    requires m in Visit(nodes, depth, bound, c)
    ensures m in Visit(nodes, depth, bound, p)
  {
    VisitIsSubtree(nodes, depth, bound, c, m);
    AncestorsOfMember(nodes, depth, bound, p, c);
    AncestorsTransitive(nodes, depth, bound, m, c, p);
    VisitIsSubtree(nodes, depth, bound, p, m);
  }

  lemma NestedViewsPlaced(nodes: Arena, depth: Ranks, bound: nat, cb: Callback, p: NodeId, c: NodeId)
    requires Linked(nodes, depth, bound) && KindsOk(nodes) && p in nodes && InList(c, nodes[p])
    requires ViewsPlaced(nodes, depth, bound, cb, p)
    ensures c in nodes && Placed(nodes, depth, bound, cb, c) && ViewsPlaced(nodes, depth, bound, cb, c)
  {
    MemberVisited(nodes, depth, bound, p, c);
    forall m | m in Visit(nodes, depth, bound, c)
      ensures Placed(nodes, depth, bound, cb, m)
    {
      VisitNested(nodes, depth, bound, p, c, m);
    }
  }

  lemma {:induction false} UnderOutputAbove(nodes: Arena, depth: Ranks, bound: nat, id: NodeId, m: NodeId)
    requires Linked(nodes, depth, bound) && id in nodes
    requires nodes[id].kind == Output || OutputAbove(nodes, depth, bound, id).Some?
    requires m in nodes && id in Ancestors(nodes, depth, bound, m)
    ensures OutputAbove(nodes, depth, bound, m).Some?
    decreases depth[m]
  {
    Up(nodes, depth, m);
    var q := nodes[m].parent.value;
    if q != id {
      UnderOutputAbove(nodes, depth, bound, id, q);
    }
    OutputAboveDescends(nodes, depth, bound, q, m);
  }

  /** Below an output, or below a node under one, every view is placed. */
  lemma UnderOutputPlaced(nodes: Arena, depth: Ranks, bound: nat, cb: Callback, id: NodeId)
    requires Linked(nodes, depth, bound) && KindsOk(nodes) && id in nodes
    requires nodes[id].kind == Output || OutputAbove(nodes, depth, bound, id).Some?
    ensures ViewsPlaced(nodes, depth, bound, cb, id)
  {
    forall m | m in Visit(nodes, depth, bound, id)
      ensures Placed(nodes, depth, bound, cb, m)
    {
      VisitedBelow(nodes, depth, bound, id, m);
      UnderOutputAbove(nodes, depth, bound, id, m);
    }
  }

  /** Every view that container_map reaches from id lies under an output,
      as set_view_visibility needs. */
  ghost predicate ViewsUnderOutput(nodes: Arena, depth: Ranks, bound: nat, id: NodeId)
    requires Linked(nodes, depth, bound) && id in nodes
  {
    forall m :: m in Visit(nodes, depth, bound, id) && m in nodes && nodes[m].kind == View ==>
      OutputAbove(nodes, depth, bound, m).Some?
  }

  lemma ViewsUnderOutputPlaced(nodes: Arena, depth: Ranks, bound: nat, cb: Callback, id: NodeId)
    requires Linked(nodes, depth, bound) && id in nodes && ViewsUnderOutput(nodes, depth, bound, id)
    ensures ViewsPlaced(nodes, depth, bound, cb, id)
  {
    forall m | m in Visit(nodes, depth, bound, id)
      ensures Placed(nodes, depth, bound, cb, m)
    {
      VisitedBelow(nodes, depth, bound, id, m);
    }
  }

  // ------------------------------------------------ one step of container_map

  /** The nodes of a visiting order, as a set. */
  function Seen(s: seq<NodeId>): set<NodeId> {
    set m | m in s
  }

  lemma SeenConcat(a: seq<NodeId>, b: seq<NodeId>)
    ensures Seen(a + b) == Seen(a) + Seen(b)
  {
  }

  lemma MappedNothing(nodes: Arena, cb: Callback)
    ensures Mapped(nodes, cb, {}) == nodes
  {
  }

  /** Calling the callback on one more node is mapping over one more node. */
  lemma MappedOneMore(nodes: Arena, cb: Callback, s: set<NodeId>, c: NodeId)
    requires c in nodes
    ensures var before := Mapped(nodes, cb, s);
      c in before && before[c := Effect(cb, before[c])] == Mapped(nodes, cb, s + {c})
  {
    var before := Mapped(nodes, cb, s);
    var after := Mapped(nodes, cb, s + {c});
    forall m | m in nodes
      ensures before[c := Effect(cb, before[c])][m] == after[m]
    {
      EffectFacts(cb, nodes[m]);
    }
  }

  /** The prefix a loop of container_map has passed is visited from the holder. */
  lemma PrefixPlaced(nodes: Arena, depth: Ranks, bound: nat, cb: Callback, p: NodeId, floating: bool, i: nat)
    requires Linked(nodes, depth, bound) && KindsOk(nodes) && p in nodes && i <= |Listed(nodes[p], floating)|
    requires ViewsPlaced(nodes, depth, bound, cb, p)
    ensures AllPlaced(nodes, depth, bound, cb, VisitPrefix(nodes, depth, bound, p, floating, i))
  {
    forall m | m in VisitPrefix(nodes, depth, bound, p, floating, i)
      ensures Placed(nodes, depth, bound, cb, m)
    {
      VisitPrefixBelow(nodes, depth, bound, p, floating, i, m);
      BelowVisited(nodes, depth, bound, p, m);
    }
  }

  /** Entry i of p's list and what is visited from it extend the visited prefix. */
  lemma PrefixStep(nodes: Arena, depth: Ranks, bound: nat, p: NodeId, floating: bool, i: nat)
    requires Ordered(nodes, depth, bound) && p in nodes && p in depth && depth[p] < bound
    requires i < |Listed(nodes[p], floating)|
    ensures var c := Listed(nodes[p], floating)[i];
      c in nodes && c in depth && depth[c] < bound &&
      VisitPrefix(nodes, depth, bound, p, floating, i + 1) ==
        VisitPrefix(nodes, depth, bound, p, floating, i) + [c] + Visit(nodes, depth, bound, c) &&
      Seen(VisitPrefix(nodes, depth, bound, p, floating, i + 1)) ==
        Seen(VisitPrefix(nodes, depth, bound, p, floating, i)) + {c} + Seen(Visit(nodes, depth, bound, c))
  {
    var c := Listed(nodes[p], floating)[i];
    ListedInList(nodes[p], floating, i);
    var pre := VisitPrefix(nodes, depth, bound, p, floating, i);
    var below := Visit(nodes, depth, bound, c);
    assert VisitPrefix(nodes, depth, bound, p, floating, i + 1) == pre + [c] + below;
    SeenConcat(pre + [c], below);
    SeenConcat(pre, [c]);
  }

  /** The arena a loop of container_map has reached after entry i of p's
      list: the callback on the entry, then the recursive call on it. */
  lemma MapStepNodes(n0: Arena, depth: Ranks, bound: nat, nextId: NodeId, cb: Callback, p: NodeId, floating: bool, i: nat)
    requires WellFormed(n0, depth, bound, nextId) && p in n0 && i < |Listed(n0[p], floating)|
    requires ViewsPlaced(n0, depth, bound, cb, p)
    ensures var c := Listed(n0[p], floating)[i];
      var before := Mapped(n0, cb, Seen(VisitPrefix(n0, depth, bound, p, floating, i)));
      c in n0 && c in before && WellFormed(before, depth, bound, nextId) &&
      SameShape(n0, before) && SameHandles(n0, before) &&
      var mid := before[c := Effect(cb, before[c])];
      WellFormed(mid, depth, bound, nextId) && SameShape(n0, mid) && SameHandles(n0, mid) &&
      Visit(mid, depth, bound, c) == Visit(n0, depth, bound, c) &&
      Mapped(mid, cb, Seen(Visit(mid, depth, bound, c))) ==
        Mapped(n0, cb, Seen(VisitPrefix(n0, depth, bound, p, floating, i + 1)))
  {
    var c := Listed(n0[p], floating)[i];
    PrefixStep(n0, depth, bound, p, floating, i);
    var s := Seen(VisitPrefix(n0, depth, bound, p, floating, i));
    var before := Mapped(n0, cb, s);
    MappedKeepsShape(n0, cb, s);
    SameShapeWellFormed(n0, before, depth, bound, nextId);
    MappedOneMore(n0, cb, s, c);
    var mid := Mapped(n0, cb, s + {c});
    MappedKeepsShape(n0, cb, s + {c});
    SameShapeWellFormed(n0, mid, depth, bound, nextId);
    VisitSameShape(n0, mid, depth, bound, c);
    var below := Seen(Visit(n0, depth, bound, c));
    MappedCompose(n0, cb, s + {c}, below);
    assert Mapped(mid, cb, below) == Mapped(n0, cb, s + {c} + below);
  }

  /** The log of the prefix, the entry and what is visited from it is the
      log of the longer prefix. */
  lemma LogStep(n0: Arena, depth: Ranks, bound: nat, cb: Callback, p: NodeId, floating: bool, i: nat)
    requires Linked(n0, depth, bound) && KindsOk(n0) && p in n0 && i < |Listed(n0[p], floating)|
    requires ViewsPlaced(n0, depth, bound, cb, p)
    ensures var c := Listed(n0[p], floating)[i];
      c in n0 && Placed(n0, depth, bound, cb, c) && ViewsPlaced(n0, depth, bound, cb, c) &&
      AllPlaced(n0, depth, bound, cb, VisitPrefix(n0, depth, bound, p, floating, i)) &&
      AllPlaced(n0, depth, bound, cb, VisitPrefix(n0, depth, bound, p, floating, i + 1)) &&
      CallbackLog(n0, depth, bound, cb, VisitPrefix(n0, depth, bound, p, floating, i)) +
      Commands(n0, depth, bound, cb, c) +
      CallbackLog(n0, depth, bound, cb, Visit(n0, depth, bound, c)) ==
        CallbackLog(n0, depth, bound, cb, VisitPrefix(n0, depth, bound, p, floating, i + 1))
  {
    var c := Listed(n0[p], floating)[i];
    ListedInList(n0[p], floating, i);
    PrefixStep(n0, depth, bound, p, floating, i);
    var pre := VisitPrefix(n0, depth, bound, p, floating, i);
    var below := Visit(n0, depth, bound, c);
    NestedViewsPlaced(n0, depth, bound, cb, p, c);
    PrefixPlaced(n0, depth, bound, cb, p, floating, i);
    assert [c][..0] == [];
    assert CallbackLog(n0, depth, bound, cb, [c]) == Commands(n0, depth, bound, cb, c);
    CallbackLogConcat(n0, depth, bound, cb, pre, [c]);
    CallbackLogConcat(n0, depth, bound, cb, pre + [c], below);
  }

  /** The callback's commands on entry c and the log below it are the same
      in any arena of the same shape and handles. */
  lemma LogTransfer(n0: Arena, b: Arena, depth: Ranks, bound: nat, cb: Callback, c: NodeId)
    requires Linked(n0, depth, bound) && SameShape(n0, b) && SameHandles(n0, b) && c in n0
    requires Placed(n0, depth, bound, cb, c) && ViewsPlaced(n0, depth, bound, cb, c)
    ensures Ordered(b, depth, bound) && Ranked(b, depth, bound) && UpLinks(b, depth) && c in b
    ensures Placed(b, depth, bound, cb, c) && Commands(b, depth, bound, cb, c) == Commands(n0, depth, bound, cb, c)
    ensures Visit(b, depth, bound, c) == Visit(n0, depth, bound, c)
    ensures AllPlaced(b, depth, bound, cb, Visit(b, depth, bound, c))
    ensures CallbackLog(b, depth, bound, cb, Visit(b, depth, bound, c)) == CallbackLog(n0, depth, bound, cb, Visit(n0, depth, bound, c))
  {
    CallbackLogSameShape(n0, b, depth, bound, cb, [c]);
    assert [c][..0] == [];
    assert CallbackLog(n0, depth, bound, cb, [c]) == Commands(n0, depth, bound, cb, c);
    assert CallbackLog(b, depth, bound, cb, [c]) == Commands(b, depth, bound, cb, c);
    VisitSameShape(n0, b, depth, bound, c);
    CallbackLogSameShape(n0, b, depth, bound, cb, Visit(n0, depth, bound, c));
  }

  /** container_map on id runs its children loop and then its floating loop:
      together they map over, and log, exactly what is visited from id. */
  lemma MapDone(n0: Arena, depth: Ranks, bound: nat, nextId: NodeId, cb: Callback, id: NodeId)
    requires WellFormed(n0, depth, bound, nextId) && id in n0 && ViewsPlaced(n0, depth, bound, cb, id)
    ensures var kids := if n0[id].kind != View then VisitPrefix(n0, depth, bound, id, false, |n0[id].children|) else [];
      var n1 := Mapped(n0, cb, Seen(kids));
      Mapped(n0, cb, {}) == n0 &&
      WellFormed(n1, depth, bound, nextId) && id in n1 && n1[id].kind == n0[id].kind &&
      n1[id].floating == n0[id].floating && ViewsPlaced(n1, depth, bound, cb, id) && Mapped(n1, cb, {}) == n1 &&
      var floats := if n0[id].kind == Workspace then VisitPrefix(n1, depth, bound, id, true, |n1[id].floating|) else [];
      AllPlaced(n0, depth, bound, cb, kids) && AllPlaced(n1, depth, bound, cb, floats) &&
      Mapped(n1, cb, Seen(floats)) == Mapped(n0, cb, Seen(Visit(n0, depth, bound, id))) &&
      CallbackLog(n0, depth, bound, cb, kids) + CallbackLog(n1, depth, bound, cb, floats) ==
        CallbackLog(n0, depth, bound, cb, Visit(n0, depth, bound, id))
  {
    var kids := if n0[id].kind != View then VisitPrefix(n0, depth, bound, id, false, |n0[id].children|) else [];
    var floats0 := if n0[id].kind == Workspace then VisitPrefix(n0, depth, bound, id, true, |n0[id].floating|) else [];
    var n1 := Mapped(n0, cb, Seen(kids));
    MappedNothing(n0, cb);
    MappedKeepsShape(n0, cb, Seen(kids));
    SameShapeWellFormed(n0, n1, depth, bound, nextId);
    MappedNothing(n1, cb);
    VisitSameShape(n0, n1, depth, bound, id);
    CallbackLogSameShape(n0, n1, depth, bound, cb, Visit(n0, depth, bound, id));
    VisitPrefixSameShape(n0, n1, depth, bound, id, true, |n0[id].floating|);
    assert Visit(n0, depth, bound, id) == kids + floats0;
    CallbackLogSameShape(n0, n1, depth, bound, cb, floats0);
    CallbackLogConcat(n0, depth, bound, cb, kids, floats0);
    MappedCompose(n0, cb, Seen(kids), Seen(floats0));
    SeenConcat(kids, floats0);
  }
}
