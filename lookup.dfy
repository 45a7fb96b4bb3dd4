/** The read-only lookups over the container tree: the pre-order search of
    swayc_by_test and swayc_by_handle, the chains the parent and focus walks
    step through, and the active output and workspace. */
module TreeLookup {
  import opened Common
  import opened TreeTypes
  import opened TreeShape

  /** What a parent or focus walk stops at: a node of a given type
      (swayc_*_by_type) or with a given layout (swayc_*_by_layout). */
  datatype Probe = KindIs(kind: NodeType) | LayoutIs(layout: Layout)

  predicate Holds(p: Probe, n: Node) {
    match p
    case KindIs(k) => n.kind == k
    case LayoutIs(l) => n.layout == l
  }

  function ProbeTest(p: Probe): Node -> bool {
    (n: Node) => Holds(p, n)
  }

  /** The test of swayc_by_handle. */
  function HandleTest(handle: int): Node -> bool {
    (n: Node) => n.handle == handle
  }

  predicate AllLive(nodes: Arena, s: seq<NodeId>) {
    forall x :: x in s ==> x in nodes
  }

  // -------------------------------------------------------------- first match

  /** The position of the first node of s that passes the test, or |s|. */
  function FirstIndex(nodes: Arena, s: seq<NodeId>, test: Node -> bool): (i: nat)
    requires AllLive(nodes, s)
    ensures i <= |s|
    ensures i < |s| ==> test(nodes[s[i]])
    ensures forall j :: 0 <= j < i ==> !test(nodes[s[j]])
  {
    if s == [] then 0
    else if test(nodes[s[0]]) then 0
    else 1 + FirstIndex(nodes, s[1..], test)
  }

  /** The first node of s that passes the test. */
  function FirstMatch(nodes: Arena, s: seq<NodeId>, test: Node -> bool): (r: Option<NodeId>)
    requires AllLive(nodes, s)
    ensures r.Some? ==> r.value in s && test(nodes[r.value])
    ensures r.None? ==> forall x :: x in s ==> !test(nodes[x])
  {
    var i := FirstIndex(nodes, s, test);
    if i < |s| then Some(s[i]) else None
  }

  /** The search of a concatenation stops in its first part when that holds
      a match, else it runs on into the second. */
  lemma {:induction false} FirstIndexConcat(nodes: Arena, a: seq<NodeId>, b: seq<NodeId>, test: Node -> bool)
    requires AllLive(nodes, a) && AllLive(nodes, b)
    ensures AllLive(nodes, a + b)
    ensures FirstIndex(nodes, a + b, test) ==
      (if FirstIndex(nodes, a, test) < |a| then FirstIndex(nodes, a, test) else |a| + FirstIndex(nodes, b, test))
  {
    if a != [] {
      assert (a + b)[0] == a[0];
      assert (a + b)[1..] == a[1..] + b;
      FirstIndexConcat(nodes, a[1..], b, test);
    } else {
      assert a + b == b;
    }
  }

  /** The first match of a concatenation is the first match of its first
      part, if there is one, else that of the second. */
  lemma FirstMatchConcat(nodes: Arena, a: seq<NodeId>, b: seq<NodeId>, test: Node -> bool)
    requires AllLive(nodes, a) && AllLive(nodes, b)
    ensures AllLive(nodes, a + b)
    ensures FirstMatch(nodes, a + b, test) ==
      (if FirstMatch(nodes, a, test).Some? then FirstMatch(nodes, a, test) else FirstMatch(nodes, b, test))
  {
    FirstIndexConcat(nodes, a, b, test);
    var i := FirstIndex(nodes, a, test);
    if i < |a| {
      assert (a + b)[i] == a[i];
    } else {
      var j := FirstIndex(nodes, b, test);
      if j < |b| {
        assert (a + b)[|a| + j] == b[j];
      }
    }
  }

  lemma FirstMatchCons(nodes: Arena, x: NodeId, s: seq<NodeId>, test: Node -> bool)
    requires x in nodes && AllLive(nodes, s)
    ensures AllLive(nodes, [x] + s)
    ensures FirstMatch(nodes, [x] + s, test) == if test(nodes[x]) then Some(x) else FirstMatch(nodes, s, test)
  {
    assert ([x] + s)[1..] == s;
  }

  // ------------------------------------------------------------ search order

  /** The nodes swayc_by_test tries, in order: a workspace's floating views
      (not searched below), then each child followed by the search below it.
      A view has no child list and yields nothing. */
  function SearchOrder(nodes: Arena, ghost depth: Ranks, ghost bound: nat, id: NodeId): (r: seq<NodeId>)
    requires Ordered(nodes, depth, bound) && id in nodes && id in depth && depth[id] < bound
    ensures AllLive(nodes, r)
    decreases bound - depth[id], 1
  {
    if nodes[id].kind == View then []
    else
      Floats(nodes, depth, bound, id) + SearchFrom(nodes, depth, bound, id, 0)
  }

  /** The floating views of a workspace; nothing for any other node. */
  function Floats(nodes: Arena, ghost depth: Ranks, ghost bound: nat, id: NodeId): (r: seq<NodeId>)
    requires Ordered(nodes, depth, bound) && id in nodes
    ensures AllLive(nodes, r)
  {
    if nodes[id].kind == Workspace then
      assert forall x :: x in nodes[id].floating ==> InList(x, nodes[id]);
      nodes[id].floating
    else []
  }

  /** The search over the children of p from position i on. */
  function SearchFrom(nodes: Arena, ghost depth: Ranks, ghost bound: nat, p: NodeId, i: nat): (r: seq<NodeId>)
    requires Ordered(nodes, depth, bound) && p in nodes && p in depth && depth[p] < bound
    requires i <= |nodes[p].children|
    ensures AllLive(nodes, r)
    decreases bound - depth[p], 0, |nodes[p].children| - i
  {
    if i == |nodes[p].children| then []
    else
      var c := nodes[p].children[i];
      assert InList(c, nodes[p]);
      [c] + SearchOrder(nodes, depth, bound, c) + SearchFrom(nodes, depth, bound, p, i + 1)
  }

  /** swayc_by_test(id, test): the floating loop, then the children loop,
      which tests each child and, when it fails, searches below it. */
  function ByTest(nodes: Arena, ghost depth: Ranks, ghost bound: nat, id: NodeId, test: Node -> bool): (r: Option<NodeId>)
    requires Ordered(nodes, depth, bound) && id in nodes && id in depth && depth[id] < bound
    ensures r.Some? ==> r.value in nodes && test(nodes[r.value])
    decreases bound - depth[id], 1
  {
    if nodes[id].kind == View then None
    else
      var f := FirstMatch(nodes, Floats(nodes, depth, bound, id), test);
      if f.Some? then f else ChildrenByTest(nodes, depth, bound, id, 0, test)
  }

  /** The children loop of swayc_by_test from position i on. */
  function ChildrenByTest(nodes: Arena, ghost depth: Ranks, ghost bound: nat, p: NodeId, i: nat, test: Node -> bool): (r: Option<NodeId>)
    requires Ordered(nodes, depth, bound) && p in nodes && p in depth && depth[p] < bound
    requires i <= |nodes[p].children|
    ensures r.Some? ==> r.value in nodes && test(nodes[r.value])
    decreases bound - depth[p], 0, |nodes[p].children| - i
  {
    if i == |nodes[p].children| then None
    else
      var c := nodes[p].children[i];
      assert InList(c, nodes[p]);
      if test(nodes[c]) then Some(c)
      else
        var res := ByTest(nodes, depth, bound, c, test);
        if res.Some? then res else ChildrenByTest(nodes, depth, bound, p, i + 1, test)
  }

  /** swayc_by_test returns the first node of the search order that passes the test. */
  lemma {:induction false} ByTestIsFirstMatch(nodes: Arena, depth: Ranks, bound: nat, id: NodeId, test: Node -> bool)
    requires Ordered(nodes, depth, bound) && id in nodes && id in depth && depth[id] < bound
    ensures ByTest(nodes, depth, bound, id, test) == FirstMatch(nodes, SearchOrder(nodes, depth, bound, id), test)
    decreases bound - depth[id], 1
  {
    if nodes[id].kind != View {
      FirstMatchConcat(nodes, Floats(nodes, depth, bound, id), SearchFrom(nodes, depth, bound, id, 0), test);
      ChildrenByTestIsFirstMatch(nodes, depth, bound, id, 0, test);
    }
  }

  lemma {:induction false} ChildrenByTestIsFirstMatch(nodes: Arena, depth: Ranks, bound: nat, p: NodeId, i: nat, test: Node -> bool)
    requires Ordered(nodes, depth, bound) && p in nodes && p in depth && depth[p] < bound
    requires i <= |nodes[p].children|
    ensures ChildrenByTest(nodes, depth, bound, p, i, test) == FirstMatch(nodes, SearchFrom(nodes, depth, bound, p, i), test)
    decreases bound - depth[p], 0, |nodes[p].children| - i
  {
    if i < |nodes[p].children| {
      var c := nodes[p].children[i];
      assert InList(c, nodes[p]);
      ByTestIsFirstMatch(nodes, depth, bound, c, test);
      ChildrenByTestIsFirstMatch(nodes, depth, bound, p, i + 1, test);
      ChildrenByTestStep(nodes, depth, bound, p, i, test);
    }
  }

  /** One step of the children loop: when the search below child i and the
      loop from i + 1 on are first matches, so is the loop from i. */
  lemma ChildrenByTestStep(nodes: Arena, depth: Ranks, bound: nat, p: NodeId, i: nat, test: Node -> bool)
    requires Ordered(nodes, depth, bound) && p in nodes && p in depth && depth[p] < bound
    requires i < |nodes[p].children|
    requires InList(nodes[p].children[i], nodes[p])
    requires ByTest(nodes, depth, bound, nodes[p].children[i], test) ==
      FirstMatch(nodes, SearchOrder(nodes, depth, bound, nodes[p].children[i]), test)
    requires ChildrenByTest(nodes, depth, bound, p, i + 1, test) == FirstMatch(nodes, SearchFrom(nodes, depth, bound, p, i + 1), test)
    ensures ChildrenByTest(nodes, depth, bound, p, i, test) == FirstMatch(nodes, SearchFrom(nodes, depth, bound, p, i), test)
  {
    SearchFromFirstMatch(nodes, depth, bound, p, i, test);
  }

  /** The first match from child i on: child i itself, else the first match
      below it, else the first match from child i + 1 on. */
  lemma SearchFromFirstMatch(nodes: Arena, depth: Ranks, bound: nat, p: NodeId, i: nat, test: Node -> bool)
    requires Ordered(nodes, depth, bound) && p in nodes && p in depth && depth[p] < bound
    requires i < |nodes[p].children| && InList(nodes[p].children[i], nodes[p])
    ensures var c := nodes[p].children[i]; var fb := FirstMatch(nodes, SearchOrder(nodes, depth, bound, c), test);
      FirstMatch(nodes, SearchFrom(nodes, depth, bound, p, i), test) ==
      if test(nodes[c]) then Some(c) else if fb.Some? then fb else FirstMatch(nodes, SearchFrom(nodes, depth, bound, p, i + 1), test)
  {
    var c := nodes[p].children[i];
    var below := SearchOrder(nodes, depth, bound, c);
    var rest := SearchFrom(nodes, depth, bound, p, i + 1);
    assert SearchFrom(nodes, depth, bound, p, i) == [c] + (below + rest);
    FirstMatchConcat(nodes, below, rest, test);
    FirstMatchCons(nodes, c, below + rest, test);
  }

  /** Everything the search tries lies below the node it starts from. */
  lemma {:induction false} SearchOrderBelow(nodes: Arena, depth: Ranks, bound: nat, id: NodeId, m: NodeId)
    requires Linked(nodes, depth, bound) && id in nodes
    requires m in SearchOrder(nodes, depth, bound, id)
    ensures m in nodes && id in Ancestors(nodes, depth, bound, m)
    decreases bound - depth[id], 1
  {
    if m in Floats(nodes, depth, bound, id) {
      assert InList(m, nodes[id]);
      AncestorsOfMember(nodes, depth, bound, id, m);
    } else {
      SearchFromBelow(nodes, depth, bound, id, 0, m);
    }
  }

  lemma {:induction false} SearchFromBelow(nodes: Arena, depth: Ranks, bound: nat, p: NodeId, i: nat, m: NodeId)
    requires Linked(nodes, depth, bound) && p in nodes && i <= |nodes[p].children|
    requires m in SearchFrom(nodes, depth, bound, p, i)
    ensures m in nodes && p in Ancestors(nodes, depth, bound, m)
    decreases bound - depth[p], 0, |nodes[p].children| - i
  {
    var c := nodes[p].children[i];
    assert InList(c, nodes[p]);
    AncestorsOfMember(nodes, depth, bound, p, c);
    var below := SearchOrder(nodes, depth, bound, c);
    var rest := SearchFrom(nodes, depth, bound, p, i + 1);
    assert SearchFrom(nodes, depth, bound, p, i) == [c] + below + rest;
    if m in below {
      SearchOrderBelow(nodes, depth, bound, c, m);
      AncestorsTransitive(nodes, depth, bound, m, c, p);
    } else if m in rest {
      SearchFromBelow(nodes, depth, bound, p, i + 1, m);
    }
  }

  /** swayc_by_test never returns the node it starts from, only one below it,
      and what it returns passes the test. */
  lemma ByTestFindsBelow(nodes: Arena, depth: Ranks, bound: nat, id: NodeId, test: Node -> bool)
    requires Linked(nodes, depth, bound) && id in nodes
    ensures var r := ByTest(nodes, depth, bound, id, test);
      r.Some? ==> r.value in nodes && test(nodes[r.value]) && id in Ancestors(nodes, depth, bound, r.value)
  {
    ByTestIsFirstMatch(nodes, depth, bound, id, test);
    var r := ByTest(nodes, depth, bound, id, test);
    if r.Some? {
      SearchOrderBelow(nodes, depth, bound, id, r.value);
    }
  }

  /** swayc_by_handle(handle): the search from the root for a node with that handle. */
  function ByHandle(nodes: Arena, ghost depth: Ranks, ghost bound: nat, handle: int): (r: Option<NodeId>)
    requires Linked(nodes, depth, bound)
    ensures r.Some? ==> r.value in nodes && r.value != RootId && nodes[r.value].handle == handle
    ensures r.None? ==> forall x :: x in SearchOrder(nodes, depth, bound, RootId) ==> nodes[x].handle != handle
  {
    ByTestFindsBelow(nodes, depth, bound, RootId, HandleTest(handle));
    ByTestIsFirstMatch(nodes, depth, bound, RootId, HandleTest(handle));
    var r := ByTest(nodes, depth, bound, RootId, HandleTest(handle));
    if r.Some? then
      AncestorsReachRoot(nodes, depth, bound, r.value);
      r
    else r
  }

  // ---------------------------------------------------------------- walks

  /** The nearest strict ancestor the probe holds for: what swayc_parent_by_type
      and swayc_parent_by_layout return. */
  function ParentOf(nodes: Arena, ghost depth: Ranks, ghost bound: nat, id: NodeId, p: Probe): (r: Option<NodeId>)
    requires Ranked(nodes, depth, bound) && UpLinks(nodes, depth) && id in nodes
    ensures r.Some? ==> r.value in nodes && Holds(p, nodes[r.value])
  {
    FirstMatch(nodes, Ancestors(nodes, depth, bound, id), ProbeTest(p))
  }

  /** The parent walks never return the node they start from; they return
      the nearest ancestor the probe holds for, or null when none does. */
  lemma ParentOfIsNearest(nodes: Arena, depth: Ranks, bound: nat, id: NodeId, p: Probe)
    requires Ranked(nodes, depth, bound) && UpLinks(nodes, depth) && id in nodes
    ensures var r := ParentOf(nodes, depth, bound, id, p); var anc := Ancestors(nodes, depth, bound, id);
      (r.Some? ==>
         r.value != id && r.value in anc && Holds(p, nodes[r.value]) &&
         exists i :: 0 <= i < |anc| && anc[i] == r.value && forall j :: 0 <= j < i ==> !Holds(p, nodes[anc[j]])) &&
      (r.None? ==> forall a :: a in anc ==> !Holds(p, nodes[a]))
  {
    AncestorsShallower(nodes, depth, bound, id);
    var anc := Ancestors(nodes, depth, bound, id);
    var i := FirstIndex(nodes, anc, ProbeTest(p));
    if i < |anc| {
      assert forall j :: 0 <= j < i ==> !ProbeTest(p)(nodes[anc[j]]);
    }
  }

  /** The live nodes a focus walk steps through: each node's focus in turn,
      until a node has no focus or its focus names a freed node. */
  function FocusChain(nodes: Arena, ghost depth: Ranks, ghost bound: nat, id: NodeId): (r: seq<NodeId>)
    requires Ranked(nodes, depth, bound) && FocusDeeper(nodes, depth) && id in nodes
    ensures AllLive(nodes, r)
    decreases bound - depth[id]
  {
    Focus(nodes, depth, id);
    match nodes[id].focused
    case None => []
    case Some(f) => if f in nodes then [f] + FocusChain(nodes, depth, bound, f) else []
  }

  /** What swayc_focus_by_type and swayc_focus_by_layout return. */
  function FocusOf(nodes: Arena, ghost depth: Ranks, ghost bound: nat, id: NodeId, p: Probe): (r: Option<NodeId>)
    requires Ranked(nodes, depth, bound) && FocusDeeper(nodes, depth) && id in nodes
    ensures r.Some? ==> r.value in nodes && Holds(p, nodes[r.value])
  {
    FirstMatch(nodes, FocusChain(nodes, depth, bound, id), ProbeTest(p))
  }

  /** A focus walk never returns the node it starts from. */
  lemma {:induction false} FocusChainDeeper(nodes: Arena, depth: Ranks, bound: nat, id: NodeId)
    requires Ranked(nodes, depth, bound) && FocusDeeper(nodes, depth) && id in nodes
    ensures forall x :: x in FocusChain(nodes, depth, bound, id) ==> x in depth && id in depth && depth[id] < depth[x]
    decreases bound - depth[id]
  {
    Focus(nodes, depth, id);
    match nodes[id].focused
    case None =>
    case Some(f) =>
      if f in nodes {
        FocusChainDeeper(nodes, depth, bound, f);
      }
  }

  /** The focus walks never return the node they start from; they return
      the first node on the focus chain the probe holds for, or null when
      none does. */
  lemma FocusOfIsFirst(nodes: Arena, depth: Ranks, bound: nat, id: NodeId, p: Probe)
    requires Ranked(nodes, depth, bound) && FocusDeeper(nodes, depth) && id in nodes
    ensures var r := FocusOf(nodes, depth, bound, id, p); var chain := FocusChain(nodes, depth, bound, id);
      (r.Some? ==>
         r.value != id && r.value in chain && Holds(p, nodes[r.value]) &&
         exists i :: 0 <= i < |chain| && chain[i] == r.value && forall j :: 0 <= j < i ==> !Holds(p, nodes[chain[j]])) &&
      (r.None? ==> forall a :: a in chain ==> !Holds(p, nodes[a]))
  {
    FocusChainDeeper(nodes, depth, bound, id);
    var chain := FocusChain(nodes, depth, bound, id);
    var i := FirstIndex(nodes, chain, ProbeTest(p));
    if i < |chain| {
      assert forall j :: 0 <= j < i ==> !ProbeTest(p)(nodes[chain[j]]);
    }
  }

  /** One focus hop: the node's focus, or null when it has none or it names
      a freed node. */
  function Focused(nodes: Arena, id: NodeId): (r: Option<NodeId>)
    requires id in nodes
    ensures r.Some? ==> r.value in nodes && nodes[id].focused == r
    ensures r.None? ==> nodes[id].focused.None? || nodes[id].focused.value !in nodes
  {
    if nodes[id].focused.Some? && nodes[id].focused.value in nodes then nodes[id].focused else None
  }

  /** swayc_active_output(): the root's focus. */
  function ActiveOutput(nodes: Arena): (r: Option<NodeId>)
    requires RootId in nodes
    ensures r.Some? ==> r.value in nodes && nodes[RootId].focused == r
  {
    Focused(nodes, RootId)
  }

  /** swayc_active_workspace(): the focus of the active output, or null when
      there is no active output. */
  function ActiveWorkspace(nodes: Arena): (r: Option<NodeId>)
    requires RootId in nodes
    ensures r.Some? ==> ActiveOutput(nodes).Some? && r.value in nodes && nodes[ActiveOutput(nodes).value].focused == r
    ensures ActiveOutput(nodes).None? ==> r.None?
  {
    match ActiveOutput(nodes)
    case None => None
    case Some(o) => Focused(nodes, o)
  }

  /** Both active lookups are the first hops of the root's focus chain. */
  lemma ActiveIsFocusChain(nodes: Arena, depth: Ranks, bound: nat)
    requires Ranked(nodes, depth, bound) && FocusDeeper(nodes, depth) && RootId in nodes
    ensures var chain := FocusChain(nodes, depth, bound, RootId);
      (ActiveOutput(nodes).Some? <==> |chain| >= 1) &&
      (|chain| >= 1 ==> ActiveOutput(nodes) == Some(chain[0])) &&
      (ActiveWorkspace(nodes).Some? <==> |chain| >= 2) &&
      (|chain| >= 2 ==> ActiveWorkspace(nodes) == Some(chain[1]))
  {
    Focus(nodes, depth, RootId);
    if ActiveOutput(nodes).Some? {
      var o := ActiveOutput(nodes).value;
      Focus(nodes, depth, o);
      assert FocusChain(nodes, depth, bound, RootId) == [o] + FocusChain(nodes, depth, bound, o);
    }
  }

  /** A live focus never names the root: the root is ranked below every
      other node, and a focus names a node ranked above its holder. */
  lemma FocusNotRoot(nodes: Arena, depth: Ranks, bound: nat, id: NodeId)
    requires Linked(nodes, depth, bound) && FocusDeeper(nodes, depth) && id in nodes
    ensures Focused(nodes, id).Some? ==> Focused(nodes, id).value != RootId
  {
    Focus(nodes, depth, id);
    if id != RootId {
      AncestorsReachRoot(nodes, depth, bound, id);
      AncestorsShallower(nodes, depth, bound, id);
      var anc := Ancestors(nodes, depth, bound, id);
      assert anc[|anc| - 1] in anc;
    }
  }

  /** swayc_active_workspace_for(cont): null for null; from the root, the
      focus of its focus; from an output, its focus; a workspace itself;
      from anything else, the workspace above it. */
  function ActiveWorkspaceFor(nodes: Arena, ghost depth: Ranks, ghost bound: nat, cont: Option<NodeId>): (r: Option<NodeId>)
    requires Ranked(nodes, depth, bound) && UpLinks(nodes, depth)
    requires cont.Some? ==> cont.value in nodes
    ensures r.Some? ==> r.value in nodes
  {
    match cont
    case None => None
    case Some(c) =>
      match nodes[c].kind
      case Root =>
        (match Focused(nodes, c)
         case None => None
         case Some(o) => Focused(nodes, o))
      case Output => Focused(nodes, c)
      case Workspace => cont
      case _ => ParentOf(nodes, depth, bound, c, KindIs(Workspace))
  }

  /** The cases of swayc_active_workspace_for: from the root it agrees
      with swayc_active_workspace, a workspace yields itself, an output one
      focus hop, a container or view its nearest workspace ancestor; and
      the result is never the root. */
  lemma ActiveWorkspaceForCases(nodes: Arena, depth: Ranks, bound: nat, cont: Option<NodeId>)
    requires Linked(nodes, depth, bound) && FocusDeeper(nodes, depth)
    requires cont.Some? ==> cont.value in nodes
    ensures var r := ActiveWorkspaceFor(nodes, depth, bound, cont);
      (cont.None? ==> r.None?) &&
      (cont == Some(RootId) ==> r == ActiveWorkspace(nodes)) &&
      (r.Some? ==> r.value != RootId) &&
      (cont.Some? && nodes[cont.value].kind == Workspace ==> r == cont) &&
      (cont.Some? && nodes[cont.value].kind == Output ==>
         r == Focused(nodes, cont.value) && (r.Some? ==> nodes[cont.value].focused == r)) &&
      (cont.Some? && nodes[cont.value].kind in {Container, View} ==>
         r == ParentOf(nodes, depth, bound, cont.value, KindIs(Workspace)) &&
         (r.Some? ==> nodes[r.value].kind == Workspace && r.value in Ancestors(nodes, depth, bound, cont.value)))
  {
    var r := ActiveWorkspaceFor(nodes, depth, bound, cont);
    if cont.Some? {
      var c := cont.value;
      FocusNotRoot(nodes, depth, bound, c);
      if nodes[c].kind == Root && Focused(nodes, c).Some? {
        FocusNotRoot(nodes, depth, bound, Focused(nodes, c).value);
      }
      if nodes[c].kind in {Container, View} {
        ParentOfIsNearest(nodes, depth, bound, c, KindIs(Workspace));
      }
    }
  }

  /** The test of workspace_by_name: a workspace whose name matches, ignoring case. */
  function WorkspaceNameTest(name: string): Node -> bool {
    (n: Node) => n.kind == Workspace && n.name.Some? && SameIgnoringCase(n.name.value, name)
  }

  /** workspace_by_name(name), whose code is not part of this model, taken
      to be the search from the root for a workspace of that name. */
  function WorkspaceByName(nodes: Arena, ghost depth: Ranks, ghost bound: nat, name: string): (r: Option<NodeId>)
    requires Linked(nodes, depth, bound)
    ensures r.Some? ==>
      r.value in nodes && nodes[r.value].kind == Workspace &&
      nodes[r.value].name.Some? && SameIgnoringCase(nodes[r.value].name.value, name)
    ensures r.None? ==> forall x :: x in SearchOrder(nodes, depth, bound, RootId) ==> !WorkspaceNameTest(name)(nodes[x])
  {
    ByTestIsFirstMatch(nodes, depth, bound, RootId, WorkspaceNameTest(name));
    ByTest(nodes, depth, bound, RootId, WorkspaceNameTest(name))
  }
}
