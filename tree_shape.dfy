/** The shape of the container tree held in an arena: the invariant every
    operation keeps, the chain of parents above a node, the order in which
    container_map visits the nodes below one, and the removal of a subtree
    that free_swayc performs. */
module TreeShape {
  import opened Common
  import opened TreeTypes

  /** Every live node, by id. */
  type Arena = map<NodeId, Node>

  /** Ghost ranks: a parent is ranked strictly below each of its children and
      each node strictly below the node its focus names. */
  type Ranks = map<NodeId, nat>

  /** c is held in one of n's two lists. */
  predicate InList(c: NodeId, n: Node) {
    c in n.children || c in n.floating
  }

  predicate NoDup(s: seq<NodeId>) {
    forall i, j :: 0 <= i < j < |s| ==> s[i] != s[j]
  }

  /** root_container is live, is the root, and has no parent. */
  ghost predicate RootOk(nodes: Arena) {
    RootId in nodes && nodes[RootId].kind == Root && nodes[RootId].parent == None
  }

  /** Each listed child is live and ranked above its holder, below the bound. */
  ghost predicate Ordered(nodes: Arena, depth: Ranks, bound: nat) {
    forall id, c {:trigger InList(c, nodes[id])} :: id in nodes && InList(c, nodes[id]) ==>
      c in nodes && id in depth && c in depth && depth[id] < depth[c] < bound
  }

  /** Each listed child names its holder as parent. */
  ghost predicate BackLinks(nodes: Arena) {
    forall id, c {:trigger InList(c, nodes[id])} :: id in nodes && InList(c, nodes[id]) ==> c in nodes && nodes[c].parent == Some(id)
  }

  /** Each node is ranked below the bound. */
  ghost predicate Ranked(nodes: Arena, depth: Ranks, bound: nat) {
    forall c :: c in nodes ==> c in depth && depth[c] < bound
  }

  /** c is a live node. The facts about a node's parent and focus are stated
      for Live(nodes, c), so that the solver applies them to the nodes a proof
      names rather than climbing every chain of parents it can build. */
  ghost predicate Live(nodes: Arena, c: NodeId) {
    c in nodes
  }

  /** The facts UpLinks states about one node. */
  ghost predicate UpLink(nodes: Arena, depth: Ranks, c: NodeId)
    requires c in nodes
  {
    (c != RootId ==> nodes[c].parent.Some?) &&
    (nodes[c].parent.Some? ==>
      nodes[c].parent.value in nodes && c in depth && nodes[c].parent.value in depth &&
      depth[nodes[c].parent.value] < depth[c] && InList(c, nodes[nodes[c].parent.value]))
  }

  /** Each node but the root has a parent; a parent is live, ranked below the
      node and lists it. */
  ghost predicate UpLinks(nodes: Arena, depth: Ranks) {
    forall c {:trigger Live(nodes, c)} :: Live(nodes, c) ==> UpLink(nodes, depth, c)
  }

  lemma Up(nodes: Arena, depth: Ranks, c: NodeId)
    requires UpLinks(nodes, depth) && c in nodes
    ensures c != RootId ==> nodes[c].parent.Some?
    ensures nodes[c].parent.Some? ==>
      nodes[c].parent.value in nodes && c in depth && nodes[c].parent.value in depth &&
      depth[nodes[c].parent.value] < depth[c] && InList(c, nodes[nodes[c].parent.value])
  {
    assert Live(nodes, c);
  }

  /** The parent links form a tree rooted at root_container. */
  ghost predicate Linked(nodes: Arena, depth: Ranks, bound: nat) {
    RootOk(nodes) && Ranked(nodes, depth, bound) && Ordered(nodes, depth, bound) && BackLinks(nodes) &&
    UpLinks(nodes, depth)
  }

  /** No node is listed twice by the same holder. */
  ghost predicate Distinct(nodes: Arena) {
    forall id :: id in nodes ==> NoDup(nodes[id].children + nodes[id].floating)
  }

  /** Only workspaces hold floating views; views hold no children (the C
      leaves those lists NULL). */
  ghost predicate KindsOk(nodes: Arena) {
    forall id :: id in nodes ==>
      (nodes[id].kind != Workspace ==> nodes[id].floating == []) &&
      (nodes[id].kind == View ==> nodes[id].children == [])
  }

  /** A focus that names a live node names one ranked higher. A focus may
      name a node that has been freed. */
  ghost predicate FocusDeeper(nodes: Arena, depth: Ranks) {
    forall id {:trigger Live(nodes, id)} :: Live(nodes, id) ==> FocusLink(nodes, depth, id)
  }

  /** The fact FocusDeeper states about one node. */
  ghost predicate FocusLink(nodes: Arena, depth: Ranks, id: NodeId)
    requires id in nodes
  {
    nodes[id].focused.Some? && nodes[id].focused.value in nodes ==>
      id in depth && nodes[id].focused.value in depth && depth[id] < depth[nodes[id].focused.value]
  }

  lemma Focus(nodes: Arena, depth: Ranks, id: NodeId)
    requires FocusDeeper(nodes, depth) && id in nodes
    ensures nodes[id].focused.Some? && nodes[id].focused.value in nodes ==>
      id in depth && nodes[id].focused.value in depth && depth[id] < depth[nodes[id].focused.value]
  {
    assert Live(nodes, id);
  }

  /** Ids, including those a focus names, are below the allocator, so a
      fresh id is never one a stale focus still names. */
  ghost predicate IdsBelow(nodes: Arena, nextId: NodeId) {
    forall id :: id in nodes ==>
      id < nextId && (nodes[id].focused.Some? ==> nodes[id].focused.value < nextId)
  }

  ghost predicate WellFormed(nodes: Arena, depth: Ranks, bound: nat, nextId: NodeId) {
    Linked(nodes, depth, bound) && Distinct(nodes) && KindsOk(nodes) &&
    FocusDeeper(nodes, depth) && IdsBelow(nodes, nextId)
  }

  // ---------------------------------------------------------------- ancestry

  /** The parents above a node, nearest first: the nodes the do-while loops
      of swayc_parent_by_type and swayc_parent_by_layout step through. */
  function Ancestors(nodes: Arena, ghost depth: Ranks, ghost bound: nat, id: NodeId): (r: seq<NodeId>)
    requires Ranked(nodes, depth, bound) && UpLinks(nodes, depth) && id in nodes
    ensures forall a :: a in r ==> a in nodes
    decreases depth[id]
  {
    Up(nodes, depth, id);
    match nodes[id].parent
    case None => []
    case Some(p) => [p] + Ancestors(nodes, depth, bound, p)
  }

  /** Every ancestor is ranked below the node. */
  lemma {:induction false} AncestorsShallower(nodes: Arena, depth: Ranks, bound: nat, m: NodeId)
    requires Ranked(nodes, depth, bound) && UpLinks(nodes, depth) && m in nodes
    ensures forall a :: a in Ancestors(nodes, depth, bound, m) ==> a in depth && m in depth && depth[a] < depth[m]
    decreases depth[m]
  {
    Up(nodes, depth, m);
    match nodes[m].parent
    case None =>
    case Some(p) =>
      AncestorsShallower(nodes, depth, bound, p);
  }

  /** Every node but the root reaches the root: the tree is connected. */
  lemma {:induction false} AncestorsReachRoot(nodes: Arena, depth: Ranks, bound: nat, m: NodeId)
    requires Ranked(nodes, depth, bound) && UpLinks(nodes, depth) && RootOk(nodes) && m in nodes
    ensures m == RootId <==> Ancestors(nodes, depth, bound, m) == []
    ensures m != RootId ==> Ancestors(nodes, depth, bound, m)[|Ancestors(nodes, depth, bound, m)| - 1] == RootId
    decreases depth[m]
  {
    Up(nodes, depth, m);
    if m != RootId {
      var p := nodes[m].parent.value;
      AncestorsReachRoot(nodes, depth, bound, p);
    }
  }

  lemma AncestorsOfMember(nodes: Arena, depth: Ranks, bound: nat, p: NodeId, c: NodeId)
    requires Ranked(nodes, depth, bound) && UpLinks(nodes, depth) && BackLinks(nodes) && p in nodes && InList(c, nodes[p])
    ensures c in nodes && Ancestors(nodes, depth, bound, c) == [p] + Ancestors(nodes, depth, bound, p)
  {
    Up(nodes, depth, c);
  }

  lemma {:induction false} AncestorsTransitive(nodes: Arena, depth: Ranks, bound: nat, m: NodeId, a: NodeId, x: NodeId)
    requires Ranked(nodes, depth, bound) && UpLinks(nodes, depth) && m in nodes
    requires a in Ancestors(nodes, depth, bound, m)
    requires x in Ancestors(nodes, depth, bound, a)
    ensures x in Ancestors(nodes, depth, bound, m)
    decreases depth[m]
  {
    Up(nodes, depth, m);
    var p := nodes[m].parent.value;
    if a != p {
      AncestorsTransitive(nodes, depth, bound, p, a, x);
    }
  }

  // ---------------------------------------------------------- visiting order

  /** One of a node's two lists: the floating views if floating, else the children. */
  function Listed(n: Node, floating: bool): seq<NodeId> {
    if floating then n.floating else n.children
  }

  lemma ListedInList(n: Node, floating: bool, i: nat)
    requires i < |Listed(n, floating)|
    ensures InList(Listed(n, floating)[i], n)
  {
  }

  /** The nodes below id in the order container_map reaches them: each child,
      then its own subtree, children first and then floating views. A view's
      child list and a non-workspace's floating list are NULL in the C and are
      skipped. */
  function Visit(nodes: Arena, ghost depth: Ranks, ghost bound: nat, id: NodeId): seq<NodeId>
    requires Ordered(nodes, depth, bound) && id in nodes && id in depth && depth[id] < bound
    decreases bound - depth[id], 1
  {
    (if nodes[id].kind != View then VisitPrefix(nodes, depth, bound, id, false, |nodes[id].children|) else []) +
    (if nodes[id].kind == Workspace then VisitPrefix(nodes, depth, bound, id, true, |nodes[id].floating|) else [])
  }

  /** What container_map reaches from the first k entries of one of p's lists. */
  function VisitPrefix(nodes: Arena, ghost depth: Ranks, ghost bound: nat, p: NodeId, floating: bool, k: nat): seq<NodeId>
    requires Ordered(nodes, depth, bound) && p in nodes && p in depth && depth[p] < bound
    requires k <= |Listed(nodes[p], floating)|
    decreases bound - depth[p], 0, k
  {
    if k == 0 then []
    else
      var c := Listed(nodes[p], floating)[k - 1];
      ListedInList(nodes[p], floating, k - 1);
      VisitPrefix(nodes, depth, bound, p, floating, k - 1) + [c] + Visit(nodes, depth, bound, c)
  }

  /** Every visited node is below the node the visit started from. */
  lemma {:induction false} VisitedBelow(nodes: Arena, depth: Ranks, bound: nat, n: NodeId, m: NodeId)
    requires Ordered(nodes, depth, bound) && BackLinks(nodes) && Ranked(nodes, depth, bound) && UpLinks(nodes, depth) && n in nodes
    requires m in Visit(nodes, depth, bound, n)
    ensures m in nodes && n in Ancestors(nodes, depth, bound, m)
    decreases bound - depth[n], 1
  {
    if nodes[n].kind != View && m in VisitPrefix(nodes, depth, bound, n, false, |nodes[n].children|) {
      VisitPrefixBelow(nodes, depth, bound, n, false, |nodes[n].children|, m);
    } else {
      VisitPrefixBelow(nodes, depth, bound, n, true, |nodes[n].floating|, m);
    }
  }

  lemma {:induction false} VisitPrefixBelow(nodes: Arena, depth: Ranks, bound: nat, p: NodeId, floating: bool, k: nat, m: NodeId)
    requires Ordered(nodes, depth, bound) && BackLinks(nodes) && Ranked(nodes, depth, bound) && UpLinks(nodes, depth) && p in nodes && k <= |Listed(nodes[p], floating)|
    requires m in VisitPrefix(nodes, depth, bound, p, floating, k)
    ensures m in nodes && p in Ancestors(nodes, depth, bound, m)
    decreases bound - depth[p], 0, k
  {
    var c := Listed(nodes[p], floating)[k - 1];
    ListedInList(nodes[p], floating, k - 1);
    AncestorsOfMember(nodes, depth, bound, p, c);
    if m in VisitPrefix(nodes, depth, bound, p, floating, k - 1) {
      VisitPrefixBelow(nodes, depth, bound, p, floating, k - 1, m);
    } else if m != c {
      VisitedBelow(nodes, depth, bound, c, m);
      AncestorsTransitive(nodes, depth, bound, m, c, p);
    }
  }

  lemma {:induction false} ListedVisited(nodes: Arena, depth: Ranks, bound: nat, p: NodeId, floating: bool, k: nat, i: nat)
    requires Ordered(nodes, depth, bound) && p in nodes && p in depth && depth[p] < bound
    requires i < k <= |Listed(nodes[p], floating)|
    ensures Listed(nodes[p], floating)[i] in VisitPrefix(nodes, depth, bound, p, floating, k)
    decreases k
  {
    if i < k - 1 {
      ListedVisited(nodes, depth, bound, p, floating, k - 1, i);
    }
  }

  /** Each node a holder lists is visited from the holder. */
  lemma MemberVisited(nodes: Arena, depth: Ranks, bound: nat, p: NodeId, c: NodeId)
    requires Ordered(nodes, depth, bound) && Ranked(nodes, depth, bound) && KindsOk(nodes) && p in nodes && InList(c, nodes[p])
    ensures c in Visit(nodes, depth, bound, p)
  {
    var floating := c !in nodes[p].children;
    var list := Listed(nodes[p], floating);
    var i :| 0 <= i < |list| && list[i] == c;
    ListedVisited(nodes, depth, bound, p, floating, |list|, i);
  }

  /** A visit that reaches a node also reaches everything that node lists. */
  lemma {:induction false} VisitClosed(nodes: Arena, depth: Ranks, bound: nat, n: NodeId, m: NodeId, c: NodeId)
    requires Ordered(nodes, depth, bound) && Ranked(nodes, depth, bound) && KindsOk(nodes) && n in nodes
    requires m in Visit(nodes, depth, bound, n) && m in nodes && InList(c, nodes[m])
    ensures c in Visit(nodes, depth, bound, n)
    decreases bound - depth[n], 1
  {
    if nodes[n].kind != View && m in VisitPrefix(nodes, depth, bound, n, false, |nodes[n].children|) {
      VisitPrefixClosed(nodes, depth, bound, n, false, |nodes[n].children|, m, c);
    } else {
      VisitPrefixClosed(nodes, depth, bound, n, true, |nodes[n].floating|, m, c);
    }
  }

  lemma {:induction false} VisitPrefixClosed(nodes: Arena, depth: Ranks, bound: nat, p: NodeId, floating: bool, k: nat, m: NodeId, c: NodeId)
    requires Ordered(nodes, depth, bound) && Ranked(nodes, depth, bound) && KindsOk(nodes) && p in nodes && k <= |Listed(nodes[p], floating)|
    requires m in VisitPrefix(nodes, depth, bound, p, floating, k) && m in nodes && InList(c, nodes[m])
    ensures c in VisitPrefix(nodes, depth, bound, p, floating, k)
    decreases bound - depth[p], 0, k
  {
    var last := Listed(nodes[p], floating)[k - 1];
    ListedInList(nodes[p], floating, k - 1);
    var before := VisitPrefix(nodes, depth, bound, p, floating, k - 1);
    var below := Visit(nodes, depth, bound, last);
    assert VisitPrefix(nodes, depth, bound, p, floating, k) == before + [last] + below;
    if m in before {
      VisitPrefixClosed(nodes, depth, bound, p, floating, k - 1, m, c);
      assert c in before;
    } else if m == last {
      MemberVisited(nodes, depth, bound, last, c);
      assert c in below;
    } else {
      assert m in below;
      VisitClosed(nodes, depth, bound, last, m, c);
      assert c in below;
    }
  }

  /** Every node below n is visited from n. */
  lemma {:induction false} BelowVisited(nodes: Arena, depth: Ranks, bound: nat, n: NodeId, m: NodeId)
    requires Ordered(nodes, depth, bound) && Ranked(nodes, depth, bound) && UpLinks(nodes, depth) && KindsOk(nodes) && m in nodes
    requires n in Ancestors(nodes, depth, bound, m)
    ensures n in nodes && m in Visit(nodes, depth, bound, n)
    decreases depth[m]
  {
    Up(nodes, depth, m);
    var p := nodes[m].parent.value;
    MemberVisited(nodes, depth, bound, p, m);
    if n != p {
      BelowVisited(nodes, depth, bound, n, p);
      VisitClosed(nodes, depth, bound, n, p, m);
    }
  }

  /** container_map reaches exactly the nodes below its argument. */
  lemma VisitIsSubtree(nodes: Arena, depth: Ranks, bound: nat, n: NodeId, m: NodeId)
    requires Linked(nodes, depth, bound) && KindsOk(nodes) && n in nodes
    ensures m in Visit(nodes, depth, bound, n) <==> m in nodes && n in Ancestors(nodes, depth, bound, m)
  {
    if m in Visit(nodes, depth, bound, n) {
      VisitedBelow(nodes, depth, bound, n, m);
    }
    if m in nodes && n in Ancestors(nodes, depth, bound, m) {
      BelowVisited(nodes, depth, bound, n, m);
    }
  }

  // ---------------------------------------------------------- list helpers

  /** The index of x in s, or |s| when x is absent. */
  function IndexOf(s: seq<NodeId>, x: NodeId): (i: nat)
    ensures i <= |s| && (i < |s| <==> x in s)
    ensures i < |s| ==> s[i] == x
    ensures forall j :: 0 <= j < i ==> s[j] != x
  {
    if s == [] then 0 else if s[0] == x then 0 else 1 + IndexOf(s[1..], x)
  }

  /** list_del(s, i). */
  function Without(s: seq<NodeId>, i: nat): seq<NodeId>
    requires i < |s|
  {
    s[..i] + s[i + 1..]
  }

  lemma WithoutMembers(s: seq<NodeId>, i: nat)
    requires i < |s| && NoDup(s)
    ensures NoDup(Without(s, i)) && |Without(s, i)| == |s| - 1
    ensures forall x :: x in Without(s, i) <==> x in s && x != s[i]
  {
    var w := Without(s, i);
    assert forall k :: 0 <= k < |w| ==> w[k] == (if k < i then s[k] else s[k + 1]);
    forall x | x in s && x != s[i]
      ensures x in w
    {
      var k :| 0 <= k < |s| && s[k] == x;
      if k < i {
        assert w[k] == x;
      } else {
        assert w[k - 1] == x;
      }
    }
  }

  lemma NoDupConcat(a: seq<NodeId>, b: seq<NodeId>)
    ensures NoDup(a + b) <==> NoDup(a) && NoDup(b) && forall x :: x in a ==> x !in b
  {
    var ab := a + b;
    assert forall i :: 0 <= i < |a| ==> ab[i] == a[i];
    assert forall i :: 0 <= i < |b| ==> ab[|a| + i] == b[i];
    if NoDup(ab) {
      forall x | x in a
        ensures x !in b
      {
        var i :| 0 <= i < |a| && a[i] == x;
        forall j | 0 <= j < |b|
          ensures b[j] != x
        {
          assert ab[i] != ab[|a| + j];
        }
      }
    }
    if NoDup(a) && NoDup(b) && forall x :: x in a ==> x !in b {
      forall i, j | 0 <= i < j < |ab|
        ensures ab[i] != ab[j]
      {
        if j < |a| {
          assert ab[i] == a[i] && ab[j] == a[j];
        } else if i >= |a| {
          assert ab[i] == b[i - |a|] && ab[j] == b[j - |a|];
        } else {
          assert ab[i] == a[i] && a[i] in a;
          assert ab[j] == b[j - |a|] && b[j - |a|] in b;
        }
      }
    }
  }

  // ------------------------------------------------------------------ removal

  /** remove_child, as seen from the holder: c leaves whichever list holds
      it; a focus that named c moves to the child before it in the children
      list (to the first child when c was the first or was floating), or to
      null when no children remain. */
  function RemoveChild(pn: Node, c: NodeId): (r: Node)
    requires InList(c, pn)
    ensures forall x :: InList(x, r) ==> InList(x, pn)
    ensures |r.children| + |r.floating| + 1 == |pn.children| + |pn.floating|
    ensures pn.focused != Some(c) ==> r.focused == pn.focused
    ensures pn.focused == Some(c) && r.focused.Some? ==> r.focused.value in r.children
  {
    if c in pn.children then
      var i := IndexOf(pn.children, c);
      var kids := Without(pn.children, i);
      pn.(children := kids,
          focused := if pn.focused != Some(c) then pn.focused
                     else if |kids| > 0 then Some(kids[if i > 0 then i - 1 else 0])
                     else None)
    else
      pn.(floating := Without(pn.floating, IndexOf(pn.floating, c)),
          focused := if pn.focused != Some(c) then pn.focused
                     else if |pn.children| > 0 then Some(pn.children[0])
                     else None)
  }

  /** The holder keeps everything but c, and a focus it moves lands on a remaining child. */
  lemma RemoveChildFacts(pn: Node, c: NodeId)
    requires InList(c, pn) && NoDup(pn.children + pn.floating)
    ensures var r := RemoveChild(pn, c);
      r == pn.(children := r.children, floating := r.floating, focused := r.focused) &&
      (forall x :: InList(x, r) <==> InList(x, pn) && x != c) &&
      NoDup(r.children + r.floating) &&
      (forall x :: x in r.children ==> x in pn.children) &&
      (forall x :: x in r.floating ==> x in pn.floating) &&
      (r.focused == pn.focused || r.focused == None || (r.focused.Some? && r.focused.value in r.children))
  {
    NoDupConcat(pn.children, pn.floating);
    var r := RemoveChild(pn, c);
    if c in pn.children {
      WithoutMembers(pn.children, IndexOf(pn.children, c));
    } else {
      WithoutMembers(pn.floating, IndexOf(pn.floating, c));
    }
    NoDupConcat(r.children, r.floating);
  }

  /** free_swayc(n): n and every node below it leave the arena, and n's
      parent no longer lists n. */
  function RemoveSubtree(nodes: Arena, ghost depth: Ranks, ghost bound: nat, n: NodeId): (r: Arena)
    requires Ordered(nodes, depth, bound) && Ranked(nodes, depth, bound) && UpLinks(nodes, depth)
    requires n in nodes && n != RootId
    ensures n !in r && r.Keys < nodes.Keys
  {
    Up(nodes, depth, n);
    var p := nodes[n].parent.value;
    var gone := Freed(nodes, depth, bound, n);
    var kept := map m | m in nodes && m !in gone :: nodes[m];
    assert n in gone && p != n && n !in kept && kept.Keys <= nodes.Keys;
    kept[p := RemoveChild(nodes[p], n)]
  }

  /** n and the nodes container_map reaches from it. */
  function Freed(nodes: Arena, ghost depth: Ranks, ghost bound: nat, n: NodeId): set<NodeId>
    requires Ordered(nodes, depth, bound) && Ranked(nodes, depth, bound) && UpLinks(nodes, depth) && n in nodes
  {
    {n} + set m | m in Visit(nodes, depth, bound, n)
  }

  /** The removal that free_swayc performs, described by the set of freed
    nodes: it holds n, is closed under the lists, holds the parent of each
    freed node but n, and leaves out n's parent, which alone changes. */
  ghost predicate RemovedBelow(nodes: Arena, n: NodeId, p: NodeId, gone: set<NodeId>, r: Arena) {
    n in nodes && nodes[n].parent == Some(p) && p in nodes && InList(n, nodes[p]) &&
    n in gone && p !in gone &&
    (forall m, c {:trigger InList(c, nodes[m])} :: m in gone && m in nodes && InList(c, nodes[m]) ==> c in gone) &&
    (forall m {:trigger nodes[m]} :: m in gone && m != n && m in nodes && nodes[m].parent.Some? ==> nodes[m].parent.value in gone) &&
    r.Keys == nodes.Keys - gone &&
    r[p] == RemoveChild(nodes[p], n) &&
    (forall m :: m in r && m != p ==> r[m] == nodes[m])
  }

  lemma RemoveSubtreeIsRemovedBelow(nodes: Arena, depth: Ranks, bound: nat, n: NodeId)
    requires Linked(nodes, depth, bound) && KindsOk(nodes) && n in nodes && n != RootId
    ensures nodes[n].parent.Some?
    ensures RemovedBelow(nodes, n, nodes[n].parent.value, Freed(nodes, depth, bound, n), RemoveSubtree(nodes, depth, bound, n))
  {
    Up(nodes, depth, n);
    var p := nodes[n].parent.value;
    var gone := Freed(nodes, depth, bound, n);
    forall m, c {:trigger InList(c, nodes[m])} | m in gone && m in nodes && InList(c, nodes[m])
      ensures c in gone
    {
      if m == n {
        MemberVisited(nodes, depth, bound, n, c);
      } else {
        VisitClosed(nodes, depth, bound, n, m, c);
      }
    }
    forall m | m in gone && m != n && m in nodes && nodes[m].parent.Some?
      ensures nodes[m].parent.value in gone
    {
      Up(nodes, depth, m);
      var q := nodes[m].parent.value;
      VisitedBelow(nodes, depth, bound, n, m);
      AncestorsOfMember(nodes, depth, bound, q, m);
      if q != n {
        BelowVisited(nodes, depth, bound, n, q);
      }
    }
    assert p !in gone by {
      if p in Visit(nodes, depth, bound, n) {
        VisitedBelow(nodes, depth, bound, n, p);
        AncestorsShallower(nodes, depth, bound, p);
      }
    }
  }

  /** A surviving node keeps its parent, and its parent survives. */
  lemma SurvivorParent(nodes: Arena, depth: Ranks, bound: nat, n: NodeId, p: NodeId, gone: set<NodeId>, r: Arena, c: NodeId)
    requires Linked(nodes, depth, bound) && RemovedBelow(nodes, n, p, gone, r) && c in r
    ensures c in nodes && r[c].parent == nodes[c].parent && r[c].kind == nodes[c].kind
    ensures UpLink(nodes, depth, c)
    ensures r[c].parent.Some? ==> r[c].parent.value in r
  {
    Up(nodes, depth, c);
    if nodes[c].parent.Some? {
      var q := nodes[c].parent.value;
      assert InList(c, nodes[q]);
    }
  }

  /** A node a survivor lists survives. */
  lemma SurvivorListed(nodes: Arena, depth: Ranks, bound: nat, n: NodeId, p: NodeId, gone: set<NodeId>, r: Arena, id: NodeId, c: NodeId)
    requires Linked(nodes, depth, bound) && Distinct(nodes)
    requires RemovedBelow(nodes, n, p, gone, r) && id in r && InList(c, r[id])
    ensures InList(c, nodes[id]) && c != n && c in r
  {
    if id == p {
      RemoveChildFacts(nodes[p], n);
    }
    assert nodes[c].parent == Some(id);
  }

  /** A link from a survivor to a node it lists survives the removal. */
  lemma SurvivorLink(nodes: Arena, depth: Ranks, bound: nat, n: NodeId, p: NodeId, gone: set<NodeId>, r: Arena, id: NodeId, c: NodeId)
    requires Linked(nodes, depth, bound) && Distinct(nodes) && RemovedBelow(nodes, n, p, gone, r)
    requires id in r && InList(c, r[id])
    ensures c in r && r[c].parent == Some(id) && id in depth && c in depth && depth[id] < depth[c] < bound
  {
    SurvivorListed(nodes, depth, bound, n, p, gone, r, id, c);
    SurvivorParent(nodes, depth, bound, n, p, gone, r, c);
  }

  lemma RemovedOrdered(nodes: Arena, depth: Ranks, bound: nat, n: NodeId, p: NodeId, gone: set<NodeId>, r: Arena)
    requires Linked(nodes, depth, bound) && Distinct(nodes) && RemovedBelow(nodes, n, p, gone, r)
    ensures Ordered(r, depth, bound) && BackLinks(r)
  {
    forall id, c {:trigger InList(c, r[id])} | id in r && InList(c, r[id])
      ensures c in r && r[c].parent == Some(id) && id in depth && c in depth && depth[id] < depth[c] < bound
    {
      SurvivorLink(nodes, depth, bound, n, p, gone, r, id, c);
    }
  }

  lemma RemovedUpLinks(nodes: Arena, depth: Ranks, bound: nat, n: NodeId, p: NodeId, gone: set<NodeId>, r: Arena)
    requires Linked(nodes, depth, bound) && Distinct(nodes) && RemovedBelow(nodes, n, p, gone, r)
    ensures UpLinks(r, depth)
  {
    RemoveChildFacts(nodes[p], n);
    forall c | Live(r, c)
      ensures UpLink(r, depth, c)
    {
      SurvivorParent(nodes, depth, bound, n, p, gone, r, c);
    }
  }

  lemma RemoveSubtreeLinked(nodes: Arena, depth: Ranks, bound: nat, n: NodeId, p: NodeId, gone: set<NodeId>, r: Arena)
    requires Linked(nodes, depth, bound) && Distinct(nodes)
    requires RootId !in gone && RemovedBelow(nodes, n, p, gone, r)
    ensures Linked(r, depth, bound)
  {
    SurvivorParent(nodes, depth, bound, n, p, gone, r, RootId);
    RemovedOrdered(nodes, depth, bound, n, p, gone, r);
    RemovedUpLinks(nodes, depth, bound, n, p, gone, r);
  }

  lemma RemoveSubtreeKeepsRest(nodes: Arena, depth: Ranks, bound: nat, nextId: NodeId, n: NodeId, p: NodeId, gone: set<NodeId>, r: Arena)
    requires WellFormed(nodes, depth, bound, nextId) && RemovedBelow(nodes, n, p, gone, r)
    ensures Distinct(r) && KindsOk(r) && FocusDeeper(r, depth) && IdsBelow(r, nextId)
  {
    RemoveChildFacts(nodes[p], n);
    forall id | id in r
      ensures NoDup(r[id].children + r[id].floating)
      ensures r[id].kind != Workspace ==> r[id].floating == []
      ensures r[id].kind == View ==> r[id].children == []
      ensures r[id].focused.Some? ==> r[id].focused.value < nextId
    {
      if id == p && r[p].focused != nodes[p].focused && r[p].focused.Some? {
        assert InList(r[p].focused.value, nodes[p]);
      }
    }
    forall id | Live(r, id)
      ensures FocusLink(r, depth, id)
    {
      Focus(nodes, depth, id);
      if id == p && r[p].focused != nodes[p].focused && r[p].focused.Some? {
        assert InList(r[p].focused.value, nodes[p]);
      }
    }
  }

  /** The freed set is n and the nodes below it. */
  lemma FreedIsBelow(nodes: Arena, depth: Ranks, bound: nat, n: NodeId, m: NodeId)
    requires Linked(nodes, depth, bound) && KindsOk(nodes) && n in nodes
    ensures m in Freed(nodes, depth, bound, n) <==> m in nodes && (m == n || n in Ancestors(nodes, depth, bound, m))
  {
    VisitIsSubtree(nodes, depth, bound, n, m);
  }

  /** Freeing a subtree frees exactly n and the nodes below it, changes only
      n's parent, and keeps the arena well formed. */
  lemma RemoveSubtreeWellFormed(nodes: Arena, depth: Ranks, bound: nat, nextId: NodeId, n: NodeId)
    requires WellFormed(nodes, depth, bound, nextId) && n in nodes && n != RootId
    ensures nodes[n].parent.Some? && nodes[n].parent.value in nodes && InList(n, nodes[nodes[n].parent.value])
    ensures WellFormed(RemoveSubtree(nodes, depth, bound, n), depth, bound, nextId)
    ensures forall m {:trigger m in RemoveSubtree(nodes, depth, bound, n)} ::
      m in RemoveSubtree(nodes, depth, bound, n) <==> m in nodes && m != n && n !in Ancestors(nodes, depth, bound, m)
    ensures var p := nodes[n].parent.value; var r := RemoveSubtree(nodes, depth, bound, n);
      p in r && r[p] == RemoveChild(nodes[p], n) &&
      (forall m :: m in r && m != p ==> r[m] == nodes[m])
  {
    Up(nodes, depth, n);
    var p := nodes[n].parent.value;
    var r := RemoveSubtree(nodes, depth, bound, n);
    var gone := Freed(nodes, depth, bound, n);
    RemoveSubtreeIsRemovedBelow(nodes, depth, bound, n);
    FreedIsBelow(nodes, depth, bound, n, RootId);
    AncestorsReachRoot(nodes, depth, bound, RootId);
    RemoveSubtreeLinked(nodes, depth, bound, n, p, gone, r);
    RemoveSubtreeKeepsRest(nodes, depth, bound, nextId, n, p, gone, r);
    forall m
      ensures m in r <==> m in nodes && m != n && n !in Ancestors(nodes, depth, bound, m)
    {
      FreedIsBelow(nodes, depth, bound, n, m);
    }
  }

  /** A node that lists nothing is nobody's ancestor. */
  lemma {:induction false} NoDescendants(nodes: Arena, depth: Ranks, bound: nat, n: NodeId, m: NodeId)
    requires Ranked(nodes, depth, bound) && UpLinks(nodes, depth) && n in nodes && m in nodes
    requires nodes[n].children == [] && nodes[n].floating == []
    ensures n !in Ancestors(nodes, depth, bound, m)
    decreases depth[m]
  {
    Up(nodes, depth, m);
    if nodes[m].parent.Some? {
      NoDescendants(nodes, depth, bound, n, nodes[m].parent.value);
    }
  }

  /** Freeing a node that lists nothing removes that node alone. */
  lemma RemoveLeaf(nodes: Arena, depth: Ranks, bound: nat, nextId: NodeId, n: NodeId)
    requires WellFormed(nodes, depth, bound, nextId) && n in nodes && n != RootId
    requires nodes[n].children == [] && nodes[n].floating == []
    ensures RemoveSubtree(nodes, depth, bound, n).Keys == nodes.Keys - {n}
  {
    RemoveSubtreeWellFormed(nodes, depth, bound, nextId, n);
    var r := RemoveSubtree(nodes, depth, bound, n);
    forall m | m in nodes && m != n
      ensures m in r
    {
      NoDescendants(nodes, depth, bound, n, m);
    }
  }

  /** The nodes that survive a removal keep their ancestors. */
  lemma {:induction false} AncestorsAfterRemoval(nodes: Arena, depth: Ranks, bound: nat, nextId: NodeId, n: NodeId, m: NodeId)
    requires WellFormed(nodes, depth, bound, nextId) && n in nodes && n != RootId
    requires m in nodes && m in RemoveSubtree(nodes, depth, bound, n)
    ensures Linked(RemoveSubtree(nodes, depth, bound, n), depth, bound)
    ensures Ancestors(RemoveSubtree(nodes, depth, bound, n), depth, bound, m) == Ancestors(nodes, depth, bound, m)
    decreases depth[m]
  {
    RemoveSubtreeWellFormed(nodes, depth, bound, nextId, n);
    var r := RemoveSubtree(nodes, depth, bound, n);
    var p := nodes[n].parent.value;
    RemoveChildFacts(nodes[p], n);
    assert r[m].parent == nodes[m].parent;
    Up(r, depth, m);
    if r[m].parent.Some? {
      AncestorsAfterRemoval(nodes, depth, bound, nextId, n, r[m].parent.value);
    }
  }
}
