/** The values of the window manager's container tree: node kinds, layouts,
    the node record, the configuration the lifecycle operations read, the
    backend commands they issue, and the two pieces of C arithmetic and string
    comparison they depend on. */
module TreeTypes {
  import opened Common

  /** Nodes live in an arena and refer to each other by id. */
  type NodeId = nat

  /** The id of root_container. */
  const RootId: NodeId := 0

  /** enum swayc_types. */
  datatype NodeType = Root | Output | Workspace | Container | View

  /** enum swayc_layouts. */
  datatype Layout = LayoutNone | Horizontal | Vertical | Stacked | Tabbed

  /** swayc_t. A list that the C leaves NULL (children of a view, floating of
      anything but a workspace) is the empty sequence here. */
  datatype Node = Node(
    kind: NodeType,
    handle: int,
    name: Option<string>,
    x: int, y: int, width: int, height: int,
    desiredWidth: int, desiredHeight: int,
    layout: Layout,
    gaps: int,
    visible: bool,
    isFocused: bool,
    isFloating: bool,
    parent: Option<NodeId>,
    children: seq<NodeId>,
    floating: seq<NodeId>,
    focused: Option<NodeId>)

  /** new_swayc: a zero-filled node of the given kind with handle -1 and no layout. */
  function NewSwayc(kind: NodeType): (n: Node)
    ensures n.kind == kind && n.handle == -1 && n.layout == LayoutNone
    ensures n.name.None? && n.parent.None? && n.focused.None?
    ensures n.children == [] && n.floating == []
    ensures n.x == 0 && n.y == 0 && n.width == 0 && n.height == 0
    ensures n.desiredWidth == 0 && n.desiredHeight == 0 && n.gaps == 0
    ensures !n.visible && !n.isFocused && !n.isFloating
  {
    Node(kind, -1, None, 0, 0, 0, 0, 0, 0, LayoutNone, 0, false, false, false, None, [], [], None)
  }

  /** struct output_config; -1 in a size or position field means "not configured". */
  datatype OutputConfig = OutputConfig(name: string, enabled: bool, width: int, height: int, x: int, y: int)

  /** struct workspace_output: the workspace an output starts with. */
  datatype WorkspaceOutput = WorkspaceOutput(output: string, workspace: string)

  /** The parts of the global config the tree operations read. */
  datatype Config = Config(
    outputConfigs: seq<OutputConfig>,
    workspaceOutputs: seq<WorkspaceOutput>,
    gapsInner: int,
    gapsOuter: int)

  /** A command sent to the compositor backend. */
  datatype Command =
    | SetResolution(output: int, width: int, height: int)
    | SetViewOutput(view: int, output: int)
    | SetMask(view: int, visible: bool)
    | BringToFront(view: int)
    | SendToBack(view: int)

  /** tolower on an ASCII character, as strcasecmp compares. */
  function Lower(c: char): char {
    if 'A' <= c <= 'Z' then (c as int + 32) as char else c
  }

  /** strcasecmp(a, b) == 0. */
  predicate SameIgnoringCase(a: string, b: string) {
    |a| == |b| && forall i :: 0 <= i < |a| ==> Lower(a[i]) == Lower(b[i])
  }

  lemma SameIgnoringCaseIsEquivalence(a: string, b: string, c: string)
    ensures SameIgnoringCase(a, a)
    ensures SameIgnoringCase(a, b) ==> SameIgnoringCase(b, a)
    ensures SameIgnoringCase(a, b) && SameIgnoringCase(b, c) ==> SameIgnoringCase(a, c)
  {
  }

  /** a / 2 on C ints: the quotient is truncated toward zero, unlike
      Dafny's Euclidean division, which rounds toward minus infinity. */
  function CHalf(a: int): (q: int)
    ensures a >= 0 ==> 0 <= 2 * q <= a <= 2 * q + 1
    ensures a < 0 ==> 2 * q - 1 <= a <= 2 * q <= 0
  {
    if a >= 0 then a / 2 else -((-a) / 2)
  }

  /** The two divisions agree on non-negative numbers and differ on odd negative ones. */
  lemma CHalfAgainstEuclid(a: int)
    ensures a >= 0 || a % 2 == 0 ==> CHalf(a) == a / 2
    ensures a < 0 && a % 2 == 1 ==> CHalf(a) == a / 2 + 1
  {
  }
}
