# sway container tree, IPC framing and bar labels in Dafny

This project models three parts of an early version of sway, the tiling
Wayland compositor, and proves properties of the model.

- **The container tree** (`sway/container.c`).
  - The tree runs root → outputs → workspaces → containers and views.
  - Each workspace also has a list of floating views.
  - The tree is an arena: a `map<NodeId, Node>` held in the class `ContainerTree.Tree`.
    - Each node records its `parent`, `children`, `floating` and `focused` links by id.
    - The class also holds the allocator for fresh ids and a log of the calls made to the backend (`Command`).
  - Two ghost fields, `depth` and `bound`, rank every node below its parent. Recursive walks terminate on this rank.
  - `TreeShape.WellFormed` is the invariant that every method keeps. It says:
    - parent and child links agree;
    - no node is listed twice;
    - views hold nothing, and only workspaces hold floating views;
    - a focus that names a live node names one ranked below it;
    - every live id is below the allocator.
  - The lifecycle operations are methods.
    - Each states its entire new state as a function of the old one: `AttachChild`, `AttachSibling`, `AttachFloating`, `WrapWorkspace`, `WrapChild`, `RemoveSubtree`, `Collapse` or `Mapped`.
    - Lemmas state what those functions do.
  - The lookups are functions on the arena:
    - the search of `swayc_by_test`;
    - the parent and focus walks;
    - the active output and workspace.
- **The i3 IPC framing** (`common/ipc-client.c`).
  - A 14-byte header: the magic `i3-ipc`, a 32-bit payload length and a 32-bit message type. The words are modelled little-endian.
  - The header encoder of `ipc_single_command`.
  - The decoder and the two receive loops of `ipc_recv_response`. The socket is a `ByteSource` value: the bytes the peer sends, the read offset, and, for each `recv` call, the most bytes that call hands over.
- **Two rules of the status bar renderer** (`swaybar/render.c`):
  - the stripping of a leading `<digits>:` from workspace names;
  - the colour priority of a workspace button.

Where the code and its description differ, the model follows the code.

- **`new_container`'s guard (lines 163-164) is dead for a non-null child.** `!ASSERT_NONNULL(child) && ...` short-circuits, so a floating child is not rejected. `NewContainer` therefore accepts any node. A null child would be dereferenced, so the model requires a node.
- **Floating views are centred with C's truncating division** (lines 259-260): `TreeTypes.CHalf`, not Dafny's Euclidean `/`. The offset is negative when the window is wider or taller than the workspace.
- **The last workspace of an output is never destroyed** (line 302). The child count of the output is tested before emptiness, so this holds even for an empty workspace.
- **`swayc_by_test` and `swayc_by_handle` do not search below floating views** (lines 353-360). They only test them.

Backend queries are parameters:
- the reported resolution and name of an output;
- the title and requested size of a view.

Backend calls are entries appended to the log: `SetResolution`, `SetViewOutput`, `SetMask`, `BringToFront`, `SendToBack`.

The helpers that `container.c` calls but does not define have assumed behaviour. These helpers are `add_child`, `add_sibling`, `replace_child`, `remove_child`, `workspace_by_name` and `workspace_next_name`. The assumed behaviour is written out as functions (`TreeEdit.AddChild`, `TreeEdit.AddSibling`, `TreeEdit.ReplaceChild`, `TreeShape.RemoveChild`, `TreeLookup.WorkspaceByName`). `workspace_next_name`'s value is a parameter.

## Model

| member | source | states |
|---|---|---|
| TreeTypes.NewSwayc | sway/container.c:14-23 | A fresh node has the requested kind, handle -1, no layout, no name, no links, empty lists, zero geometry and gaps, and every flag false. |
| TreeTypes.SameIgnoringCaseIsEquivalence | sway/container.c:66 | The `strcasecmp(...) == 0` test used to match configs is reflexive, symmetric and transitive. |
| TreeTypes.CHalf | sway/container.c:259-260 | C's `a / 2` rounds toward zero. For a >= 0, 2q <= a <= 2q+1. For a < 0, 2q-1 <= a <= 2q <= 0. |
| TreeTypes.CHalfAgainstEuclid | sway/container.c:259-260 | The truncating half equals Dafny's `/ 2` except for negative odd a, where it is one more. |
| TreeShape.AncestorsReachRoot | sway/container.c:382-384 | A node's chain of strict ancestors is empty exactly for the root. Otherwise it ends at the root. |
| TreeShape.Ancestors | sway/container.c:382-384 | Every node on the do-while walk up from a node is live. |
| TreeShape.VisitIsSubtree | sway/container.c:504-522 | `container_map` from n visits exactly the nodes that have n as a strict ancestor. |
| TreeShape.Visit | sway/container.c:504-522 | The visit of `container_map`: the children, each followed by its own visit, then, for a workspace, the floating views in the same way. `VisitIsSubtree` states which nodes it holds. |
| TreeShape.FreedIsBelow | sway/container.c:25-53 | `free_swayc(n)` frees n and exactly the nodes below it. |
| TreeShape.RemoveChildFacts | sway/container.c:46-48 | After `remove_child` the holder lists everything it listed before except c, still without duplicates. A focus it moves lands on a remaining child or on null. |
| TreeShape.RemoveChild | sway/container.c:46-48 | `remove_child` lists one node fewer and nothing new. A focus on another node stays, and a moved focus lands on a remaining child or null. |
| TreeShape.RemoveSubtreeWellFormed | sway/container.c:25-53 | Freeing a subtree keeps the arena well formed. The survivors are the nodes not in the subtree. The parent loses the node through `remove_child`, and every other survivor is unchanged. |
| TreeShape.RemoveSubtree | sway/container.c:25-53 | `free_swayc(n)` leaves a strictly smaller arena without n. `RemoveSubtreeWellFormed` states which nodes survive. |
| TreeShape.RemoveLeaf | sway/container.c:25-53 | Freeing a node with no children and no floating views removes that node alone. |
| TreeShape.AncestorsAfterRemoval | sway/container.c:25-53 | Freeing a subtree does not change any survivor's chain of ancestors. |
| TreeEdit.SiblingSlot | sway/container.c:237 | `add_sibling` inserts right after the sibling, or at the end when the holder does not list it. |
| TreeEdit.AddChildGains | sway/container.c:158 | `add_child` adds exactly the new node to the holder's lists, without duplicates, and moves the focus only onto it. |
| TreeEdit.AddChild | sway/container.c:158 | `add_child` appends exactly c to the children and lists nothing else new. The focus stays, or becomes c when the holder had no children. |
| TreeEdit.AddSiblingGains | sway/container.c:237 | The same holds for `add_sibling`. |
| TreeEdit.AddSibling | sway/container.c:237 | `add_sibling` adds c once to the children, right after s when s is listed. The floating list and the focus are unchanged. |
| TreeEdit.AddFloatingGains | sway/container.c:270-274 | The same holds for the append to a workspace's floating list. |
| TreeEdit.AddFloating | sway/container.c:270-274 | The floating append adds exactly c and leaves the children alone. A set focus stays; otherwise the focus becomes set. |
| TreeEdit.AttachChildWellFormed | sway/container.c:158 | The arena stays well formed when a fresh node becomes the last child of a holder that is not a view. The new node is ranked below its holder. |
| TreeEdit.AttachSiblingWellFormed | sway/container.c:237 | The arena stays well formed when a fresh node is added beside any non-root node, under that node's parent. |
| TreeEdit.AttachFloatingWellFormed | sway/container.c:270-271 | The arena stays well formed when a fresh node is appended to a workspace's floating list with that workspace as parent. |
| TreeEdit.InterposeWellFormed | sway/container.c:162-206 | The arena stays well formed when a fresh container is put between a holder and the nodes it takes over. All ranks are doubled to make room. |
| TreeEdit.WrapWorkspaceWellFormed | sway/container.c:179-198 | The arena stays well formed when a workspace's children move into a fresh container. |
| TreeEdit.WrapWorkspace | sway/container.c:179-198 | The arena gains exactly the container, which holds the workspace's former children under the workspace. Each former child names the container as parent. |
| TreeEdit.WrapChildWellFormed | sway/container.c:199-204 | The arena stays well formed when a fresh container takes a node's slot in its parent and holds the node. |
| TreeEdit.WrapChild | sway/container.c:199-204 | The arena gains exactly the container. The parent lists it, it holds the node alone, and the node names it as parent. |
| TreeEdit.ReplaceMembers | sway/container.c:200 | Replacing one entry of a list without duplicates by a fresh id keeps it without duplicates. The list then holds the old members minus the replaced one, plus the new id. |
| TreeEdit.ReplaceChild | sway/container.c:200 | `replace_child` lists k, keeps both list lengths and lists nothing else new. A focus on c moves to k, and any other focus stays. |
| TreeEdit.SameShapeWellFormed | sway/container.c:524-560 | Changing fields other than the links keeps the arena well formed. |
| TreeLookup.FirstMatchConcat | sway/container.c:361-371 | Searching a concatenation finds in the first part, or else in the second. |
| TreeLookup.ByTest | sway/container.c:347-373 | A node found passes the test and is live. `ByTestIsFirstMatch` shows it is the first in the search order. |
| TreeLookup.ChildrenByTest | sway/container.c:361-371 | A node found by the children loop passes the test and is live. |
| TreeLookup.ByTestIsFirstMatch | sway/container.c:347-373 | `swayc_by_test` returns the first node that passes the test, in its search order: a workspace's floating views, then each child followed by the search below it. It returns null when none passes. |
| TreeLookup.ChildrenByTestIsFirstMatch | sway/container.c:361-371 | The children loop of `swayc_by_test` from index i returns the first match in the search order of children i onward. |
| TreeLookup.SearchFromFirstMatch | sway/container.c:361-371 | The first match from child i on is child i when it passes, else the first match below it, else the first match from child i + 1 on. |
| TreeLookup.ByTestFindsBelow | sway/container.c:347-373 | What `swayc_by_test` finds passes the test and lies strictly below the start node. |
| TreeLookup.ByHandle | sway/container.c:428-461 | `swayc_by_handle` returns a non-root live node with that handle. It returns null only when no node in the search order from the root has it. |
| TreeLookup.ParentOf | sway/container.c:375-399 | An ancestor found is live and has the requested type or layout. `ParentOfIsNearest` shows it is the nearest. |
| TreeLookup.ParentOfIsNearest | sway/container.c:375-399 | `swayc_parent_by_type` and `swayc_parent_by_layout` return the nearest strict ancestor of the requested type or layout, never the start node, or null when no ancestor has it. |
| TreeLookup.FocusChainDeeper | sway/container.c:401-425 | Every node on a focus walk lies strictly deeper than the start, so the walk ends. |
| TreeLookup.FocusOf | sway/container.c:401-425 | A node found on the focus walk is live and has the requested type or layout. |
| TreeLookup.FocusOfIsFirst | sway/container.c:401-425 | `swayc_focus_by_type` and `swayc_focus_by_layout` return the first node on the focus chain of the requested type or layout, never the start node, or null when none has it. |
| TreeLookup.Focused | sway/container.c:463-469 | One focus hop gives the node's live focus, or null when it has none or the focus names a freed node. |
| TreeLookup.ActiveOutput | sway/container.c:463-465 | `swayc_active_output`, when set, is the root's live focus. |
| TreeLookup.ActiveWorkspace | sway/container.c:467-469 | `swayc_active_workspace` is the active output's focus, and is null when there is no active output. |
| TreeLookup.ActiveIsFocusChain | sway/container.c:463-469 | The active output and the active workspace are the first and second nodes of the root's focus chain. Each exists exactly when the chain is that long. |
| TreeLookup.FocusNotRoot | sway/container.c:463-469 | No focus hop leads back to the root. |
| TreeLookup.ActiveWorkspaceForCases | sway/container.c:471-490 | `swayc_active_workspace_for` covers every case. Null gives null. The root gives the active workspace, an output gives one focus hop, and a workspace gives itself. A container or view gives its nearest workspace ancestor. The result is never the root. |
| TreeLookup.ActiveWorkspaceFor | sway/container.c:471-490 | Whatever `swayc_active_workspace_for` returns is a live node. `ActiveWorkspaceForCases` states each case. |
| TreeLookup.WorkspaceByName | sway/container.c:119 | The assumed `workspace_by_name` finds a workspace whose name matches case-insensitively. It returns null only when no node in the search order matches. |
| TreeMap.EffectFacts | sway/container.c:524-560 | Either callback changes no link, kind or handle and is idempotent. The visibility callback sets `visible`. The gaps callback sets an output's gaps to the outer value and a view's to the inner value, and changes nothing else. |
| TreeMap.Effect | sway/container.c:524-560 | A callback changes at most `visible` and `gaps` of the node it is called on. |
| TreeMap.MappedVisibility | sway/container.c:524-540 | Applying the visibility callback to a set of nodes sets `visible` on exactly those nodes. |
| TreeMap.MappedGaps | sway/container.c:550-560 | Applying the gaps callback to a set of nodes resets the gaps of exactly the outputs and views among them. |
| TreeMap.MappedKeepsShape | sway/container.c:504-560 | Applying a callback to any set keeps every link, kind and handle. |
| TreeMap.MappedCompose | sway/container.c:504-522 | Applying a callback to s and then to t is applying it to s ∪ t. |
| TreeMap.Commands | sway/container.c:529-537 | The visibility callback issues three backend calls for a view and none for another node. The gaps callback issues none. |
| TreeMap.CallbackLogConcat | sway/container.c:504-522 | The calls made over two visit sequences in turn are the calls of the first followed by those of the second. |
| TreeMap.PrefixStep | sway/container.c:508-519 | One more list entry extends the visit by that entry followed by everything below it. |
| TreeMap.ViewsUnderOutputPlaced | sway/container.c:530 | When every view below a node has an output above it, every node visited from it meets the callback's precondition. |
| ContainerTree.ConfigIndex | sway/container.c:62-71 | The index of the first output config whose name matches case-insensitively. No earlier config matches. |
| ContainerTree.ConfigFor | sway/container.c:62-71 | The config found matches by name. Null means that no config matches. |
| ContainerTree.NamedConfig | sway/container.c:62-71 | An unnamed output matches no config. A named one gets a config that matches its name, or null when none matches. |
| ContainerTree.MatchOutputConfig | sway/container.c:62-71 | The config loop of `new_output` returns the first case-insensitive match, or null. |
| ContainerTree.RightEdge | sway/container.c:96-107 | The right edge is at least 0 and at least `x + width` of every output listed. It is 0 or equals `x + width` of one of them. |
| ContainerTree.OutputsRightEdge | sway/container.c:96-107 | The position loop of `new_output` computes the right edge of the outputs the root lists. |
| ContainerTree.OutputPlacedRight | sway/container.c:91-107 | An output with no configured position gets y 0 and an x that is no smaller than the right edge of every existing output. That x is 0 or the right edge of one of them. |
| ContainerTree.OutputNode | sway/container.c:77-107 | The output record is detached, of kind output, with the backend's handle and name. A configured size is used when both dimensions are set. Without a configured position it sits at the given edge with y 0. |
| ContainerTree.WorkspaceNode | sway/container.c:147-156 | The workspace record is detached, visible, named as asked, and covers the output's x, y, width and height. |
| ContainerTree.ViewNode | sway/container.c:213-230 | The view record is detached, visible, focused and not floating, with the backend's handle, its title and the inner gap. Its width and height are 0, and its desired size is the size the view reports. |
| ContainerTree.FloatingViewNode | sway/container.c:251-267 | The floating view record is detached, visible and floating, with the backend's handle and its title. Its width and height are the requested size, and so is its desired size. Its centring is stated by `FloatingViewCentred`. |
| ContainerTree.ConfigureOutput | sway/container.c:57-107 | The output is null exactly when its config disables it, and then no resize is requested. Otherwise it is `OutputNode` for the matched config, keeping the backend's name, null included; an unnamed output matches no config. Its size and position are the configured ones when both are set, else the reported size and the right edge. The gaps are `gaps_outer + gaps_inner / 2`, and a configured size requests a resize. |
| ContainerTree.WorkspaceOutputIndex | sway/container.c:114-116 | The index of the first workspace/output pair whose output name matches case-insensitively. |
| ContainerTree.FirstWorkspaceName | sway/container.c:112-131 | The first workspace's name is either the next free name or the workspace of the first `workspace_output` pair matching the output. The first matching pair's workspace is used whenever no existing workspace has that name. Otherwise, and when no pair matches, the next free name is used. |
| ContainerTree.NameFirstWorkspace | sway/container.c:112-131 | The naming loop of `new_output` computes that name. |
| ContainerTree.NameOutputWorkspace | sway/container.c:111-131 | The name is looked up after the output has joined the root. For an unnamed output the search is skipped. |
| ContainerTree.OutputWorkspaceName | sway/container.c:111-131 | An unnamed output skips the `workspace_output` search (line 113) and gets the generated name. Any other name is the workspace of a pair for the output. |
| ContainerTree.OutputAddedFacts | sway/container.c:109-135 | The output becomes the root's last child with one child, the new workspace, which it focuses. The workspace copies the output's geometry. It has layout horizontal, is visible and focused, and has the given name and empty lists. No other node but the root changes. |
| ContainerTree.OutputAddedWellFormed | sway/container.c:109-135 | Adding the output and its workspace keeps the arena well formed. |
| ContainerTree.OutputAdded | sway/container.c:109-135 | The arena gains exactly the output's id and the workspace's id. The workspace is named as asked and marked focused. `OutputAddedFacts` states the rest. |
| ContainerTree.WorkspaceAdded | sway/container.c:142-160 | A new workspace is a child of the output with the output's x, y, width and height. It has layout horizontal, is visible, and has the given name and empty children and floating lists. The output gains it last, and nothing else changes. |
| ContainerTree.FloatingViewCentred | sway/container.c:258-262 | A floating view that fits is centred. Its left margin is at least 0 and is at most 1 smaller than its right margin. A wider view overhangs both sides, and its left overhang is at most 1 smaller than its right one. The same holds vertically. |
| ContainerTree.ViewAddedToWorkspace | sway/container.c:232-234 | A view added to a workspace becomes its last child with the workspace as parent, and becomes the focus if the workspace had no children. The floating list and all other nodes are unchanged. |
| ContainerTree.ViewAddedBeside | sway/container.c:235-238 | A view added beside s lands right after s in their parent's children, with that parent as its own. The parent's floating list and focus are kept, and all other nodes are unchanged. |
| ContainerTree.FloatingViewAdded | sway/container.c:269-274 | A floating view is appended to the workspace's floating list, not its children, with the workspace as parent. It takes the focus only when the workspace had none, and all other nodes are unchanged. |
| ContainerTree.OutputGuard | sway/container.c:300-304 | A workspace that passes the guard and whose parent is an output shares that output with at least one other child. |
| ContainerTree.WorkspaceKept | sway/container.c:300-313 | The guards of `destroy_workspace`: the nearest output above has exactly one child, or the workspace holds a tiled or floating node. `Tree.DestroyWorkspace` returns null with nothing changed when they hold, and otherwise frees the workspace. |
| ContainerTree.WorkspaceDestroyed | sway/container.c:292-314 | Destroying a removable workspace removes it alone. Its parent lists everything it listed before except the workspace, and other nodes are unchanged. An output keeps at least one child. |
| ContainerTree.CollapseStep | sway/container.c:320-325 | One turn of `destroy_container`'s loop frees only the empty container. Its parent survives with its kind and ancestors, and no other node changes. |
| ContainerTree.Collapse | sway/container.c:320-325 | The loop stops at a live node that is not an empty container, and no node is added to the arena. `CollapseFacts` states what it frees. |
| ContainerTree.CollapseFacts | sway/container.c:316-327 | `destroy_container` stops at the start node or an ancestor that is not an empty container. It frees only containers on the way up, so never a workspace. It changes no survivor other than where it stops, and it keeps the arena well formed. |
| ContainerTree.WrapWorkspaceFacts | sway/container.c:178-198 | Around a workspace the container takes all of its children, which get the container as parent. The container also takes the workspace's focus, layout, geometry and visibility. The workspace's children become exactly `[cont]`, the container becomes its focus, and the workspace takes the requested layout. No other node changes. |
| ContainerTree.WrapChildFacts | sway/container.c:199-204 | Around another node the container takes the node's slot in its parent, and the parent's focus follows it. The container holds and focuses the node, has the requested layout, and copies the node's geometry and visibility. No other node changes. |
| ContainerTree.ReparentAll | sway/container.c:186-188 | The loop gives every former child of the workspace the container as parent. |
| ContainerTree.WorkspaceWrapped | sway/container.c:178-198 | The fields set and the lists swapped by `new_container` around a workspace give exactly `WrapWorkspace`. |
| ContainerTree.Tree.constructor | sway/container.c:14-23 | The tree starts as a lone root with no children. |
| ContainerTree.Tree.FreeSwayc | sway/container.c:25-53 | `free_swayc` removes the node's subtree, and the tree stays well formed. |
| ContainerTree.Tree.NewWorkspace | sway/container.c:142-160 | A null output gives null and changes nothing. Otherwise a fresh workspace, as in `WorkspaceAdded`, becomes the output's last child. |
| ContainerTree.Tree.WrapWorkspaceChildren | sway/container.c:178-198 | The workspace branch of `new_container` leaves the tree equal to `WrapWorkspace` and well formed. |
| ContainerTree.Tree.WrapInParent | sway/container.c:199-204 | The other branch: the node has a parent that lists it, and the tree becomes `WrapChild`. |
| ContainerTree.Tree.NewContainer | sway/container.c:162-206 | A workspace gets its children wrapped. For the root, which has no parent, the id is used up and the tree is unchanged. Any other node, floating or not, gets a container in its slot. |
| ContainerTree.Tree.NewView | sway/container.c:208-240 | A null sibling gives null and changes nothing. A workspace sibling takes the view as its child, and any other sibling gets the view beside it under its parent. The view is `ViewNode`. |
| ContainerTree.Tree.NewFloatingView | sway/container.c:242-276 | With no active workspace the result is null and nothing changes. Otherwise the `FloatingViewNode` is added to the active workspace's floating list. |
| ContainerTree.Tree.DestroyOutput | sway/container.c:280-290 | Destroying an output frees its subtree and returns the root. |
| ContainerTree.Tree.DestroyWorkspace | sway/container.c:292-314 | For a workspace other than the root: the result is null and nothing changes when the output above has exactly one child, or when the workspace has children or floating views. Otherwise the workspace is freed and its former parent returned. |
| ContainerTree.Tree.DestroyContainer | sway/container.c:316-327 | For a node that is not a view, the loop leaves the tree and the returned node equal to `Collapse` from the start node. |
| ContainerTree.Tree.DestroyView | sway/container.c:329-342 | The view is freed. When its former parent is a container, empty containers collapse upward from the parent. Otherwise the parent itself is returned. |
| ContainerTree.Tree.SetViewVisibility | sway/container.c:524-540 | The node's `visible` becomes the argument, and nothing else changes. A view also logs, in order: move to the output above, set mask, then bring to front or send to back. |
| ContainerTree.Tree.ResetGaps | sway/container.c:550-560 | An output's gaps become the outer gaps and a view's the inner gaps. Any other node is unchanged. |
| ContainerTree.Tree.ApplyCallback | sway/container.c:510-517 | Calling the callback on one node applies its `Effect` to that node and logs its `Commands`. |
| ContainerTree.Tree.MapEntry | sway/container.c:508-519 | One turn of a `container_map` loop: the callback on entry i, then the map below it. |
| ContainerTree.Tree.MapList | sway/container.c:507-520 | One `container_map` loop over a list reaches its whole visit prefix. |
| ContainerTree.Tree.ContainerMap | sway/container.c:504-522 | `container_map` applies the callback to exactly the nodes below the start node. The log gains the callback's calls in visiting order: each child, then its subtree, and for a workspace then each floating view. |
| ContainerTree.Tree.UpdateVisibility | sway/container.c:542-548 | Every node below the active workspace for the container gets `visible` set to whether the workspace's parent focuses it. The backend calls are logged in visiting order. |
| ContainerTree.Tree.AddOutput | sway/container.c:109-139 | The output joins the root with its first workspace, which is marked focused, and the tree stays well formed. The given backend calls, the resize if any, are appended to the log. |
| ContainerTree.Tree.NewOutput | sway/container.c:57-140 | The result is null, with nothing changed, exactly when the config disables the output. Otherwise the `ConfigureOutput` record joins the root with a first workspace named as `OutputWorkspaceName` says, and a configured size logs one resize. An unnamed output gets no config and the generated workspace name. |
| IpcClient.HeaderSizeIs14 | common/ipc-client.c:15-16 | The magic is `i`,`3`,`-`,`i`,`p`,`c` and the header is 14 bytes. |
| IpcClient.WordBytes | common/ipc-client.c:83-84 | A 32-bit word is stored as four bytes. `WordBytesRoundTrip` shows they read back as the word. |
| IpcClient.WordAt | common/ipc-client.c:58-59 | A `data32` read of four bytes, least significant first. `WordAtRoundTrip` shows writing it back gives the bytes. |
| IpcClient.WordBytesRoundTrip | common/ipc-client.c:83-84 | Reading back a written 32-bit word gives the word. |
| IpcClient.WordAtRoundTrip | common/ipc-client.c:58-59 | Writing back any four bytes read as a word gives those bytes. |
| IpcClient.EncodeHeader | common/ipc-client.c:80-84 | The header is 14 bytes. |
| IpcClient.HeaderLayout | common/ipc-client.c:80-84 | The magic is at bytes 0..5, the length at 6..9 and the type at 10..13. |
| IpcClient.DecodeEncode | common/ipc-client.c:58-59 | Decoding an encoded header gives its length and type. |
| IpcClient.DecodeHeader | common/ipc-client.c:58-59 | The length and type are the words at bytes 6 and 10; the magic is not read. `DecodeEncode`, `EncodeDecode` and `MagicNotChecked` state its properties. |
| IpcClient.EncodeDecode | common/ipc-client.c:45-59 | Any 14 bytes that start with the magic are the encoding of what they decode to. |
| IpcClient.MagicNotChecked | common/ipc-client.c:45-59 | Headers that differ only in bytes 0..5 decode alike: the magic is never checked. |
| IpcClient.Recv | common/ipc-client.c:49-50 | One `recv` either fails or takes between 1 and the requested count of the pending bytes from the front. It succeeds exactly when the call has a non-negative grant and bytes are pending. |
| IpcClient.Pull | common/ipc-client.c:48-54 | A successful receive loop for n bytes moves the read offset by exactly n. |
| IpcClient.PullSucceeds | common/ipc-client.c:48-54 | When n bytes are pending and enough calls succeed, the loop completes. |
| IpcClient.PullFailsOnError | common/ipc-client.c:50-52 | A negative return or an exhausted stream aborts the loop. |
| IpcClient.ArrivesAfterHeader | common/ipc-client.c:56-67 | After the header has arrived, the whole response arrives exactly when the payload loop completes. |
| IpcClient.RecvInto | common/ipc-client.c:47-54 | A receive loop succeeds exactly when `Pull` does. Then `buf[0..n-1]` holds the next n stream bytes, the source is left where `Pull` leaves it, and the bytes past n are untouched. |
| IpcClient.RecvPayload | common/ipc-client.c:56-69 | The payload returned is the next `size` stream bytes followed by a NUL, which is what the size+1-byte buffer holds. The response records the declared size and type. |
| IpcClient.RecvResponse | common/ipc-client.c:43-72 | A response is returned exactly when header and payload both arrive, and it is the response those bytes encode. |
| IpcClient.StoreWord | common/ipc-client.c:83-84 | `data32[i] = w` writes `WordBytes(w)` at its offset and nothing else. |
| IpcClient.SingleCommand | common/ipc-client.c:79-100 | The bytes sent are the encoded header followed by the first `*len` payload bytes. The response payload is returned and `*len` is set to the response's declared size. |
| IpcClient.PayloadAllocSize | common/ipc-client.c:60 | As written: `malloc(size + 1)` in 32-bit unsigned arithmetic is size+1 below the largest size. |
| IpcClient.PayloadAllocWraps | common/ipc-client.c:60-68 | For size 0xFFFFFFFF the allocation is 0 bytes. Index size is then not below the allocation, so the NUL store at that index is out of bounds. |
| BarRender.LeadingDigits | swaybar/render.c:181-182 | The count of leading decimal digits: all chars before it are digits, and the one at it is not. |
| BarRender.HandleWorkspaceNumber | swaybar/render.c:175-197 | The index-and-flag loop returns `DisplayName`. |
| BarRender.NoStripIsIdentity | swaybar/render.c:179-196 | With `strip_num` false the label is the name. |
| BarRender.StripCharacterised | swaybar/render.c:180-193 | Stripping happens exactly for one or more digits, a colon, then at least one more character. The label is then the text after that colon. |
| BarRender.UnstrippedNames | swaybar/render.c:181-188 | These names are kept whole: a leading colon, a colon as the last character after digits, all digits, or a first non-digit that is not a colon. |
| BarRender.DisplayNameIsSuffix | swaybar/render.c:183-196 | The label is a suffix of the name, and it is non-empty whenever stripping happened. |
| BarRender.DisplayName | swaybar/render.c:175-197 | Without `strip_num` the label is the name. A stripped label is a non-empty suffix that follows a colon and is at least two characters shorter than the name. |
| BarRender.ButtonClassOf | swaybar/render.c:205-214 | The class is urgent iff urgent. It is focused iff focused and not urgent, active iff visible and neither of those, and inactive otherwise. |
| BarRender.ButtonColors | swaybar/render.c:205-214 | The colours are those of the button's class. `HigherFlagDominates` states which flag decides them. |
| BarRender.HigherFlagDominates | swaybar/render.c:206-214 | Urgent wins whatever the other flags, focused wins over visible, and no flags gives the inactive colours. |

## Left out

- **Backend:** `wlc_*` queries and calls, and `sway_log`. Queries are parameters, and calls are log entries with no modelled effect.
- **Memory:**
  - `free_swayc` is modelled as removing the node's subtree from the arena.
  - Its index loop over `floating` while `remove_child` shrinks the list (lines 40-42) is not reproduced. That loop would skip every second floating view.
  - `destroy_view` reads `parent->type` (line 338) after `free_swayc(view)`, which frees the view and the nodes below it but never the parent. The model reads the parent the same way.
- **`set_focused_container_for`** (lines 198 and 273). Its code is not part of this model.
  - At line 273 it is taken to set the workspace's focus to the view.
  - At line 198 it is taken to leave the focus links as lines 182-183 set them.
  - Neither call changes the `is_focused` flags here.
- **`swayc_is_fullscreen`, `swayc_is_active`:** pure queries of backend state.
- **`destroy_output (lines 284-286)`:** it does not move workspaces to other outputs, since the source leaves that as a TODO.
- **Input validation of the walks:** the range asserts on the type and layout in the walks (lines 379 and 392) cannot fail on the model's enumerations.
- **Dangling focus:** a focus that names a freed node reads as null in the walks. The C would dereference freed memory.
- **Focus links in the invariant:** the invariant does not require a focus to be one of the node's own children. `new_container` can copy a floating focus, and `destroy_view` can leave a focus naming a freed node. It requires only that a live focus is ranked below the node.
- **IPC I/O:**
  - `get_socketpath` and `ipc_open_socket` (popen, socket, connect) are not modelled.
  - The `write` calls appear only as the bytes `SingleCommand` sends.
  - `sway_abort` is a `None` result.
- **IPC endianness:** words are 4-byte little-endian, not native order.
- TreeLookup.ByTest: the test callback is a Dafny function of the node, not a C callback taking `void *data`. Only structural, handle and name tests are modelled.
- IpcClient.RecvInto: a `recv` that returns 0 forever (peer closed) would spin in the C. Here a source with nothing left pending makes the call fail.
- ContainerTree.Tree.NewWorkspace: requires an output that is not a view. A view has no children list, so `add_child` would crash.
- ContainerTree.Tree.NewContainer: requires a node. A null child is dereferenced by the guard at line 164.
- ContainerTree.Tree.NewView: requires the sibling not to be the root, which has no parent for `add_sibling`.
- ContainerTree.Tree.NewFloatingView: requires the active workspace, when there is one, to be a workspace node. The invariant does not fix the kinds along the focus chain.
- ContainerTree.Tree.DestroyOutput, ContainerTree.Tree.DestroyView: require a node other than the root. The root is a static object and is never freed.
- ContainerTree.Tree.DestroyWorkspace: requires a workspace, which also rules out the root. For the root, no output lies above it, so the C goes on to the emptiness test (lines 301-307). It returns null for a root that has children. For a childless root it reads `root_container.floating`, which no code in this model creates, so it dereferences null unless code not shown created that list. Only a workspace has both a children list and a floating list (lines 19-21 and 156). Another node that passes the output guard makes the C read a null list at line 307: a view's children, or the floating list of a childless node of any other kind.
- ContainerTree.Tree.DestroyContainer: requires a node other than a view. A view has no children list, so the loop test at line 320 dereferences null. `destroy_view` calls it only on a container.
- ContainerTree.Tree.NewContainer: for the root, `replace_child` finds no parent (line 200). The C then returns a live container outside the tree, with the root's geometry and the requested layout. The model only uses up the fresh id, so the id it returns names no node of the arena.
- ContainerTree.Tree.NewOutput, ContainerTree.ConfigureOutput: an unnamed output matches no output config. The C's config loop (lines 62-71) passes the null name to `strcasecmp` whenever output configs exist. That is undefined behaviour, and the model reads it as no match.
- TreeLookup.WorkspaceByName: the code of `workspace_by_name` is not part of this model. It is taken to search from the root for a workspace whose name matches ignoring case. Anything else the real helper does is not modelled.
- ContainerTree.Tree.SetViewVisibility: requires a view to have an output above it. The C dereferences the result of `swayc_parent_by_type(view, C_OUTPUT)`.
- ContainerTree.Tree.UpdateVisibility: requires an active workspace for the container, and an output above every view under it. The C dereferences `ws->parent` and the output of each view.
- **Swaybar:** everything in `swaybar/render.c` but the two rules. Drawing, geometry in floating point and window sizing are out.
- **Other files:** startup, Wayland plumbing and the bar's main loop (`sway/main.c`, `swaybar/main.c`, `wayland/window.c`) are out. So are declarations other than the workspace flags in `include/bar/bar.h`.
- **Concurrency:** event-loop interleaving is out, since the modelled code is sequential.

## Findings

| source | as written | input that shows it | evidently intended | confidence | as-written member | corrected member |
|---|---|---|---|---|---|---|
| common/ipc-client.c:60 | `malloc(response->size + 1)` with a `uint32_t` size wraps to `malloc(0)`. The payload `recv` at line 62 then already writes into the 0-byte buffer, before `payload[response->size] = '\0'` at line 68 writes past it | a response header declaring size 0xFFFFFFFF | a buffer of size+1 bytes holding the payload and a NUL at index size | not executed | IpcClient.PayloadAllocWraps | IpcClient.RecvPayload |
