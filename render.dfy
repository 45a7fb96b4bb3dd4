/** Two pure rules of the status bar's renderer: how a workspace button's
    label is derived from the workspace name (an optional leading
    "<digits>:" is stripped) and which colour class the button is drawn in. */
module BarRender {

  /** The bar's record of a workspace, as it arrives over IPC. */
  datatype BarWorkspace = BarWorkspace(num: int, name: string, focused: bool, visible: bool, urgent: bool)

  /** One colour triple of the bar configuration. */
  datatype BoxColors = BoxColors(border: int, background: int, text: int)

  /** The four workspace-button colour triples of the bar configuration. */
  datatype WorkspaceColors = WorkspaceColors(
    focusedWorkspace: BoxColors,
    activeWorkspace: BoxColors,
    inactiveWorkspace: BoxColors,
    urgentWorkspace: BoxColors)

  predicate IsDigit(c: char) { '0' <= c <= '9' }

  /** The number of decimal digits at the start of s. */
  function LeadingDigits(s: string): (k: nat)
    ensures k <= |s|
    ensures forall i :: 0 <= i < k ==> IsDigit(s[i])
    ensures k < |s| ==> !IsDigit(s[k])
  {
    if s == [] || !IsDigit(s[0]) then 0 else 1 + LeadingDigits(s[1..])
  }

  /** The name is one or more digits, a colon, and at least one more character. */
  predicate HasNumberPrefix(s: string) {
    var k := LeadingDigits(s);
    0 < k < |s| - 1 && s[k] == ':'
  }

  /** The label a workspace button shows for name s. */
  function DisplayName(stripNum: bool, s: string): (r: string)
    ensures !stripNum ==> r == s
    ensures r != s ==> 0 < |r| < |s| - 1 && r == s[|s| - |r|..] && s[|s| - |r| - 1] == ':'
  {
    if stripNum && HasNumberPrefix(s) then s[LeadingDigits(s) + 1..] else s
  }

  lemma {:induction false} LeadingDigitsAt(s: string, i: nat)
    requires i <= |s|
    requires forall j :: 0 <= j < i ==> IsDigit(s[j])
    requires i < |s| ==> !IsDigit(s[i])
    ensures LeadingDigits(s) == i
  {
    if i > 0 {
      LeadingDigitsAt(s[1..], i - 1);
    }
  }

  /** handle_workspace_number: scans the leading digits with an index and a
      flag, and stops at the first non-digit. */
  method HandleWorkspaceNumber(stripNum: bool, wsName: string) returns (r: string)
    ensures r == DisplayName(stripNum, wsName)
  {
    var strip := false;
    var i := 0;
    if stripNum {
      var len := |wsName|;
      while i < len
        invariant 0 <= i <= len
        invariant forall j :: 0 <= j < i ==> IsDigit(wsName[j])
        invariant !strip
      {
        if !IsDigit(wsName[i]) {
          LeadingDigitsAt(wsName, i);
          if ':' == wsName[i] && i < len - 1 && i > 0 {
            strip := true;
            i := i + 1;
          }
          break;
        }
        i := i + 1;
      }
      if !strip {
        LeadingDigitsAt(wsName, i);
      }
    }
    if strip {
      r := wsName[i..];
    } else {
      r := wsName;
    }
  }

  /** Without the strip option the name is shown as it is. */
  lemma NoStripIsIdentity(s: string)
    ensures DisplayName(false, s) == s
  {
  }

  /** Stripping happens exactly when the name is <digits>:<rest> with a
      non-empty rest, and it leaves the text after that colon. */
  lemma {:induction false} StripCharacterised(s: string)
    ensures HasNumberPrefix(s) <==>
      exists k :: 0 < k < |s| - 1 && s[k] == ':' && (forall j :: 0 <= j < k ==> IsDigit(s[j]))
    ensures HasNumberPrefix(s) ==>
      forall k :: 0 < k < |s| - 1 && s[k] == ':' && (forall j :: 0 <= j < k ==> IsDigit(s[j])) ==>
        DisplayName(true, s) == s[k + 1..]
  {
    if HasNumberPrefix(s) {
      var k0 := LeadingDigits(s);
      assert 0 < k0 < |s| - 1 && s[k0] == ':' && (forall j :: 0 <= j < k0 ==> IsDigit(s[j]));
      forall k | 0 < k < |s| - 1 && s[k] == ':' && (forall j :: 0 <= j < k ==> IsDigit(s[j]))
        ensures DisplayName(true, s) == s[k + 1..]
      {
        LeadingDigitsAt(s, k);
      }
    }
    if exists k :: 0 < k < |s| - 1 && s[k] == ':' && (forall j :: 0 <= j < k ==> IsDigit(s[j])) {
      var k :| 0 < k < |s| - 1 && s[k] == ':' && (forall j :: 0 <= j < k ==> IsDigit(s[j]));
      LeadingDigitsAt(s, k);
    }
  }

  /** Names the scan leaves alone: a leading colon, a colon that ends the
      name, a name of digits only, and a first non-digit other than a colon. */
  lemma {:induction false} UnstrippedNames(s: string)
    ensures |s| > 0 && s[0] == ':' ==> DisplayName(true, s) == s
    ensures |s| > 0 && s[|s| - 1] == ':' && (forall j :: 0 <= j < |s| - 1 ==> IsDigit(s[j])) ==>
      DisplayName(true, s) == s
    ensures (forall j :: 0 <= j < |s| ==> IsDigit(s[j])) ==> DisplayName(true, s) == s
    ensures (forall k :: 0 <= k < |s| && !IsDigit(s[k]) && (forall j :: 0 <= j < k ==> IsDigit(s[j])) ==> s[k] != ':') ==>
      DisplayName(true, s) == s
  {
    if |s| > 0 && s[0] == ':' {
      LeadingDigitsAt(s, 0);
    }
    if |s| > 0 && s[|s| - 1] == ':' && (forall j :: 0 <= j < |s| - 1 ==> IsDigit(s[j])) {
      LeadingDigitsAt(s, |s| - 1);
    }
    if forall j :: 0 <= j < |s| ==> IsDigit(s[j]) {
      LeadingDigitsAt(s, |s|);
    }
  }

  /** The label is always a suffix of the name, and a stripped label is never empty. */
  lemma DisplayNameIsSuffix(stripNum: bool, s: string)
    ensures var r := DisplayName(stripNum, s);
      |r| <= |s| && r == s[|s| - |r|..]
    ensures DisplayName(stripNum, s) != s ==> |DisplayName(stripNum, s)| > 0
  {
  }

  /** The colour class of a workspace button. */
  datatype ButtonClass = Urgent | Focused | Active | Inactive

  /** The priority order of render_workspace_button: urgent over focused
      over visible; a workspace with none of the three flags is inactive. */
  function ButtonClassOf(ws: BarWorkspace): (c: ButtonClass)
    ensures c == Urgent <==> ws.urgent
    ensures c == Focused <==> !ws.urgent && ws.focused
    ensures c == Active <==> !ws.urgent && !ws.focused && ws.visible
    ensures c == Inactive <==> !ws.urgent && !ws.focused && !ws.visible
  {
    if ws.urgent then Urgent
    else if ws.focused then Focused
    else if ws.visible then Active
    else Inactive
  }

  /** The colour triple render_workspace_button draws the button with. */
  function ButtonColors(colors: WorkspaceColors, ws: BarWorkspace): BoxColors {
    match ButtonClassOf(ws)
    case Urgent => colors.urgentWorkspace
    case Focused => colors.focusedWorkspace
    case Active => colors.activeWorkspace
    case Inactive => colors.inactiveWorkspace
  }

  /** A flag decides the colour whatever the lower-priority flags say. */
  lemma HigherFlagDominates(colors: WorkspaceColors, ws: BarWorkspace, focused: bool, visible: bool)
    ensures ws.urgent ==>
      ButtonColors(colors, ws.(focused := focused, visible := visible)) == colors.urgentWorkspace
    ensures !ws.urgent && ws.focused ==>
      ButtonColors(colors, ws.(visible := visible)) == colors.focusedWorkspace
    ensures ButtonColors(colors, ws.(urgent := false, focused := false, visible := false)) == colors.inactiveWorkspace
  {
  }
}
