/** Panes of tabs.  The layout of the panes on the screen is not part of the state. */
module Workbench {
  import opened Wrappers

  type Id = string

  /** `content` stands for everything about a tab that moving it does not touch. */
  datatype Tab = Tab(id: Id, tool: string, content: string, previousActive: Option<Id>)

  datatype Pane = Pane(id: Id, tabs: seq<Tab>, activeTabId: Id)

  datatype State = State(panes: seq<Pane>, activePaneId: Option<Id>)

  datatype DropPosition = Before | After | End

  // ---------- lists ----------

  /** The index of the first tab with the id, or the number of tabs. */
  function FindTab(tabs: seq<Tab>, id: Id): (i: nat)
    ensures i <= |tabs|
    ensures i < |tabs| ==> tabs[i].id == id
    ensures forall j | 0 <= j < i :: tabs[j].id != id
  {
    if tabs == [] || tabs[0].id == id then 0 else 1 + FindTab(tabs[1..], id)
  }

  predicate HasTab(tabs: seq<Tab>, id: Id) {
    FindTab(tabs, id) < |tabs|
  }

  function WithoutTab(tabs: seq<Tab>, id: Id): (rest: seq<Tab>) {
    if tabs == [] then []
    else (if tabs[0].id == id then [] else [tabs[0]]) + WithoutTab(tabs[1..], id)
  }

  function FindPane(panes: seq<Pane>, id: Id): (i: nat)
    ensures i <= |panes|
    ensures i < |panes| ==> panes[i].id == id
    ensures forall j | 0 <= j < i :: panes[j].id != id
  {
    if panes == [] || panes[0].id == id then 0 else 1 + FindPane(panes[1..], id)
  }

  predicate HasPane(panes: seq<Pane>, id: Id) {
    FindPane(panes, id) < |panes|
  }

  function WithoutPane(panes: seq<Pane>, id: Id): (rest: seq<Pane>) {
    if panes == [] then []
    else (if panes[0].id == id then [] else [panes[0]]) + WithoutPane(panes[1..], id)
  }

  // ---------- one pane ----------

  /** An optional string counts as given only if it is not empty. */
  predicate Given(id: Option<Id>) {
    id.Some? && id.value != ""
  }

  function FirstTabId(tabs: seq<Tab>): (id: Id) {
    if tabs == [] then "" else tabs[0].id
  }

  function NormalizeTab(tabs: seq<Tab>, tab: Tab): (r: Tab) {
    if Given(tab.previousActive) && tab.previousActive.value != tab.id && HasTab(tabs, tab.previousActive.value)
    then tab
    else tab.(previousActive := None)
  }

  function NormalizeHistory(pane: Pane): (r: Pane)
    ensures |r.tabs| == |pane.tabs|
  {
    Pane(
      pane.id,
      seq(|pane.tabs|, i requires 0 <= i < |pane.tabs| => NormalizeTab(pane.tabs, pane.tabs[i])),
      if HasTab(pane.tabs, pane.activeTabId) then pane.activeTabId else FirstTabId(pane.tabs))
  }

  function Remember(tab: Tab, id: Id, previous: Option<Id>): (r: Tab) {
    if tab.id == id then tab.(previousActive := previous) else tab
  }

  function Activate(pane: Pane, id: Id): (r: Pane) {
    if !HasTab(pane.tabs, id) || pane.activeTabId == id then NormalizeHistory(pane)
    else
      var previous := if HasTab(pane.tabs, pane.activeTabId) then Some(pane.activeTabId) else None;
      NormalizeHistory(Pane(
        pane.id,
        seq(|pane.tabs|, i requires 0 <= i < |pane.tabs| => Remember(pane.tabs[i], id, previous)),
        id))
  }

  function FallbackActive(closing: Option<Tab>, tabs: seq<Tab>): (id: Id) {
    if closing.Some? && Given(closing.value.previousActive) && HasTab(tabs, closing.value.previousActive.value)
    then closing.value.previousActive.value
    else FirstTabId(tabs)
  }

  function InsertTab(tabs: seq<Tab>, tab: Tab, target: Option<Id>, position: DropPosition): (r: seq<Tab>) {
    if position == End || !Given(target) || !HasTab(tabs, target.value) then tabs + [tab]
    else
      var i := FindTab(tabs, target.value);
      var at := if position == Before then i else i + 1;
      tabs[..at] + [tab] + tabs[at..]
  }

  function TabOf(tabs: seq<Tab>, id: Id): (tab: Option<Tab>) {
    if HasTab(tabs, id) then Some(tabs[FindTab(tabs, id)]) else None
  }

  /** The pane after the tab left it. */
  function Release(pane: Pane, id: Id): (r: Pane) {
    var tabs := WithoutTab(pane.tabs, id);
    NormalizeHistory(Pane(
      pane.id, tabs, if pane.activeTabId == id then FallbackActive(TabOf(pane.tabs, id), tabs) else pane.activeTabId))
  }

  function MoveWithin(pane: Pane, id: Id, target: Option<Id>, position: DropPosition): (r: Pane) {
    if target == Some(id) || !HasTab(pane.tabs, id) then pane
    else
      var moving := pane.tabs[FindTab(pane.tabs, id)];
      Activate(pane.(tabs := InsertTab(WithoutTab(pane.tabs, id), moving, target, position)), id)
  }

  function FindTool(tabs: seq<Tab>, tool: string): (i: nat)
    ensures i <= |tabs|
    ensures i < |tabs| ==> tabs[i].tool == tool
    ensures forall j | 0 <= j < i :: tabs[j].tool != tool
  {
    if tabs == [] || tabs[0].tool == tool then 0 else 1 + FindTool(tabs[1..], tool)
  }

  /** What an operation does inside one pane. */
  datatype Edit =
    | Open(tab: Tab)
    | ShowTool(tool: string, created: Tab)
    | Copy(copy: Tab, original: Id)
    | Show(tabId: Id)
    | Close(tabId: Id)
    | Shift(tabId: Id, target: Option<Id>, position: DropPosition)

  function Edited(pane: Pane, edit: Edit): (r: Pane) {
    match edit
    case Open(tab) => Activate(pane.(tabs := pane.tabs + [tab]), tab.id)
    case ShowTool(tool, created) =>
      if FindTool(pane.tabs, tool) < |pane.tabs| then Activate(pane, pane.tabs[FindTool(pane.tabs, tool)].id)
      else Activate(pane.(tabs := pane.tabs + [created]), created.id)
    case Copy(copy, original) => Activate(pane.(tabs := InsertTab(pane.tabs, copy, Some(original), After)), copy.id)
    case Show(tabId) => Activate(pane, tabId)
    case Close(tabId) => if |pane.tabs| <= 1 then pane else Release(pane, tabId)
    case Shift(tabId, target, position) => MoveWithin(pane, tabId, target, position)
  }

  // ---------- the whole state ----------

  function EditPane(panes: seq<Pane>, id: Id, edit: Edit): (r: seq<Pane>)
    ensures |r| == |panes|
  {
    if panes == [] then []
    else [if panes[0].id == id then Edited(panes[0], edit) else panes[0]] + EditPane(panes[1..], id, edit)
  }

  function ActivePane(s: State): (i: nat)
    ensures i <= |s.panes|
  {
    if s.activePaneId.Some? && HasPane(s.panes, s.activePaneId.value) then FindPane(s.panes, s.activePaneId.value) else 0
  }

  function OpenTab(s: State, paneId: Id, tab: Tab): (r: State) {
    State(EditPane(s.panes, paneId, Open(tab)), Some(paneId))
  }

  function OpenTabInActivePane(s: State, tab: Tab): (r: State) {
    if ActivePane(s) == |s.panes| || s.panes[ActivePane(s)].id == "" then s
    else OpenTab(s, s.panes[ActivePane(s)].id, tab)
  }

  /** Shows the first tab of the tool in the active pane, or a new one; `created` is the tab it would make. */
  function SelectTool(s: State, tool: string, created: Tab): (r: State) {
    if ActivePane(s) == |s.panes| || s.panes[ActivePane(s)].id == "" then s
    else
      var id := s.panes[ActivePane(s)].id;
      State(EditPane(s.panes, id, ShowTool(tool, created)), Some(id))
  }

  function FocusPane(s: State, paneId: Id): (r: State) {
    if s.activePaneId == Some(paneId) || !HasPane(s.panes, paneId) then s else s.(activePaneId := Some(paneId))
  }

  function AddPane(s: State, newPane: Id, tab: Tab): (r: State) {
    State(s.panes + [Pane(newPane, [tab], tab.id)], Some(newPane))
  }

  function RemovePane(s: State, paneId: Id): (r: State) {
    if |s.panes| <= 1 then s
    else
      var panes := WithoutPane(s.panes, paneId);
      State(panes,
            if s.activePaneId != Some(paneId) then s.activePaneId
            else if panes == [] then None else Some(panes[0].id))
  }

  /** Once the pane and the tab were found. */
  function DuplicateTab(s: State, paneId: Id, tabId: Id, copy: Tab): (r: State) {
    State(EditPane(s.panes, paneId, Copy(copy, tabId)), Some(paneId))
  }

  function SelectTab(s: State, paneId: Id, tabId: Id): (r: State) {
    State(EditPane(s.panes, paneId, Show(tabId)), Some(paneId))
  }

  function CloseTab(s: State, paneId: Id, tabId: Id): (r: State) {
    s.(panes := EditPane(s.panes, paneId, Close(tabId)))
  }

  /** What a tab that leaves a pane does to it. */
  function Leave(pane: Pane, tabId: Id): (r: seq<Pane>) {
    if WithoutTab(pane.tabs, tabId) == [] then [] else [Release(pane, tabId)]
  }

  function Receive(pane: Pane, tab: Tab, target: Option<Id>, position: DropPosition): (r: Pane) {
    Activate(pane.(tabs := InsertTab(pane.tabs, tab, target, position)), tab.id)
  }

  /** What a move makes of one pane. */
  function MovedPane(pane: Pane, source: Id, tab: Tab, target: Id, targetTab: Option<Id>, position: DropPosition):
      (r: seq<Pane>)
  {
    if pane.id == source then Leave(pane, tab.id)
    else if pane.id == target then [Receive(pane, tab, targetTab, position)]
    else [pane]
  }

  function MoveBetween(panes: seq<Pane>, source: Id, tab: Tab, target: Id, targetTab: Option<Id>, position: DropPosition):
      (r: seq<Pane>)
  {
    if panes == [] then []
    else MovedPane(panes[0], source, tab, target, targetTab, position)
         + MoveBetween(panes[1..], source, tab, target, targetTab, position)
  }

  function MoveOut(panes: seq<Pane>, source: Id, tabId: Id): (r: seq<Pane>)
  {
    if panes == [] then []
    else (if panes[0].id == source then Leave(panes[0], tabId) else [panes[0]]) + MoveOut(panes[1..], source, tabId)
  }

  function MoveTab(s: State, source: Id, tabId: Id, target: Id, targetTab: Option<Id>, position: DropPosition):
      (r: (State, bool))
  {
    var at := FindPane(s.panes, source);
    if at == |s.panes| || !HasPane(s.panes, target) || !HasTab(s.panes[at].tabs, tabId) then (s, false)
    else
      var tab := s.panes[at].tabs[FindTab(s.panes[at].tabs, tabId)];
      var panes :=
        if source == target then EditPane(s.panes, source, Shift(tabId, targetTab, position))
        else MoveBetween(s.panes, source, tab, target, targetTab, position);
      (State(panes, Some(target)), source != target && |s.panes[at].tabs| <= 1)
  }

  datatype MovedToNewPane = MovedToNewPane(newPaneId: Id, sourcePaneRemoved: bool)

  function MoveTabToNewPane(s: State, source: Id, tabId: Id, target: Id, newPane: Id):
      (r: (State, Option<MovedToNewPane>))
  {
    var at := FindPane(s.panes, source);
    if at == |s.panes| || !HasTab(s.panes[at].tabs, tabId) || (source == target && |s.panes[at].tabs| <= 1) then (s, None)
    else
      var tab := s.panes[at].tabs[FindTab(s.panes[at].tabs, tabId)];
      (State(MoveOut(s.panes, source, tabId) + [Pane(newPane, [tab.(previousActive := None)], tabId)], Some(newPane)),
       Some(MovedToNewPane(newPane, |s.panes[at].tabs| <= 1)))
  }
}
