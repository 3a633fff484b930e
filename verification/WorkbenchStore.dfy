/** The workbench store: every operation writes the state in one step. */
module WorkbenchStore {
  import opened Wrappers
  import opened Workbench
  import opened WorkbenchLaws
  import opened WorkbenchTheorems
  import opened WorkbenchEffects

  // ---------- the remaining operations ----------

  lemma {:induction false} WithoutPaneTakesNone(panes: seq<Pane>, id: Id)
    requires !HasPane(panes, id)
    ensures WithoutPane(panes, id) == panes
  {
    if panes != [] {
      WithoutPaneTakesNone(panes[1..], id);
    }
  }

  lemma {:induction false} WithoutPaneTakesOne(panes: seq<Pane>, id: Id)
    requires DistinctPanes(panes) && HasPane(panes, id)
    ensures
      var i := FindPane(panes, id);
      WithoutPane(panes, id) == panes[..i] + panes[i + 1..]
  {
    if panes[0].id == id {
      WithoutPaneTakesNone(panes[1..], id);
      assert [] + panes[1..] == panes[1..];
    } else {
      WithoutPaneTakesOne(panes[1..], id);
      var i := FindPane(panes[1..], id);
      assert [panes[0]] + (panes[1..][..i] + panes[1..][i + 1..]) == panes[..i + 1] + panes[i + 2..];
    }
  }

  lemma CutPanes(panes: seq<Pane>, i: nat)
    requires i < |panes| && PanesOk(panes) && DistinctPanes(panes)
    ensures
      var rest := panes[..i] + panes[i + 1..];
      && PanesOk(rest) && DistinctPanes(rest)
      && (forall id :: HasPane(rest, id) <==> HasPane(panes, id) && id != panes[i].id)
  {
    hide PaneOk, AllTabs;
    var rest := panes[..i] + panes[i + 1..];
    forall k | 0 <= k < |rest| ensures rest[k] == panes[if k < i then k else k + 1] { }
    forall id ensures HasPane(rest, id) <==> HasPane(panes, id) && id != panes[i].id {
      if HasPane(panes, id) && id != panes[i].id {
        var k := FindPane(panes, id);
        assert rest[if k < i then k else k - 1].id == id;
      }
    }
  }

  lemma CutBag(panes: seq<Pane>, i: nat)
    requires i < |panes|
    ensures Bag(panes) == Bag(panes[..i] + panes[i + 1..]) + multiset(Bare(panes[i].tabs))
  {
    hide AllTabs, Bare;
    BagAround(panes[..i], panes[i], panes[i + 1..]);
    AllTabsOfConcat(panes[..i], panes[i + 1..]);
    assert panes[..i] + [panes[i]] + panes[i + 1..] == panes;
  }

  /** Pane `paneId` is gone, unless it is the last; the other panes are as they were. */
  ghost predicate RemovesPane(before: State, after: State, paneId: Id) {
    var i := FindPane(before.panes, paneId);
    if |before.panes| > 1 && i < |before.panes| then
      && after.panes == before.panes[..i] + before.panes[i + 1..]
      && after.activePaneId == if before.activePaneId == Some(paneId) then Some(after.panes[0].id) else before.activePaneId
    else after == before
  }

  lemma RemovePaneRemoves(s: State, paneId: Id)
    requires Valid(s)
    ensures RemovesPane(s, RemovePane(s, paneId), paneId)
  {
    hide WithoutPane, PanesOk, DistinctTabs, AllTabs;
    if !HasPane(s.panes, paneId) {
      WithoutPaneTakesNone(s.panes, paneId);
    } else if |s.panes| > 1 {
      WithoutPaneTakesOne(s.panes, paneId);
    }
  }

  /** Removing a pane keeps the workbench in order and takes exactly that pane's tabs; the last pane stays. */
  lemma RemovePaneKeeps(s: State, paneId: Id)
    requires Valid(s)
    ensures Valid(RemovePane(s, paneId)) && RemovesPane(s, RemovePane(s, paneId), paneId)
    ensures
      if |s.panes| > 1 && HasPane(s.panes, paneId)
      then Bag(s.panes) == Bag(RemovePane(s, paneId).panes) + multiset(Bare(s.panes[FindPane(s.panes, paneId)].tabs))
      else RemovePane(s, paneId) == s
  {
    hide PanesOk, DistinctPanes, DistinctTabs, Bare, AllTabs, RemovePane;
    RemovePaneRemoves(s, paneId);
    var i := FindPane(s.panes, paneId);
    if HasPane(s.panes, paneId) && |s.panes| > 1 {
      CutPanes(s.panes, i);
      CutBag(s.panes, i);
      var rest := s.panes[..i] + s.panes[i + 1..];
      PartOf(Bag(rest), multiset(Bare(s.panes[i].tabs)), Bag(s.panes));
      DistinctInPart(AllTabs(rest), AllTabs(s.panes));
      assert rest != [] && HasPane(rest, rest[0].id);
    }
  }

  /** A copy is of the same tool and remembers nothing. */
  ghost predicate IsCopy(copy: Tab, original: Tab, copyId: Id, content: string) {
    copy.id == copyId && copy.tool == original.tool && copy.content == content && copy.previousActive.None?
  }

  /** The tab is the one that the pane shows, or its first if it shows none. */
  ghost predicate ShownIn(panes: seq<Pane>, paneId: Option<Id>, tab: Tab) {
    && paneId.Some? && HasPane(panes, paneId.value)
    && var pane := panes[FindPane(panes, paneId.value)];
    && tab in pane.tabs
    && (HasTab(pane.tabs, pane.activeTabId) ==> tab.id == pane.activeTabId)
    && (!HasTab(pane.tabs, pane.activeTabId) ==> tab == pane.tabs[0])
  }

  /** What a move is to do: within a pane, between panes, or nothing if a pane or the tab does not exist. */
  ghost predicate DoesMove(before: State, after: State, source: Id, tabId: Id, target: Id, targetTab: Option<Id>,
                           position: DropPosition)
  {
    var i, j := FindPane(before.panes, source), FindPane(before.panes, target);
    if i < |before.panes| && j < |before.panes| && HasTab(before.panes[i].tabs, tabId) then
      && after.activePaneId == Some(target)
      && if i == j then EditsOne(before.panes, after.panes, source, Shift(tabId, targetTab, position))
         else Moves(before.panes, after.panes, i, before.panes[i].tabs[FindTab(before.panes[i].tabs, tabId)], j,
                    targetTab, position)
    else after == before
  }

  lemma MoveTabDoes(s: State, source: Id, tabId: Id, target: Id, targetTab: Option<Id>, position: DropPosition)
    requires Valid(s)
    ensures DoesMove(s, MoveTab(s, source, tabId, target, targetTab, position).0, source, tabId, target, targetTab, position)
  {
    hide Valid, EditsOne, Moves, EditPane, MoveBetween;
    var i, j := FindPane(s.panes, source), FindPane(s.panes, target);
    if i < |s.panes| && j < |s.panes| && HasTab(s.panes[i].tabs, tabId) {
      if source == target {
        EditsOneExactly(s, source, Shift(tabId, targetTab, position));
      } else {
        MovesExactly(s, source, tabId, target, targetTab, position);
      }
    }
  }

  /** A tab as the `create` functions make it. */
  ghost predicate Created(s: State, tab: Tab) {
    tab.previousActive.None? && UnusedId(s.panes, tab.id)
  }

  lemma AddPaneKeeps(s: State, newPane: Id, tab: Tab)
    requires Valid(s) && Created(s, tab) && !HasPane(s.panes, newPane)
    ensures Valid(AddPane(s, newPane, tab))
    ensures Bag(AddPane(s, newPane, tab).panes) == Bag(s.panes) + multiset{tab}
  {
    hide PanesOk, DistinctPanes, PaneOk, Bare;
    OneTabPane(newPane, tab);
    AddKeepsPanes(s.panes, Pane(newPane, [tab], tab.id));
    assert DistinctTabs(AllTabs(s.panes) + [tab]);
    DistinctInPart(AllTabs(s.panes + [Pane(newPane, [tab], tab.id)]), AllTabs(s.panes) + [tab]);
  }

  lemma CloseTabKeeps(s: State, paneId: Id, tabId: Id)
    requires Valid(s)
    ensures Valid(CloseTab(s, paneId, tabId))
    ensures
      if HasPane(s.panes, paneId) then
        Bag(s.panes) == Bag(CloseTab(s, paneId, tabId).panes)
          + TakenAway(s.panes[FindPane(s.panes, paneId)], Close(tabId))
      else CloseTab(s, paneId, tabId) == s
  {
    hide PanesOk, DistinctPanes, DistinctTabs, Bag, Edited;
    EditPaneIsUpdate(s.panes, paneId, Close(tabId));
    EditKeepsPanes(s.panes, paneId, Close(tabId));
    if HasPane(s.panes, paneId) {
      EditBag(s.panes, paneId, Close(tabId));
      Cancel(Bag(s.panes),
             Bag(EditPane(s.panes, paneId, Close(tabId))) + TakenAway(s.panes[FindPane(s.panes, paneId)], Close(tabId)),
             multiset{});
    }
  }

  /** Selecting a tab of an unknown pane in a new workbench leaves no existing pane active. */
  lemma UnknownPaneExample(paneId: Id, tab: Tab, tabId: Id)
    requires tab.previousActive.None? && paneId != "gone"
    ensures
      var s := State([Pane(paneId, [tab], tab.id)], Some(paneId));
      && Valid(s)
      && SelectTab(s, "gone", tabId) == State(s.panes, Some("gone"))
      && !Valid(SelectTab(s, "gone", tabId))
  {
    NewWorkbench(paneId, tab);
    var panes := [Pane(paneId, [tab], tab.id)];
    assert panes[1..] == [];
    assert !HasPane(panes, "gone");
    EditPaneIsUpdate(panes, "gone", Show(tabId));
  }

  lemma NewWorkbench(paneId: Id, tab: Tab)
    requires tab.previousActive.None?
    ensures Valid(State([Pane(paneId, [tab], tab.id)], Some(paneId)))
  {
    OneTabPane(paneId, tab);
    AllTabsOfOne(Pane(paneId, [tab], tab.id));
  }

  // ---------- the store ----------

  /** Ids come from random UUIDs, so the tabs and panes an operation creates are parameters here. */
  class Store {
    var state: State

    /** The workbench that was stored before is taken as it is. */
    constructor (paneId: Id, tab: Tab, loaded: Option<State>)
      requires tab.previousActive.None?
      ensures state == if loaded.Some? then loaded.value else State([Pane(paneId, [tab], tab.id)], Some(paneId))
      ensures Valid(state) <==> loaded.None? || Valid(loaded.value)
    {
      state := if loaded.Some? then loaded.value else State([Pane(paneId, [tab], tab.id)], Some(paneId));
      new;
      NewWorkbench(paneId, tab);
    }

    /** The active pane shows its first tab of the tool, or a new one.  A pane without an id cannot be selected. */
    method SelectTool(tool: string, created: Tab)
      modifies this
      ensures state == Workbench.SelectTool(old(state), tool, created)
      ensures Valid(old(state)) && Created(old(state), created) ==>
        && Valid(state) && state.activePaneId == old(state).activePaneId
        && if old(state).activePaneId.value == "" then state == old(state)
           else EditsOne(old(state).panes, state.panes, old(state).activePaneId.value, ShowTool(tool, created))
    {
      if Valid(state) && Created(state, created) {
        EditKeepsOrder(state, state.activePaneId.value, ShowTool(tool, created));
        EditsOneExactly(state, state.activePaneId.value, ShowTool(tool, created));
      }
      state := Workbench.SelectTool(state, tool, created);
    }

    method FocusPane(paneId: Id)
      modifies this
      ensures state == Workbench.FocusPane(old(state), paneId) && state.panes == old(state).panes
      ensures state.activePaneId ==
        if exists pane :: pane in state.panes && pane.id == paneId then Some(paneId) else old(state).activePaneId
      ensures Valid(old(state)) ==> Valid(state)
    {
      state := Workbench.FocusPane(state, paneId);
    }

    /** A copy of the source pane's active tab, or a files tab, in a pane of its own. */
    method AddPane(sourcePane: Option<Id>, newPane: Id, copyId: Id, content: string, filesTab: Tab) returns (id: Id)
      modifies this
      ensures id == newPane
      ensures state == Workbench.AddPane(old(state), newPane, Shown(old(state), sourcePane, copyId, content, filesTab))
      ensures
        var tab := Shown(old(state), sourcePane, copyId, content, filesTab);
        Valid(old(state)) && Created(old(state), tab) && !HasPane(old(state).panes, newPane) ==>
          Valid(state) && Bag(state.panes) == Bag(old(state).panes) + multiset{tab}
      ensures state.panes[..|old(state).panes|] == old(state).panes && state.activePaneId == Some(newPane)
      ensures |state.panes| == |old(state).panes| + 1 && |Last(state.panes).tabs| == 1
      ensures
        var tab := Last(state.panes).tabs[0];
        && Last(state.panes) == Pane(newPane, [tab], tab.id)
        && if exists original :: ShownIn(old(state).panes, sourcePane, original)
           then exists original :: ShownIn(old(state).panes, sourcePane, original) && IsCopy(tab, original, copyId, content)
           else tab == filesTab
    {
      var tab := filesTab;
      if sourcePane.Some? {
        var at := FindPane(state.panes, sourcePane.value);
        if at < |state.panes| && state.panes[at].tabs != [] {
          var pane := state.panes[at];
          var shown := if HasTab(pane.tabs, pane.activeTabId) then FindTab(pane.tabs, pane.activeTabId) else 0;
          var original := pane.tabs[shown];
          tab := CopyOf(original, copyId, content);
          assert ShownIn(state.panes, sourcePane, original) && IsCopy(tab, original, copyId, content);
        }
      }
      if Valid(state) && Created(state, tab) && !HasPane(state.panes, newPane) {
        AddPaneKeeps(state, newPane, tab);
      }
      state := Workbench.AddPane(state, newPane, tab);
      id := newPane;
    }

    /** The pane goes, the others stay as they are; if it was the active one the first of them becomes active. */
    method RemovePane(paneId: Id)
      modifies this
      ensures state == Workbench.RemovePane(old(state), paneId)
      ensures Valid(old(state)) ==> Valid(state) && RemovesPane(old(state), state, paneId)
    {
      if Valid(state) {
        RemovePaneKeeps(state, paneId);
      }
      state := Workbench.RemovePane(state, paneId);
    }

    /** Also makes a pane active that does not exist; that is exactly when the workbench loses its order. */
    method OpenTab(paneId: Id, tab: Tab)
      modifies this
      ensures state == Workbench.OpenTab(old(state), paneId, tab)
      ensures state.activePaneId == Some(paneId)
      ensures Valid(old(state)) && Created(old(state), tab) ==>
        (Valid(state) <==> HasPane(old(state).panes, paneId)) && EditsOne(old(state).panes, state.panes, paneId, Open(tab))
    {
      if Valid(state) && Created(state, tab) {
        EditKeepsOrder(state, paneId, Open(tab));
        EditsOneExactly(state, paneId, Open(tab));
      }
      state := Workbench.OpenTab(state, paneId, tab);
    }

    method OpenTabInActivePane(tab: Tab)
      modifies this
      ensures state == Workbench.OpenTabInActivePane(old(state), tab)
      ensures Valid(old(state)) && Created(old(state), tab) ==>
        && Valid(state) && state.activePaneId == old(state).activePaneId
        && if old(state).activePaneId.value == "" then state == old(state)
           else EditsOne(old(state).panes, state.panes, old(state).activePaneId.value, Open(tab))
    {
      if Valid(state) && Created(state, tab) {
        EditKeepsOrder(state, state.activePaneId.value, Open(tab));
        EditsOneExactly(state, state.activePaneId.value, Open(tab));
      }
      state := Workbench.OpenTabInActivePane(state, tab);
    }

    /** A duplicate appears exactly if the tab exists, and adds that one copy. */
    method DuplicateTab(paneId: Id, tabId: Id, copyId: Id, content: string) returns (id: Option<Id>)
      modifies this
      ensures
        var at := FindPane(old(state).panes, paneId);
        if at < |old(state).panes| && HasTab(old(state).panes[at].tabs, tabId) then
          var original := old(state).panes[at].tabs[FindTab(old(state).panes[at].tabs, tabId)];
          var copy := CopyOf(original, copyId, content);
          && id == Some(copyId) && state == Workbench.DuplicateTab(old(state), paneId, tabId, copy)
          && IsCopy(copy, original, copyId, content) && state.activePaneId == Some(paneId)
          && (Valid(old(state)) && UnusedId(old(state).panes, copyId) ==>
            && Valid(state) && Bag(state.panes) == Bag(old(state).panes) + multiset{copy}
            && EditsOne(old(state).panes, state.panes, paneId, Copy(copy, tabId)))
        else id == None && state == old(state)
    {
      var at := FindPane(state.panes, paneId);
      if at == |state.panes| || !HasTab(state.panes[at].tabs, tabId) {
        return None;
      }
      var copy := CopyOf(state.panes[at].tabs[FindTab(state.panes[at].tabs, tabId)], copyId, content);
      if Valid(state) && UnusedId(state.panes, copyId) {
        DuplicateKeeps(state, paneId, tabId, copy);
        EditsOneExactly(state, paneId, Copy(copy, tabId));
      }
      state := Workbench.DuplicateTab(state, paneId, tabId, copy);
      id := Some(copyId);
    }

    method SelectTab(paneId: Id, tabId: Id)
      modifies this
      ensures state == Workbench.SelectTab(old(state), paneId, tabId)
      ensures state.activePaneId == Some(paneId)
      ensures Valid(old(state)) ==>
        (Valid(state) <==> HasPane(old(state).panes, paneId)) && EditsOne(old(state).panes, state.panes, paneId, Show(tabId))
    {
      if Valid(state) {
        EditKeepsOrder(state, paneId, Show(tabId));
        EditsOneExactly(state, paneId, Show(tabId));
      }
      state := Workbench.SelectTab(state, paneId, tabId);
    }

    method CloseTab(paneId: Id, tabId: Id)
      modifies this
      ensures state == Workbench.CloseTab(old(state), paneId, tabId)
      ensures state.activePaneId == old(state).activePaneId
      ensures Valid(old(state)) ==> Valid(state) && EditsOne(old(state).panes, state.panes, paneId, Close(tabId))
    {
      if Valid(state) {
        EditsOneExactly(state, paneId, Close(tabId));
        CloseTabKeeps(state, paneId, tabId);
      }
      state := Workbench.CloseTab(state, paneId, tabId);
    }

    method MoveTab(source: Id, tabId: Id, target: Id, targetTab: Option<Id>, position: DropPosition)
        returns (sourceRemoved: bool)
      modifies this
      ensures (state, sourceRemoved) == Workbench.MoveTab(old(state), source, tabId, target, targetTab, position)
      ensures Valid(old(state)) ==>
        && Valid(state) && Bag(state.panes) == Bag(old(state).panes)
        && (sourceRemoved <==> HasPane(old(state).panes, source) && !HasPane(state.panes, source))
        && DoesMove(old(state), state, source, tabId, target, targetTab, position)
    {
      if Valid(state) {
        MoveTabConserves(state, source, tabId, target, targetTab, position);
        MoveTabDoes(state, source, tabId, target, targetTab, position);
      }
      var moved := Workbench.MoveTab(state, source, tabId, target, targetTab, position);
      state, sourceRemoved := moved.0, moved.1;
    }

    method MoveTabToNewPane(source: Id, tabId: Id, target: Id, newPane: Id) returns (moved: Option<MovedToNewPane>)
      modifies this
      ensures (state, moved) == Workbench.MoveTabToNewPane(old(state), source, tabId, target, newPane)
      ensures Valid(old(state)) && !HasPane(old(state).panes, newPane) ==>
        Valid(state) && Bag(state.panes) == Bag(old(state).panes)
      ensures Valid(old(state)) ==> MovesOut(old(state), state, source, tabId, target, newPane)
    {
      hide MovesOut, Workbench.MoveTabToNewPane, Valid;
      if Valid(state) {
        MovesOutExactly(state, source, tabId, target, newPane);
      }
      if Valid(state) && !HasPane(state.panes, newPane) {
        MoveToNewPaneConserves(state, source, tabId, target, newPane);
      }
      var r := Workbench.MoveTabToNewPane(state, source, tabId, target, newPane);
      state, moved := r.0, r.1;
    }
  }

  lemma DuplicateKeeps(s: State, paneId: Id, tabId: Id, copy: Tab)
    requires Valid(s) && Created(s, copy) && HasPane(s.panes, paneId)
    requires HasTab(s.panes[FindPane(s.panes, paneId)].tabs, tabId)
    ensures Valid(DuplicateTab(s, paneId, tabId, copy))
    ensures Bag(DuplicateTab(s, paneId, tabId, copy).panes) == Bag(s.panes) + multiset{copy}
  {
    hide Bag, PanesOk, DistinctPanes, DistinctTabs, EditPane;
    EditKeepsOrder(s, paneId, Copy(copy, tabId));
    EditBag(s.panes, paneId, Copy(copy, tabId));
    Cancel(Bag(EditPane(s.panes, paneId, Copy(copy, tabId))), Bag(s.panes) + multiset{copy}, multiset{});
  }

  /** A copy is of the same tool; `content` is what copying makes of the content. */
  function CopyOf(tab: Tab, copyId: Id, content: string): (copy: Tab) {
    Tab(copyId, tab.tool, content, None)
  }

  /** What a new pane shows: a copy of what the source pane shows, or the files tab if there is nothing to copy. */
  function Shown(s: State, sourcePane: Option<Id>, copyId: Id, content: string, filesTab: Tab): (tab: Tab)
  {
    if sourcePane.None? || !HasPane(s.panes, sourcePane.value) then filesTab
    else
      var pane := s.panes[FindPane(s.panes, sourcePane.value)];
      if pane.tabs == [] then filesTab
      else if HasTab(pane.tabs, pane.activeTabId) then
        CopyOf(pane.tabs[FindTab(pane.tabs, pane.activeTabId)], copyId, content)
      else CopyOf(pane.tabs[0], copyId, content)
  }
}
