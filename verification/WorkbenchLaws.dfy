/** What every workbench operation keeps, and that moving a tab loses and invents none. */
module WorkbenchLaws {
  import opened Wrappers
  import opened Workbench

  // ---------- the invariant ----------

  ghost predicate DistinctTabs(tabs: seq<Tab>) {
    forall i, j | 0 <= i < j < |tabs| :: tabs[i].id != tabs[j].id
  }

  ghost predicate DistinctPanes(panes: seq<Pane>) {
    forall i, j | 0 <= i < j < |panes| :: panes[i].id != panes[j].id
  }

  /** The tab that it remembers is another one of these tabs. */
  ghost predicate Remembers(tabs: seq<Tab>, tab: Tab) {
    && Given(tab.previousActive)
    && tab.previousActive.value != tab.id && HasTab(tabs, tab.previousActive.value)
  }

  /** A pane has tabs, shows one of them, and each remembers only another tab of the pane. */
  ghost predicate PaneOk(pane: Pane) {
    && pane.tabs != []
    && HasTab(pane.tabs, pane.activeTabId)
    && forall i | 0 <= i < |pane.tabs| && pane.tabs[i].previousActive.Some? ::
      Remembers(pane.tabs, pane.tabs[i])
  }

  /** All tabs, without what they remember. */
  ghost function Bare(tabs: seq<Tab>): (r: seq<Tab>)
    ensures |r| == |tabs|
  {
    seq(|tabs|, i requires 0 <= i < |tabs| => tabs[i].(previousActive := None))
  }

  ghost function AllTabs(panes: seq<Pane>): (tabs: seq<Tab>) {
    if panes == [] then [] else Bare(panes[0].tabs) + AllTabs(panes[1..])
  }

  ghost predicate PanesOk(panes: seq<Pane>) {
    forall i | 0 <= i < |panes| :: PaneOk(panes[i])
  }

  ghost predicate Valid(s: State) {
    && s.panes != []
    && PanesOk(s.panes)
    && DistinctPanes(s.panes)
    && DistinctTabs(AllTabs(s.panes))
    && s.activePaneId.Some? && HasPane(s.panes, s.activePaneId.value)
  }

  // ---------- one pane ----------

  lemma SameIdsSameHas(a: seq<Tab>, b: seq<Tab>, id: Id)
    requires |a| == |b| && forall i | 0 <= i < |a| :: a[i].id == b[i].id
    ensures HasTab(a, id) <==> HasTab(b, id)
  {
  }

  /** Normalising repairs any pane that has tabs, and changes only what the tabs remember. */
  lemma NormalizeRepairs(pane: Pane)
    requires pane.tabs != []
    ensures PaneOk(NormalizeHistory(pane))
    ensures Bare(NormalizeHistory(pane).tabs) == Bare(pane.tabs)
    ensures HasTab(pane.tabs, pane.activeTabId) ==> NormalizeHistory(pane).activeTabId == pane.activeTabId
  {
    var r := NormalizeHistory(pane);
    assert forall i | 0 <= i < |pane.tabs| :: r.tabs[i].id == pane.tabs[i].id;
    forall id ensures HasTab(r.tabs, id) <==> HasTab(pane.tabs, id) {
      SameIdsSameHas(r.tabs, pane.tabs, id);
    }
    assert HasTab(pane.tabs, FirstTabId(pane.tabs));
  }

  lemma ActivateShows(pane: Pane, id: Id)
    requires pane.tabs != []
    ensures PaneOk(Activate(pane, id)) && Activate(pane, id).id == pane.id
    ensures Bare(Activate(pane, id).tabs) == Bare(pane.tabs)
    ensures HasTab(pane.tabs, id) ==> Activate(pane, id).activeTabId == id
  {
    NormalizeRepairs(pane);
    if HasTab(pane.tabs, id) && pane.activeTabId != id {
      var previous := if HasTab(pane.tabs, pane.activeTabId) then Some(pane.activeTabId) else None;
      var tabs := seq(|pane.tabs|, i requires 0 <= i < |pane.tabs| => Remember(pane.tabs[i], id, previous));
      SameIdsSameHas(tabs, pane.tabs, id);
      NormalizeRepairs(Pane(pane.id, tabs, id));
      assert Bare(tabs) == Bare(pane.tabs);
    }
  }

  lemma {:induction false} WithoutTabTakesOne(tabs: seq<Tab>, id: Id)
    requires DistinctTabs(tabs) && HasTab(tabs, id)
    ensures
      var i := FindTab(tabs, id);
      WithoutTab(tabs, id) == tabs[..i] + tabs[i + 1..]
  {
    if tabs[0].id == id {
      WithoutTabTakesNone(tabs[1..], id);
      assert [] + tabs[1..] == tabs[1..];
    } else {
      WithoutTabTakesOne(tabs[1..], id);
      var i := FindTab(tabs[1..], id);
      assert [tabs[0]] + (tabs[1..][..i] + tabs[1..][i + 1..]) == tabs[..i + 1] + tabs[i + 2..];
    }
  }

  lemma {:induction false} WithoutTabTakesNone(tabs: seq<Tab>, id: Id)
    requires !HasTab(tabs, id)
    ensures WithoutTab(tabs, id) == tabs
  {
    if tabs != [] {
      WithoutTabTakesNone(tabs[1..], id);
    }
  }

  ghost function BareTab(tab: Tab): (r: Tab) {
    tab.(previousActive := None)
  }

  lemma BareOfCut(tabs: seq<Tab>, i: nat)
    requires i < |tabs|
    ensures multiset(Bare(tabs)) == multiset(Bare(tabs[..i] + tabs[i + 1..])) + multiset{BareTab(tabs[i])}
  {
    assert Bare(tabs) == Bare(tabs)[..i] + [BareTab(tabs[i])] + Bare(tabs)[i + 1..];
    assert Bare(tabs[..i] + tabs[i + 1..]) == Bare(tabs)[..i] + Bare(tabs)[i + 1..];
  }

  lemma CutKeepsOthers(tabs: seq<Tab>, i: nat, id: Id)
    requires i < |tabs| && tabs[i].id != id && HasTab(tabs, id)
    ensures HasTab(tabs[..i] + tabs[i + 1..], id)
  {
    var k := FindTab(tabs, id);
    assert (tabs[..i] + tabs[i + 1..])[if k < i then k else k - 1].id == id;
  }

  lemma ReleaseIsCut(pane: Pane, id: Id)
    requires DistinctTabs(pane.tabs) && HasTab(pane.tabs, id)
    ensures
      var i := FindTab(pane.tabs, id);
      var tabs := pane.tabs[..i] + pane.tabs[i + 1..];
      && WithoutTab(pane.tabs, id) == tabs
      && Release(pane, id) == NormalizeHistory(Pane(
           pane.id, tabs, if pane.activeTabId == id then FallbackActive(Some(pane.tabs[i]), tabs) else pane.activeTabId))
  {
    hide NormalizeHistory, FallbackActive;
    WithoutTabTakesOne(pane.tabs, id);
  }

  /** Letting a tab go removes that tab from the pane and nothing else. */
  lemma ReleaseTakesOne(pane: Pane, id: Id)
    requires DistinctTabs(pane.tabs) && HasTab(pane.tabs, id) && |pane.tabs| > 1
    ensures WithoutTab(pane.tabs, id) != []
    ensures PaneOk(Release(pane, id)) && Release(pane, id).id == pane.id
    ensures multiset(Bare(pane.tabs)) ==
      multiset(Bare(Release(pane, id).tabs)) + multiset{BareTab(pane.tabs[FindTab(pane.tabs, id)])}
    ensures HasTab(pane.tabs, pane.activeTabId) && pane.activeTabId != id ==>
      Release(pane, id).activeTabId == pane.activeTabId
  {
    hide Bare, PaneOk, FallbackActive, Release, DistinctTabs;
    ReleaseIsCut(pane, id);
    var i := FindTab(pane.tabs, id);
    var tabs := pane.tabs[..i] + pane.tabs[i + 1..];
    var active := if pane.activeTabId == id then FallbackActive(Some(pane.tabs[i]), tabs) else pane.activeTabId;
    assert |tabs| == |pane.tabs| - 1;
    NormalizeRepairs(Pane(pane.id, tabs, active));
    assert Release(pane, id).id == pane.id;
    hide NormalizeHistory;
    BareOfCut(pane.tabs, i);
    if HasTab(pane.tabs, pane.activeTabId) && pane.activeTabId != id {
      CutKeepsOthers(pane.tabs, i, pane.activeTabId);
    }
  }

  /** Where an inserted tab comes to stand. */
  ghost function DropIndex(tabs: seq<Tab>, target: Option<Id>, position: DropPosition): (at: nat)
    ensures at <= |tabs|
  {
    if position == End || !Given(target) || !HasTab(tabs, target.value) then |tabs|
    else if position == Before then FindTab(tabs, target.value)
    else FindTab(tabs, target.value) + 1
  }

  /** An inserted tab sits right before or after its target, or last, and the others keep their order. */
  lemma InsertPlaces(tabs: seq<Tab>, tab: Tab, target: Option<Id>, position: DropPosition)
    ensures
      var r, at := InsertTab(tabs, tab, target, position), DropIndex(tabs, target, position);
      && |r| == |tabs| + 1 && r[at] == tab && r[..at] + r[at + 1..] == tabs
      && (target.Some? && Given(target) && HasTab(tabs, target.value) && position != End ==>
        var neighbour := if position == Before then at + 1 else at - 1;
        0 <= neighbour < |r| && r[neighbour].id == target.value)
      && (position == End || !Given(target) || !HasTab(tabs, target.value) ==> at == |tabs|)
  {
    var r, at := InsertTab(tabs, tab, target, position), DropIndex(tabs, target, position);
    assert tabs[..|tabs|] + [tab] + tabs[|tabs|..] == tabs + [tab];
    assert r == tabs[..at] + [tab] + tabs[at..];
    assert r[..at] == tabs[..at] && r[at + 1..] == tabs[at..];
    assert tabs[..at] + tabs[at..] == tabs;
  }

  lemma InsertAddsOne(tabs: seq<Tab>, tab: Tab, target: Option<Id>, position: DropPosition)
    ensures
      var r := InsertTab(tabs, tab, target, position);
      && multiset(Bare(r)) == multiset(Bare(tabs)) + multiset{BareTab(tab)}
      && HasTab(r, tab.id)
  {
    hide InsertTab, DropIndex, Bare;
    InsertPlaces(tabs, tab, target, position);
    BareOfCut(InsertTab(tabs, tab, target, position), DropIndex(tabs, target, position));
  }

  /** A pane that takes in a tab shows it, next to the tab it was dropped on. */
  lemma ReceiveAddsOne(pane: Pane, tab: Tab, target: Option<Id>, position: DropPosition)
    ensures
      var r := Receive(pane, tab, target, position);
      && PaneOk(r) && r.id == pane.id && r.activeTabId == tab.id
      && multiset(Bare(r.tabs)) == multiset(Bare(pane.tabs)) + multiset{BareTab(tab)}
  {
    hide Bare, Activate, PaneOk, InsertTab;
    InsertAddsOne(pane.tabs, tab, target, position);
    var tabs := InsertTab(pane.tabs, tab, target, position);
    assert tabs != [];
    ActivateShows(pane.(tabs := tabs), tab.id);
  }

  // ---------- edits of one pane ----------

  /** The tab an edit brings in. */
  ghost function Brought(pane: Pane, edit: Edit): (tabs: multiset<Tab>) {
    match edit
    case Open(tab) => multiset{BareTab(tab)}
    case ShowTool(tool, created) =>
      if FindTool(pane.tabs, tool) < |pane.tabs| then multiset{} else multiset{BareTab(created)}
    case Copy(copy, _) => multiset{BareTab(copy)}
    case _ => multiset{}
  }

  /** The tab an edit takes away. */
  ghost function TakenAway(pane: Pane, edit: Edit): (tabs: multiset<Tab>) {
    if edit.Close? && |pane.tabs| > 1 && HasTab(pane.tabs, edit.tabId)
    then multiset{BareTab(pane.tabs[FindTab(pane.tabs, edit.tabId)])}
    else multiset{}
  }

  lemma ShiftKeepsTabs(pane: Pane, id: Id, target: Option<Id>, position: DropPosition)
    requires PaneOk(pane) && DistinctTabs(pane.tabs)
    ensures PaneOk(MoveWithin(pane, id, target, position)) && MoveWithin(pane, id, target, position).id == pane.id
    ensures multiset(Bare(MoveWithin(pane, id, target, position).tabs)) == multiset(Bare(pane.tabs))
  {
    hide Bare, Activate, PaneOk, InsertTab;
    if target != Some(id) && HasTab(pane.tabs, id) {
      var i := FindTab(pane.tabs, id);
      var rest := WithoutTab(pane.tabs, id);
      WithoutTabTakesOne(pane.tabs, id);
      BareOfCut(pane.tabs, i);
      ReceiveAddsOne(pane.(tabs := rest), pane.tabs[i], target, position);
      assert MoveWithin(pane, id, target, position) == Receive(pane.(tabs := rest), pane.tabs[i], target, position);
    }
  }

  lemma CloseKeepsPane(pane: Pane, id: Id)
    requires PaneOk(pane) && DistinctTabs(pane.tabs)
    ensures PaneOk(Edited(pane, Close(id))) && Edited(pane, Close(id)).id == pane.id
    ensures multiset(Bare(pane.tabs)) == multiset(Bare(Edited(pane, Close(id)).tabs)) + TakenAway(pane, Close(id))
    ensures pane.activeTabId != id ==> Edited(pane, Close(id)).activeTabId == pane.activeTabId
  {
    if |pane.tabs| > 1 {
      if HasTab(pane.tabs, id) {
        ReleaseTakesOne(pane, id);
      } else {
        WithoutTabTakesNone(pane.tabs, id);
        NormalizeRepairs(pane);
        assert pane.activeTabId != id;
      }
    }
  }

  /** An edit keeps the pane in order and changes its tabs by exactly what it brings in and takes away. */
  lemma EditKeepsPane(pane: Pane, edit: Edit)
    requires PaneOk(pane) && DistinctTabs(pane.tabs)
    ensures PaneOk(Edited(pane, edit)) && Edited(pane, edit).id == pane.id
    ensures multiset(Bare(Edited(pane, edit).tabs)) + TakenAway(pane, edit)
      == multiset(Bare(pane.tabs)) + Brought(pane, edit)
  {
    hide PaneOk, Activate, InsertTab, Bare, Release, MoveWithin;
    match edit
    case Open(tab) =>
      ReceiveAddsOne(pane, tab, None, End);
      AppendIsInsertAtEnd(pane.tabs, tab);
    case ShowTool(tool, created) =>
      PaneHasTabs(pane);
      if FindTool(pane.tabs, tool) < |pane.tabs| {
        ActivateShows(pane, pane.tabs[FindTool(pane.tabs, tool)].id);
      } else {
        ReceiveAddsOne(pane, created, None, End);
        AppendIsInsertAtEnd(pane.tabs, created);
      }
    case Copy(copy, original) =>
      ReceiveAddsOne(pane, copy, Some(original), After);
    case Show(tabId) =>
      PaneHasTabs(pane);
      ActivateShows(pane, tabId);
    case Close(tabId) =>
      CloseKeepsPane(pane, tabId);
    case Shift(tabId, target, position) =>
      ShiftKeepsTabs(pane, tabId, target, position);
  }

  lemma PaneHasTabs(pane: Pane)
    requires PaneOk(pane)
    ensures pane.tabs != []
  {
  }

  lemma AppendIsInsertAtEnd(tabs: seq<Tab>, tab: Tab)
    ensures InsertTab(tabs, tab, None, End) == tabs + [tab]
  {
  }
}
