/** What each workbench operation does, tab by tab and pane by pane, as relations between before and after. */
module WorkbenchEffects {
  import opened Wrappers
  import opened Workbench
  import opened WorkbenchLaws
  import opened WorkbenchTheorems

  // ---------- one pane ----------

  /** An id as a memory: the empty one stands for none. */
  function AsMemory(id: Id): (memory: Option<Id>) {
    if id == "" then None else Some(id)
  }

  /** `after` is `before` showing tab `id`, which remembers the tab shown before; every other tab is as it was. */
  ghost predicate Shows(before: Pane, after: Pane, id: Id) {
    && after.id == before.id && after.activeTabId == id && HasTab(after.tabs, id)
    && |after.tabs| == |before.tabs|
    && forall k | 0 <= k < |before.tabs| ::
         after.tabs[k] ==
           if before.tabs[k].id == id && before.activeTabId != id
           then before.tabs[k].(previousActive := AsMemory(before.activeTabId))
           else before.tabs[k]
  }

  /** The tab stands right before or right after the target, or last if there is none to stand next to; without
      it the tabs are the ones before. */
  ghost predicate Inserts(before: seq<Tab>, after: seq<Tab>, tab: Tab, target: Option<Id>, position: DropPosition) {
    exists at | 0 <= at < |after| :: InsertsAt(before, after, tab, target, position, at)
  }

  ghost predicate InsertsAt(before: seq<Tab>, after: seq<Tab>, tab: Tab, target: Option<Id>, position: DropPosition, at: nat)
    requires at < |after|
  {
    && after[at] == tab && after[..at] + after[at + 1..] == before
    && if position == End || !Given(target) || !HasTab(before, target.value) then at == |before|
       else if position == Before then at + 1 < |after| && after[at + 1].id == target.value
       else at > 0 && after[at - 1].id == target.value
  }

  /** `after` is `before` without tab `id`: the others keep their order and forget that tab, and if it was the
      shown one, the tab that it remembered is shown, or else the first. */
  ghost predicate Closes(before: Pane, after: Pane, id: Id) {
    && after.id == before.id
    && exists i | 0 <= i < |before.tabs| :: before.tabs[i].id == id && ClosesAt(before, after, i)
  }

  ghost predicate ClosesAt(before: Pane, after: Pane, i: nat)
    requires i < |before.tabs|
  {
    var closed, rest := before.tabs[i], before.tabs[..i] + before.tabs[i + 1..];
    && |after.tabs| == |rest| > 0
    && (forall k | 0 <= k < |rest| ::
         after.tabs[k] == if rest[k].previousActive == Some(closed.id) then rest[k].(previousActive := None) else rest[k])
    && after.activeTabId ==
         if before.activeTabId != closed.id then before.activeTabId
         else if closed.previousActive.Some? then closed.previousActive.value
         else rest[0].id
  }

  /** Normalising leaves alone what already is in order. */
  lemma NormalizeKeeps(pane: Pane)
    requires HasTab(pane.tabs, pane.activeTabId)
    requires forall k | 0 <= k < |pane.tabs| && pane.tabs[k].previousActive.Some? :: Remembers(pane.tabs, pane.tabs[k])
    ensures NormalizeHistory(pane) == pane
  {
    assert NormalizeHistory(pane).tabs == pane.tabs;
  }

  lemma ActivateEffect(pane: Pane, id: Id)
    requires HasTab(pane.tabs, pane.activeTabId) && HasTab(pane.tabs, id)
    requires forall k | 0 <= k < |pane.tabs| && pane.tabs[k].previousActive.Some? ::
      (pane.tabs[k].id == id && pane.activeTabId != id) || Remembers(pane.tabs, pane.tabs[k])
    ensures Shows(pane, Activate(pane, id), id)
  {
    if pane.activeTabId == id {
      NormalizeKeeps(pane);
    } else {
      var tabs := seq(|pane.tabs|, i requires 0 <= i < |pane.tabs| => Remember(pane.tabs[i], id, Some(pane.activeTabId)));
      forall other ensures HasTab(tabs, other) <==> HasTab(pane.tabs, other) {
        SameIdsSameHas(tabs, pane.tabs, other);
      }
      var normal := NormalizeHistory(Pane(pane.id, tabs, id));
      forall other ensures HasTab(normal.tabs, other) <==> HasTab(tabs, other) {
        SameIdsSameHas(normal.tabs, tabs, other);
      }
      assert Activate(pane, id) == normal;
    }
  }

  lemma InsertEffect(tabs: seq<Tab>, tab: Tab, target: Option<Id>, position: DropPosition)
    ensures Inserts(tabs, InsertTab(tabs, tab, target, position), tab, target, position)
  {
    InsertPlaces(tabs, tab, target, position);
    var after, at := InsertTab(tabs, tab, target, position), DropIndex(tabs, target, position);
    assert InsertsAt(tabs, after, tab, target, position, at);
  }

  lemma InsertedHas(before: seq<Tab>, after: seq<Tab>, at: nat, id: Id)
    requires at < |after| && after[..at] + after[at + 1..] == before
    ensures HasTab(before, id) ==> HasTab(after, id)
    ensures HasTab(after, after[at].id)
    ensures forall k | 0 <= k < |after| && k != at :: after[k] in before
  {
    if HasTab(before, id) {
      var k := FindTab(before, id);
      assert before[k] == after[if k < at then k else k + 1];
    }
    forall k | 0 <= k < |after| && k != at ensures after[k] in before {
      assert before[if k < at then k else k - 1] == after[k];
    }
  }

  /** A pane in order that takes in a tab next to a target, and shows it. */
  ghost predicate TakesIn(before: Pane, after: Pane, tab: Tab, target: Option<Id>, position: DropPosition) {
    exists tabs: seq<Tab> ::
      Inserts(before.tabs, tabs, tab, target, position) && Shows(before.(tabs := tabs), after, tab.id)
  }

  lemma ReceiveEffect(pane: Pane, tab: Tab, target: Option<Id>, position: DropPosition)
    requires PaneOk(pane) && !HasTab(pane.tabs, tab.id)
    ensures TakesIn(pane, Receive(pane, tab, target, position), tab, target, position)
  {
    hide Activate, Shows, Inserts, InsertTab;
    var tabs := InsertTab(pane.tabs, tab, target, position);
    InsertEffect(pane.tabs, tab, target, position);
    ReceiveIsReady(pane, tabs, tab, target, position);
    ActivateEffect(pane.(tabs := tabs), tab.id);
  }

  lemma ReceiveIsReady(pane: Pane, tabs: seq<Tab>, tab: Tab, target: Option<Id>, position: DropPosition)
    requires PaneOk(pane) && !HasTab(pane.tabs, tab.id) && Inserts(pane.tabs, tabs, tab, target, position)
    ensures HasTab(tabs, pane.activeTabId) && HasTab(tabs, tab.id) && pane.activeTabId != tab.id
    ensures forall k | 0 <= k < |tabs| && tabs[k].previousActive.Some? :: tabs[k].id == tab.id || Remembers(tabs, tabs[k])
  {
    var at :| 0 <= at < |tabs| && InsertsAt(pane.tabs, tabs, tab, target, position, at);
    InsertedHas(pane.tabs, tabs, at, pane.activeTabId);
    forall k | 0 <= k < |tabs| && tabs[k].previousActive.Some?
      ensures tabs[k].id == tab.id || Remembers(tabs, tabs[k])
    {
      if k != at {
        var j :| 0 <= j < |pane.tabs| && pane.tabs[j] == tabs[k];
        InsertedHas(pane.tabs, tabs, at, tabs[k].previousActive.value);
      }
    }
  }

  lemma ReleaseEffect(pane: Pane, id: Id)
    requires PaneOk(pane) && DistinctTabs(pane.tabs) && HasTab(pane.tabs, id) && |pane.tabs| > 1
    ensures Closes(pane, Release(pane, id), id)
  {
    hide Release, NormalizeHistory, ClosesAt, PaneOk, DistinctTabs;
    ReleaseIsCut(pane, id);
    CutCloses(pane, FindTab(pane.tabs, id));
  }

  lemma CutHasOthers(pane: Pane, i: nat)
    requires DistinctTabs(pane.tabs) && i < |pane.tabs|
    ensures
      var rest := pane.tabs[..i] + pane.tabs[i + 1..];
      forall id :: HasTab(rest, id) <==> HasTab(pane.tabs, id) && id != pane.tabs[i].id
  {
    forall id
      ensures HasTab(pane.tabs[..i] + pane.tabs[i + 1..], id) <==> HasTab(pane.tabs, id) && id != pane.tabs[i].id
    {
      CutHas(pane.tabs, i, id);
    }
  }

  /** Without tab `i` the others forget it and nothing else. */
  lemma CutForgets(pane: Pane, i: nat)
    requires PaneOk(pane) && DistinctTabs(pane.tabs) && i < |pane.tabs|
    ensures
      var closed, rest := pane.tabs[i], pane.tabs[..i] + pane.tabs[i + 1..];
      forall k | 0 <= k < |rest| ::
        NormalizeTab(rest, rest[k]) ==
          if rest[k].previousActive == Some(closed.id) then rest[k].(previousActive := None) else rest[k]
  {
    CutHasOthers(pane, i);
    hide HasTab, DistinctTabs;
    var closed, rest := pane.tabs[i], pane.tabs[..i] + pane.tabs[i + 1..];
    forall k | 0 <= k < |rest|
      ensures NormalizeTab(rest, rest[k]) ==
        if rest[k].previousActive == Some(closed.id) then rest[k].(previousActive := None) else rest[k]
    {
      assert rest[k] == pane.tabs[if k < i then k else k + 1];
      assert rest[k].previousActive.None? || Remembers(pane.tabs, rest[k]);
    }
  }

  /** The tab shown then is there, and is the one shown before, the one remembered or the first. */
  lemma CutShows(pane: Pane, i: nat)
    requires PaneOk(pane) && DistinctTabs(pane.tabs) && i < |pane.tabs| && |pane.tabs| > 1
    ensures
      var closed, rest := pane.tabs[i], pane.tabs[..i] + pane.tabs[i + 1..];
      var active := if pane.activeTabId == closed.id then FallbackActive(Some(closed), rest) else pane.activeTabId;
      && HasTab(rest, active)
      && active ==
           if pane.activeTabId != closed.id then pane.activeTabId
           else if closed.previousActive.Some? then closed.previousActive.value
           else rest[0].id
  {
    CutHasOthers(pane, i);
    HasItsTab(pane.tabs[..i] + pane.tabs[i + 1..], 0);
    hide HasTab, DistinctTabs;
    assert Remembers(pane.tabs, pane.tabs[i]) || pane.tabs[i].previousActive.None?;
  }

  lemma CutCloses(pane: Pane, i: nat)
    requires PaneOk(pane) && DistinctTabs(pane.tabs) && i < |pane.tabs| && |pane.tabs| > 1
    ensures
      var closed, rest := pane.tabs[i], pane.tabs[..i] + pane.tabs[i + 1..];
      var active := if pane.activeTabId == closed.id then FallbackActive(Some(closed), rest) else pane.activeTabId;
      ClosesAt(pane, NormalizeHistory(Pane(pane.id, rest, active)), i)
      && NormalizeHistory(Pane(pane.id, rest, active)).id == pane.id
  {
    CutForgets(pane, i);
    CutShows(pane, i);
    hide HasTab, DistinctTabs, PaneOk, NormalizeTab, FallbackActive;
  }

  lemma CutHas(tabs: seq<Tab>, i: nat, id: Id)
    requires DistinctTabs(tabs) && i < |tabs|
    ensures HasTab(tabs[..i] + tabs[i + 1..], id) <==> HasTab(tabs, id) && id != tabs[i].id
  {
    var rest := tabs[..i] + tabs[i + 1..];
    if HasTab(tabs, id) && id != tabs[i].id {
      CutKeepsOthers(tabs, i, id);
    }
    if HasTab(rest, id) {
      var k := FindTab(rest, id);
      assert rest[k] == tabs[if k < i then k else k + 1];
    }
  }

  /** What an operation is to do inside a pane. */
  ghost predicate Does(before: Pane, after: Pane, edit: Edit) {
    match edit
    case Open(tab) => TakesIn(before, after, tab, None, End)
    case ShowTool(tool, created) =>
      if exists k | 0 <= k < |before.tabs| :: before.tabs[k].tool == tool
      then exists k | 0 <= k < |before.tabs| :: FirstOfTool(before.tabs, tool, k) && Shows(before, after, before.tabs[k].id)
      else TakesIn(before, after, created, None, End)
    case Copy(copy, original) => TakesIn(before, after, copy, Some(original), After)
    case Show(tabId) => if HasTab(before.tabs, tabId) then Shows(before, after, tabId) else after == before
    case Close(tabId) =>
      if |before.tabs| > 1 && HasTab(before.tabs, tabId) then Closes(before, after, tabId) else after == before
    case Shift(tabId, target, position) =>
      if target != Some(tabId) && HasTab(before.tabs, tabId) then
        exists i | 0 <= i < |before.tabs| :: before.tabs[i].id == tabId && Shifts(before, after, i, target, position)
      else after == before
  }

  predicate FirstOfTool(tabs: seq<Tab>, tool: string, k: nat)
    requires k < |tabs|
  {
    tabs[k].tool == tool && forall j | 0 <= j < k :: tabs[j].tool != tool
  }

  /** Tab `i` is taken out, put in again where it was dropped, and shown. */
  ghost predicate Shifts(before: Pane, after: Pane, i: nat, target: Option<Id>, position: DropPosition)
    requires i < |before.tabs|
  {
    exists tabs: seq<Tab> ::
      && Inserts(before.tabs[..i] + before.tabs[i + 1..], tabs, before.tabs[i], target, position)
      && Shows(before.(tabs := tabs), after, before.tabs[i].id)
  }

  lemma ShiftEffect(pane: Pane, id: Id, target: Option<Id>, position: DropPosition)
    requires PaneOk(pane) && DistinctTabs(pane.tabs) && HasTab(pane.tabs, id) && target != Some(id)
    ensures Shifts(pane, MoveWithin(pane, id, target, position), FindTab(pane.tabs, id), target, position)
  {
    hide Activate, Shows, Inserts, InsertTab;
    var i := FindTab(pane.tabs, id);
    var rest := pane.tabs[..i] + pane.tabs[i + 1..];
    WithoutTabTakesOne(pane.tabs, id);
    var tabs := InsertTab(rest, pane.tabs[i], target, position);
    InsertEffect(rest, pane.tabs[i], target, position);
    ShiftIsReady(pane, i, tabs, target, position);
    ActivateEffect(pane.(tabs := tabs), id);
  }

  lemma ShiftIsReady(pane: Pane, i: nat, tabs: seq<Tab>, target: Option<Id>, position: DropPosition)
    requires PaneOk(pane) && DistinctTabs(pane.tabs) && i < |pane.tabs|
    requires Inserts(pane.tabs[..i] + pane.tabs[i + 1..], tabs, pane.tabs[i], target, position)
    ensures HasTab(tabs, pane.activeTabId) && HasTab(tabs, pane.tabs[i].id)
    ensures forall k | 0 <= k < |tabs| && tabs[k].previousActive.Some? :: Remembers(tabs, tabs[k])
  {
    hide DistinctTabs, HasTab;
    SameTabs(pane, i, tabs, target, position);
    HasItsTab(pane.tabs, i);
    forall k | 0 <= k < |tabs| && tabs[k].previousActive.Some? ensures Remembers(tabs, tabs[k]) {
      var j :| 0 <= j < |pane.tabs| && pane.tabs[j] == tabs[k];
      assert Remembers(pane.tabs, pane.tabs[j]);
    }
  }

  lemma SameMembersSameHas(a: seq<Tab>, b: seq<Tab>, id: Id)
    requires HasTab(a, id) && forall tab | tab in a :: tab in b
    ensures HasTab(b, id)
  {
    assert a[FindTab(a, id)] in b;
  }

  lemma MembersOfCut(tabs: seq<Tab>, i: nat, tab: Tab)
    requires i < |tabs|
    ensures tab in tabs <==> tab in tabs[..i] + tabs[i + 1..] || tab == tabs[i]
  {
    assert tabs == tabs[..i] + [tabs[i]] + tabs[i + 1..];
  }

  /** Taking a tab out and putting it in again leaves the same tabs. */
  lemma SameTabs(pane: Pane, i: nat, tabs: seq<Tab>, target: Option<Id>, position: DropPosition)
    requires i < |pane.tabs|
    requires Inserts(pane.tabs[..i] + pane.tabs[i + 1..], tabs, pane.tabs[i], target, position)
    ensures forall id :: HasTab(pane.tabs, id) ==> HasTab(tabs, id)
    ensures forall k | 0 <= k < |tabs| :: tabs[k] in pane.tabs
  {
    hide HasTab;
    var rest := pane.tabs[..i] + pane.tabs[i + 1..];
    var at :| 0 <= at < |tabs| && InsertsAt(rest, tabs, pane.tabs[i], target, position, at);
    forall tab ensures tab in tabs <==> tab in pane.tabs {
      MembersOfCut(pane.tabs, i, tab);
      MembersOfCut(tabs, at, tab);
    }
    forall id | HasTab(pane.tabs, id) ensures HasTab(tabs, id) {
      SameMembersSameHas(pane.tabs, tabs, id);
    }
  }

  /** The tab that an edit would bring in has an id that the pane does not have. */
  ghost predicate Fresh(pane: Pane, edit: Edit) {
    match edit
    case Open(tab) => !HasTab(pane.tabs, tab.id)
    case ShowTool(_, created) => !HasTab(pane.tabs, created.id)
    case Copy(copy, _) => !HasTab(pane.tabs, copy.id)
    case _ => true
  }

  /** Every edit of a pane in order does what it is to do. */
  lemma EditEffect(pane: Pane, edit: Edit)
    requires PaneOk(pane) && DistinctTabs(pane.tabs) && Fresh(pane, edit)
    ensures Does(pane, Edited(pane, edit), edit)
  {
    hide Activate, InsertTab, Release, MoveWithin, Shows, TakesIn, Closes, Shifts;
    match edit
    case Open(tab) =>
      ReceiveEffect(pane, tab, None, End);
      AppendIsInsertAtEnd(pane.tabs, tab);
    case ShowTool(tool, created) =>
      var k := FindTool(pane.tabs, tool);
      if k < |pane.tabs| {
        assert FirstOfTool(pane.tabs, tool, k);
        HasItsTab(pane.tabs, k);
        ShowEffect(pane, pane.tabs[k].id);
      } else {
        ReceiveEffect(pane, created, None, End);
        AppendIsInsertAtEnd(pane.tabs, created);
      }
    case Copy(copy, original) => ReceiveEffect(pane, copy, Some(original), After);
    case Show(tabId) => ShowEffect(pane, tabId);
    case Close(tabId) =>
      if |pane.tabs| > 1 && HasTab(pane.tabs, tabId) {
        ReleaseEffect(pane, tabId);
      } else if |pane.tabs| > 1 {
        ReleaseNothing(pane, tabId);
      }
    case Shift(tabId, target, position) =>
      if target != Some(tabId) && HasTab(pane.tabs, tabId) {
        ShiftEffect(pane, tabId, target, position);
      } else {
        ShiftNothing(pane, tabId, target, position);
      }
  }

  lemma HasItsTab(tabs: seq<Tab>, k: nat)
    requires k < |tabs|
    ensures HasTab(tabs, tabs[k].id)
  {
  }

  lemma ShowEffect(pane: Pane, id: Id)
    requires PaneOk(pane)
    ensures if HasTab(pane.tabs, id) then Shows(pane, Activate(pane, id), id) else Activate(pane, id) == pane
  {
    if HasTab(pane.tabs, id) {
      ActivateEffect(pane, id);
      hide Activate, Shows;
    } else {
      NormalizeKeeps(pane);
    }
  }

  lemma ReleaseNothing(pane: Pane, id: Id)
    requires PaneOk(pane) && !HasTab(pane.tabs, id)
    ensures Release(pane, id) == pane
  {
    WithoutTabTakesNone(pane.tabs, id);
    NormalizeKeeps(pane);
  }

  lemma ShiftNothing(pane: Pane, id: Id, target: Option<Id>, position: DropPosition)
    requires target == Some(id) || !HasTab(pane.tabs, id)
    ensures MoveWithin(pane, id, target, position) == pane
  {
  }

  // ---------- all panes ----------

  /** Pane `id` is edited, every other pane is as it was, in the same order. */
  ghost predicate EditsOne(before: seq<Pane>, after: seq<Pane>, id: Id, edit: Edit) {
    && |after| == |before|
    && forall k | 0 <= k < |before| ::
         if before[k].id == id then Does(before[k], after[k], edit) else after[k] == before[k]
  }

  lemma UnusedIsFresh(panes: seq<Pane>, i: nat, edit: Edit)
    requires i < |panes| && Unused(panes, edit)
    ensures Fresh(panes[i], edit)
  {
    if edit.Open? || edit.ShowTool? || edit.Copy? {
      var id := if edit.Open? then edit.tab.id else if edit.ShowTool? then edit.created.id else edit.copy.id;
      if HasTab(panes[i].tabs, id) {
        AllTabsAt(panes, i, FindTab(panes[i].tabs, id));
      }
    }
  }

  lemma {:induction false} AllTabsAt(panes: seq<Pane>, i: nat, k: nat)
    requires i < |panes| && k < |panes[i].tabs|
    ensures BareTab(panes[i].tabs[k]) in AllTabs(panes)
  {
    if i == 0 {
      assert Bare(panes[0].tabs)[k] == BareTab(panes[0].tabs[k]);
    } else {
      AllTabsAt(panes[1..], i - 1, k);
    }
  }

  lemma UpdateEditsOne(panes: seq<Pane>, i: nat, edited: Pane, edit: Edit)
    requires DistinctPanes(panes) && i < |panes| && Does(panes[i], edited, edit)
    ensures EditsOne(panes, panes[i := edited], panes[i].id, edit)
  {
    hide Does;
  }

  lemma NoneEdited(panes: seq<Pane>, id: Id, edit: Edit)
    requires !HasPane(panes, id)
    ensures EditsOne(panes, panes, id, edit)
  {
    hide Does;
  }

  /** An operation on one pane of a workbench in order does there what it is to do, and nothing elsewhere. */
  lemma EditsOneExactly(s: State, id: Id, edit: Edit)
    requires Valid(s) && Unused(s.panes, edit)
    ensures EditsOne(s.panes, EditPane(s.panes, id, edit), id, edit)
  {
    hide Does, Edited, PaneOk, Unused, EditsOne, EditPane, AllTabs, DistinctTabs;
    EditPaneIsUpdate(s.panes, id, edit);
    if HasPane(s.panes, id) {
      var i := FindPane(s.panes, id);
      TabsOfOnePane(s.panes, i);
      UnusedIsFresh(s.panes, i, edit);
      EditEffect(s.panes[i], edit);
      UpdateEditsOne(s.panes, i, Edited(s.panes[i], edit), edit);
    } else {
      NoneEdited(s.panes, id, edit);
    }
  }

  // ---------- moves between panes ----------

  lemma {:induction false} MoveBetweenParts(a: seq<Pane>, b: seq<Pane>, source: Id, tab: Tab, target: Id,
                                            targetTab: Option<Id>, position: DropPosition)
    ensures MoveBetween(a + b, source, tab, target, targetTab, position)
      == MoveBetween(a, source, tab, target, targetTab, position) + MoveBetween(b, source, tab, target, targetTab, position)
  {
    hide MovedPane;
    if a == [] {
      assert a + b == b;
    } else {
      MoveBetweenParts(a[1..], b, source, tab, target, targetTab, position);
      assert (a + b)[1..] == a[1..] + b;
    }
  }

  lemma {:induction false} MoveBetweenOthers(panes: seq<Pane>, source: Id, tab: Tab, target: Id,
                                             targetTab: Option<Id>, position: DropPosition)
    requires forall pane | pane in panes :: pane.id != source && pane.id != target
    ensures MoveBetween(panes, source, tab, target, targetTab, position) == panes
  {
    hide Leave, Receive;
    if panes != [] {
      MoveBetweenOthers(panes[1..], source, tab, target, targetTab, position);
    }
  }

  lemma MoveBetweenOne(pane: Pane, source: Id, tab: Tab, target: Id, targetTab: Option<Id>, position: DropPosition)
    ensures MoveBetween([pane], source, tab, target, targetTab, position)
      == MovedPane(pane, source, tab, target, targetTab, position)
  {
    hide MovedPane;
    assert [pane][1..] == [];
  }

  /** The panes with pane `j` replaced and pane `i` replaced or gone. */
  function Replaced(panes: seq<Pane>, i: nat, left: Option<Pane>, j: nat, received: Pane): (r: seq<Pane>)
    requires i < |panes| && j < |panes|
  {
    var changed := panes[j := received];
    if left.Some? then changed[i := left.value] else changed[..i] + changed[i + 1..]
  }

  lemma MoveBetweenFive(a: seq<Pane>, x: Pane, b: seq<Pane>, y: Pane, c: seq<Pane>, source: Id, tab: Tab, target: Id,
                        targetTab: Option<Id>, position: DropPosition)
    requires forall pane | pane in a || pane in b || pane in c :: pane.id != source && pane.id != target
    ensures MoveBetween(a + [x] + b + [y] + c, source, tab, target, targetTab, position)
      == a + MovedPane(x, source, tab, target, targetTab, position) + b
         + MovedPane(y, source, tab, target, targetTab, position) + c
  {
    hide MovedPane, MoveBetween;
    MoveBetweenParts(a + [x] + b + [y], c, source, tab, target, targetTab, position);
    MoveBetweenParts(a + [x] + b, [y], source, tab, target, targetTab, position);
    MoveBetweenParts(a + [x], b, source, tab, target, targetTab, position);
    MoveBetweenParts(a, [x], source, tab, target, targetTab, position);
    MoveBetweenOne(x, source, tab, target, targetTab, position);
    MoveBetweenOne(y, source, tab, target, targetTab, position);
    MoveBetweenOthers(a, source, tab, target, targetTab, position);
    MoveBetweenOthers(b, source, tab, target, targetTab, position);
    MoveBetweenOthers(c, source, tab, target, targetTab, position);
  }

  function Left(pane: Pane, tabId: Id): (r: Option<Pane>) {
    if WithoutTab(pane.tabs, tabId) == [] then None else Some(Release(pane, tabId))
  }

  function AsList(pane: Option<Pane>): (r: seq<Pane>) {
    if pane.Some? then [pane.value] else []
  }

  lemma ReplacedParts(a: seq<Pane>, x: Pane, b: seq<Pane>, y: Pane, c: seq<Pane>, left: Option<Pane>, received: Pane)
    ensures Replaced(a + [x] + b + [y] + c, |a|, left, |a| + 1 + |b|, received) == a + AsList(left) + b + [received] + c
    ensures Replaced(a + [x] + b + [y] + c, |a| + 1 + |b|, left, |a|, received) == a + [received] + b + AsList(left) + c
  {
    var panes := a + [x] + b + [y] + c;
    var later, sooner := panes[|a| + 1 + |b| := received], panes[|a| := received];
    assert later == a + [x] + b + [received] + c && sooner == a + [received] + b + [y] + c;
    if left.Some? {
      assert later[|a| := left.value] == a + [left.value] + b + [received] + c;
      assert sooner[|a| + 1 + |b| := left.value] == a + [received] + b + [left.value] + c;
    } else {
      assert later[..|a|] == a && later[|a| + 1..] == b + [received] + c;
      assert sooner[..|a| + 1 + |b|] == a + [received] + b && sooner[|a| + 1 + |b| + 1..] == c;
    }
  }

  lemma MovedSource(pane: Pane, tab: Tab, target: Id, targetTab: Option<Id>, position: DropPosition)
    ensures MovedPane(pane, pane.id, tab, target, targetTab, position) == AsList(Left(pane, tab.id))
  {
    hide Release, WithoutTab;
  }

  lemma MoveBetweenReplaces(panes: seq<Pane>, i: nat, tab: Tab, j: nat, targetTab: Option<Id>, position: DropPosition)
    requires DistinctPanes(panes) && i < |panes| && j < |panes| && i != j
    ensures MoveBetween(panes, panes[i].id, tab, panes[j].id, targetTab, position)
      == Replaced(panes, i, Left(panes[i], tab.id), j, Receive(panes[j], tab, targetTab, position))
  {
    hide MoveBetween, Left, Receive, MovedPane, Replaced;
    var lo, hi := if i < j then i else j, if i < j then j else i;
    var a, b, c := panes[..lo], panes[lo + 1..hi], panes[hi + 1..];
    assert panes == a + [panes[lo]] + b + [panes[hi]] + c;
    MoveBetweenFive(a, panes[lo], b, panes[hi], c, panes[i].id, tab, panes[j].id, targetTab, position);
    MovedSource(panes[i], tab, panes[j].id, targetTab, position);
    MovedTarget(panes[j], panes[i].id, tab, panes[j].id, targetTab, position);
    ReplacedParts(a, panes[lo], b, panes[hi], c, Left(panes[i], tab.id), Receive(panes[j], tab, targetTab, position));
  }

  /** The tab leaves pane `i`, which goes if it was its last, and pane `j` takes it in and shows it. */
  ghost predicate Moves(before: seq<Pane>, after: seq<Pane>, i: nat, tab: Tab, j: nat, target: Option<Id>,
                        position: DropPosition)
    requires i < |before| && j < |before|
  {
    exists left: Option<Pane>, received: Pane ::
      && after == Replaced(before, i, left, j, received)
      && TakesIn(before[j], received, tab, target, position)
      && (left.Some? <==> |before[i].tabs| > 1)
      && (left.Some? ==> Closes(before[i], left.value, tab.id))
  }

  lemma LeftEffect(pane: Pane, id: Id)
    requires PaneOk(pane) && DistinctTabs(pane.tabs) && HasTab(pane.tabs, id)
    ensures Left(pane, id).Some? <==> |pane.tabs| > 1
    ensures Left(pane, id).Some? ==> Closes(pane, Left(pane, id).value, id)
  {
    WithoutTabTakesOne(pane.tabs, id);
    if |pane.tabs| > 1 {
      ReleaseEffect(pane, id);
    }
    hide Closes, Release;
  }

  /** A move between panes does exactly that: no other pane and no other tab changes. */
  lemma MovesExactly(s: State, source: Id, tabId: Id, target: Id, targetTab: Option<Id>, position: DropPosition)
    requires Valid(s) && source != target && HasPane(s.panes, source) && HasPane(s.panes, target)
    requires HasTab(s.panes[FindPane(s.panes, source)].tabs, tabId)
    ensures
      var i, j := FindPane(s.panes, source), FindPane(s.panes, target);
      var tab := s.panes[i].tabs[FindTab(s.panes[i].tabs, tabId)];
      && Moves(s.panes, MoveTab(s, source, tabId, target, targetTab, position).0.panes, i, tab, j, targetTab, position)
      && MoveTab(s, source, tabId, target, targetTab, position).0.activePaneId == Some(target)
  {
    var i, j := FindPane(s.panes, source), FindPane(s.panes, target);
    var tab := s.panes[i].tabs[FindTab(s.panes[i].tabs, tabId)];
    TabsOfOnePane(s.panes, i);
    OtherPaneLacks(s.panes, i, FindTab(s.panes[i].tabs, tabId), j);
    hide PaneOk, MoveBetween, Closes, TakesIn, AllTabs, DistinctTabs, Release, Receive, Left;
    MoveBetweenReplaces(s.panes, i, tab, j, targetTab, position);
    LeftEffect(s.panes[i], tabId);
    ReceiveEffect(s.panes[j], tab, targetTab, position);
  }

  /** A tab of one pane is in no other. */
  lemma OtherPaneLacks(panes: seq<Pane>, i: nat, k: nat, j: nat)
    requires DistinctTabs(AllTabs(panes)) && i < |panes| && j < |panes| && i != j && k < |panes[i].tabs|
    ensures !HasTab(panes[j].tabs, panes[i].tabs[k].id)
  {
    if HasTab(panes[j].tabs, panes[i].tabs[k].id) {
      var m := FindTab(panes[j].tabs, panes[i].tabs[k].id);
      if i < j {
        SameIdTwice(panes, i, k, j, m);
      } else {
        SameIdTwice(panes, j, m, i, k);
      }
    }
  }

  lemma {:induction false} SameIdTwice(panes: seq<Pane>, i: nat, k: nat, j: nat, m: nat)
    requires i < j < |panes| && k < |panes[i].tabs| && m < |panes[j].tabs|
    requires panes[i].tabs[k].id == panes[j].tabs[m].id
    ensures !DistinctTabs(AllTabs(panes))
  {
    var first, rest := Bare(panes[0].tabs), AllTabs(panes[1..]);
    if i == 0 {
      AllTabsAt(panes[1..], j - 1, m);
      var n :| 0 <= n < |rest| && rest[n] == BareTab(panes[j].tabs[m]);
      assert (first + rest)[k].id == panes[0].tabs[k].id && (first + rest)[|first| + n].id == panes[j].tabs[m].id;
    } else {
      SameIdTwice(panes[1..], i - 1, k, j - 1, m);
      var a, b :| 0 <= a < b < |rest| && rest[a].id == rest[b].id;
      assert (first + rest)[|first| + a] == rest[a] && (first + rest)[|first| + b] == rest[b];
    }
  }

  lemma {:induction false} MoveOutOthers(panes: seq<Pane>, source: Id, tabId: Id)
    requires forall pane | pane in panes :: pane.id != source
    ensures MoveOut(panes, source, tabId) == panes
  {
    hide Leave;
    if panes != [] {
      MoveOutOthers(panes[1..], source, tabId);
    }
  }

  lemma {:induction false} MoveOutOne(front: seq<Pane>, pane: Pane, back: seq<Pane>, tabId: Id)
    requires forall other | other in front || other in back :: other.id != pane.id
    ensures MoveOut(front + ([pane] + back), pane.id, tabId) == front + (Leave(pane, tabId) + back)
  {
    hide Leave;
    if front == [] {
      MoveOutOthers(back, pane.id, tabId);
      assert [] + ([pane] + back) == [pane] + back && ([pane] + back)[1..] == back;
    } else {
      MoveOutOne(front[1..], pane, back, tabId);
      assert (front + ([pane] + back))[1..] == front[1..] + ([pane] + back);
      Regroup([front[0]], front[1..], Leave(pane, tabId) + back);
      assert [front[0]] + front[1..] == front;
    }
  }

  lemma MoveOutReplaces(panes: seq<Pane>, i: nat, tabId: Id)
    requires DistinctPanes(panes) && i < |panes|
    ensures
      var left := Left(panes[i], tabId);
      MoveOut(panes, panes[i].id, tabId) ==
        if left.Some? then panes[i := left.value] else panes[..i] + panes[i + 1..]
  {
    hide Release, WithoutTab, MoveOut;
    var front, back := panes[..i], panes[i + 1..];
    assert panes == front + ([panes[i]] + back);
    MoveOutOne(front, panes[i], back, tabId);
  }

  /** The tab leaves pane `i`, which goes if it was its last; the other panes stay. */
  ghost predicate Leaves(before: seq<Pane>, after: seq<Pane>, i: nat, tabId: Id)
    requires i < |before|
  {
    if |before[i].tabs| == 1 then after == before[..i] + before[i + 1..]
    else exists left: Pane :: Closes(before[i], left, tabId) && after == before[i := left]
  }

  lemma TabLeaves(s: State, i: nat, tabId: Id)
    requires Valid(s) && i < |s.panes| && HasTab(s.panes[i].tabs, tabId)
    ensures Leaves(s.panes, MoveOut(s.panes, s.panes[i].id, tabId), i, tabId) && s.panes[i].tabs != []
  {
    hide Closes, AllTabs, DistinctTabs, MoveOut, Left, Remembers;
    PaneHasTabs(s.panes[i]);
    TabsOfOnePane(s.panes, i);
    hide PaneOk, HasTab;
    MoveOutReplaces(s.panes, i, tabId);
    LeftEffect(s.panes[i], tabId);
  }

  /** A move to a pane of its own: the tab leaves its pane and a last pane has it alone, remembering nothing; the
      only tab of a pane is not moved out of it onto itself. */
  ghost predicate MovesOut(before: State, after: State, source: Id, tabId: Id, target: Id, newPane: Id)
  {
    var i := FindPane(before.panes, source);
    if i < |before.panes| && HasTab(before.panes[i].tabs, tabId) && !(source == target && |before.panes[i].tabs| == 1) then
      var tab := before.panes[i].tabs[FindTab(before.panes[i].tabs, tabId)];
      && after.activePaneId == Some(newPane) && after.panes != []
      && Last(after.panes) == Pane(newPane, [tab.(previousActive := None)], tabId)
      && Leaves(before.panes, Front(after.panes), i, tabId)
    else after == before
  }

  lemma LastStands(panes: seq<Pane>, pane: Pane)
    ensures Front(panes + [pane]) == panes && Last(panes + [pane]) == pane
  {
  }

  lemma MovesOutExactly(s: State, source: Id, tabId: Id, target: Id, newPane: Id)
    requires Valid(s)
    ensures MovesOut(s, MoveTabToNewPane(s, source, tabId, target, newPane).0, source, tabId, target, newPane)
  {
    var i := FindPane(s.panes, source);
    if i < |s.panes| && HasTab(s.panes[i].tabs, tabId) {
      TabLeaves(s, i, tabId);
      var tab := s.panes[i].tabs[FindTab(s.panes[i].tabs, tabId)];
      LastStands(MoveOut(s.panes, source, tabId), Pane(newPane, [tab.(previousActive := None)], tabId));
    }
    hide Leaves, MoveOut, Valid, HasTab, FindTab, FindPane;
  }
}
