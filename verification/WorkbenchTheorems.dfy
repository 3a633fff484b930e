/** Every operation keeps the workbench in order, and moving tabs conserves them. */
module WorkbenchTheorems {
  import opened Wrappers
  import opened Workbench
  import opened WorkbenchLaws

  ghost function Bag(panes: seq<Pane>): (tabs: multiset<Tab>) {
    multiset(AllTabs(panes))
  }

  // ---------- collections of tabs ----------

  lemma PartOf(a: multiset<Tab>, b: multiset<Tab>, c: multiset<Tab>)
    requires a + b == c
    ensures a <= c
  {
    forall tab ensures a[tab] <= c[tab] {
      assert (a + b)[tab] == c[tab];
    }
  }

  /** If exchanging `x` for `y` turns `p` into `q`, and `y` is `x` without `less` and with `more`. */
  lemma Exchange(p: multiset<Tab>, q: multiset<Tab>, x: multiset<Tab>, y: multiset<Tab>,
                 less: multiset<Tab>, more: multiset<Tab>)
    requires p + y == q + x && y + less == x + more
    ensures q + less == p + more
  {
    forall tab ensures (q + less)[tab] == (p + more)[tab] {
      assert (p + y)[tab] == (q + x)[tab] && (y + less)[tab] == (x + more)[tab];
    }
  }

  lemma Cancel(a: multiset<Tab>, b: multiset<Tab>, c: multiset<Tab>)
    requires a + c == b + c
    ensures a == b
  {
    forall tab ensures a[tab] == b[tab] {
      assert (a + c)[tab] == (b + c)[tab];
    }
  }

  // ---------- lists of panes ----------

  lemma {:induction false} AllTabsOfConcat(a: seq<Pane>, b: seq<Pane>)
    ensures AllTabs(a + b) == AllTabs(a) + AllTabs(b)
  {
    if a == [] {
      assert a + b == b;
    } else {
      assert (a + b)[1..] == a[1..] + b;
      AllTabsOfConcat(a[1..], b);
    }
  }

  lemma AllTabsOfOne(pane: Pane)
    ensures AllTabs([pane]) == Bare(pane.tabs)
  {
    assert [pane][1..] == [];
  }

  lemma BagAround(front: seq<Pane>, pane: Pane, back: seq<Pane>)
    ensures Bag(front + [pane] + back) == Bag(front) + multiset(Bare(pane.tabs)) + Bag(back)
  {
    AllTabsOfConcat(front + [pane], back);
    AllTabsOfConcat(front, [pane]);
    AllTabsOfOne(pane);
  }

  lemma BagOfUpdate(panes: seq<Pane>, i: nat, pane: Pane)
    requires i < |panes|
    ensures Bag(panes) + multiset(Bare(pane.tabs)) == Bag(panes[i := pane]) + multiset(Bare(panes[i].tabs))
  {
    hide AllTabs, Bare;
    BagAround(panes[..i], panes[i], panes[i + 1..]);
    BagAround(panes[..i], pane, panes[i + 1..]);
    assert panes[..i] + [panes[i]] + panes[i + 1..] == panes;
    assert panes[..i] + [pane] + panes[i + 1..] == panes[i := pane];
  }

  /** Ids stay distinct in any part of a collection of distinct tabs. */
  lemma DistinctInPart(part: seq<Tab>, whole: seq<Tab>)
    requires DistinctTabs(whole) && multiset(part) <= multiset(whole)
    ensures DistinctTabs(part)
  {
    forall i, j | 0 <= i < j < |part| ensures part[i].id != part[j].id {
      assert part[i] in multiset(part) && part[j] in multiset(part);
      assert part[i] in whole && part[j] in whole;
      if part[i] == part[j] {
        TwiceIsTwo(part, i, j);
        OnlyOnce(whole, part[i]);
      }
    }
  }

  lemma {:induction false} OnlyOnce(tabs: seq<Tab>, tab: Tab)
    requires DistinctTabs(tabs)
    ensures multiset(tabs)[tab] <= 1
  {
    if tabs != [] {
      assert tabs == [tabs[0]] + tabs[1..];
      OnlyOnce(tabs[1..], tab);
      if tab == tabs[0] {
        assert tab !in tabs[1..];
      }
    }
  }

  lemma BareIsDistinct(tabs: seq<Tab>)
    ensures DistinctTabs(Bare(tabs)) <==> DistinctTabs(tabs)
  {
    forall j, k | 0 <= j < k < |tabs| ensures Bare(tabs)[j].id == tabs[j].id && Bare(tabs)[k].id == tabs[k].id { }
  }

  lemma TabsOfOnePane(panes: seq<Pane>, i: nat)
    requires i < |panes| && DistinctTabs(AllTabs(panes))
    ensures DistinctTabs(panes[i].tabs)
  {
    hide AllTabs, Bare, DistinctTabs;
    BagAround(panes[..i], panes[i], panes[i + 1..]);
    assert panes[..i] + [panes[i]] + panes[i + 1..] == panes;
    DistinctInPart(Bare(panes[i].tabs), AllTabs(panes));
    BareIsDistinct(panes[i].tabs);
  }

  // ---------- edits ----------

  lemma {:induction false} EditPaneIsUpdate(panes: seq<Pane>, id: Id, edit: Edit)
    requires DistinctPanes(panes)
    ensures EditPane(panes, id, edit) ==
      if HasPane(panes, id) then panes[FindPane(panes, id) := Edited(panes[FindPane(panes, id)], edit)] else panes
  {
    hide Edited;
    if panes != [] {
      EditPaneIsUpdate(panes[1..], id, edit);
      if panes[0].id == id {
        assert !HasPane(panes[1..], id);
      }
    }
  }

  /** The edit's new tab has an id that no tab has. */
  ghost predicate Unused(panes: seq<Pane>, edit: Edit) {
    match edit
    case Open(tab) => UnusedId(panes, tab.id)
    case ShowTool(_, created) => UnusedId(panes, created.id)
    case Copy(copy, _) => UnusedId(panes, copy.id)
    case _ => true
  }

  ghost predicate UnusedId(panes: seq<Pane>, id: Id) {
    forall i | 0 <= i < |AllTabs(panes)| :: AllTabs(panes)[i].id != id
  }

  /** What an edit of one pane does to the tabs of all panes. */
  lemma EditBag(panes: seq<Pane>, id: Id, edit: Edit)
    requires PanesOk(panes) && DistinctPanes(panes) && DistinctTabs(AllTabs(panes)) && HasPane(panes, id)
    ensures
      var pane := panes[FindPane(panes, id)];
      Bag(EditPane(panes, id, edit)) + TakenAway(pane, edit) == Bag(panes) + Brought(pane, edit)
  {
    hide PaneOk, Bare, AllTabs, DistinctTabs, TakenAway, Brought, Edited;
    var i := FindPane(panes, id);
    EditPaneIsUpdate(panes, id, edit);
    TabsOfOnePane(panes, i);
    EditKeepsPane(panes[i], edit);
    var edited := Edited(panes[i], edit);
    BagOfUpdate(panes, i, edited);
    Exchange(Bag(panes), Bag(panes[i := edited]), multiset(Bare(panes[i].tabs)), multiset(Bare(edited.tabs)),
             TakenAway(panes[i], edit), Brought(panes[i], edit));
  }

  lemma BroughtIsNew(panes: seq<Pane>, pane: Pane, edit: Edit, after: seq<Pane>)
    requires DistinctTabs(AllTabs(panes)) && Unused(panes, edit)
    requires Bag(after) + TakenAway(pane, edit) == Bag(panes) + Brought(pane, edit)
    ensures DistinctTabs(AllTabs(after))
  {
    hide AllTabs;
    var all := AllTabs(panes);
    PartOf(Bag(after), TakenAway(pane, edit), Bag(panes) + Brought(pane, edit));
    if Brought(pane, edit) == multiset{} {
      DistinctInPart(AllTabs(after), all);
    } else {
      var tab := BareTab(if edit.Open? then edit.tab else if edit.ShowTool? then edit.created else edit.copy);
      assert DistinctTabs(all + [tab]);
      DistinctInPart(AllTabs(after), all + [tab]);
    }
  }

  lemma SameIdsSamePanes(a: seq<Pane>, b: seq<Pane>)
    requires |a| == |b| && forall i | 0 <= i < |a| :: a[i].id == b[i].id
    ensures forall id :: HasPane(a, id) <==> HasPane(b, id)
  {
  }

  lemma EditKeepsPanes(panes: seq<Pane>, id: Id, edit: Edit)
    requires PanesOk(panes) && DistinctPanes(panes) && DistinctTabs(AllTabs(panes)) && Unused(panes, edit)
    ensures PanesOk(EditPane(panes, id, edit)) && DistinctPanes(EditPane(panes, id, edit))
    ensures DistinctTabs(AllTabs(EditPane(panes, id, edit)))
    ensures forall other :: HasPane(EditPane(panes, id, edit), other) <==> HasPane(panes, other)
  {
    hide PaneOk, Edited, DistinctTabs, Unused, AllTabs;
    EditPaneIsUpdate(panes, id, edit);
    if HasPane(panes, id) {
      var i := FindPane(panes, id);
      TabsOfOnePane(panes, i);
      EditKeepsPane(panes[i], edit);
      EditBag(panes, id, edit);
      BroughtIsNew(panes, panes[i], edit, EditPane(panes, id, edit));
      SameIdsSamePanes(panes, EditPane(panes, id, edit));
    }
  }

  /** An operation that edits one pane and makes it the active one keeps the workbench in order exactly when
      that pane exists. */
  lemma EditKeepsOrder(s: State, id: Id, edit: Edit)
    requires Valid(s) && Unused(s.panes, edit)
    ensures Valid(State(EditPane(s.panes, id, edit), Some(id))) <==> HasPane(s.panes, id)
  {
    hide PanesOk, DistinctPanes, DistinctTabs, Unused;
    EditKeepsPanes(s.panes, id, edit);
  }

  // ---------- moves ----------

  /** The tab that a move takes from its source, as one list of panes has it. */
  ghost predicate Carries(panes: seq<Pane>, source: Id, tab: Tab) {
    forall i | 0 <= i < |panes| && panes[i].id == source ::
      && DistinctTabs(panes[i].tabs)
      && HasTab(panes[i].tabs, tab.id) && panes[i].tabs[FindTab(panes[i].tabs, tab.id)] == tab
  }

  lemma LeaveTakesOne(pane: Pane, tab: Tab)
    requires PaneOk(pane) && DistinctTabs(pane.tabs)
    requires HasTab(pane.tabs, tab.id) && pane.tabs[FindTab(pane.tabs, tab.id)] == tab
    ensures PanesOk(Leave(pane, tab.id)) && |Leave(pane, tab.id)| == if |pane.tabs| <= 1 then 0 else 1
    ensures forall i | 0 <= i < |Leave(pane, tab.id)| :: Leave(pane, tab.id)[i].id == pane.id
    ensures Bag(Leave(pane, tab.id)) + multiset{BareTab(tab)} == multiset(Bare(pane.tabs))
  {
    WithoutTabTakesOne(pane.tabs, tab.id);
    if |pane.tabs| > 1 {
      ReleaseTakesOne(pane, tab.id);
      AllTabsOfOne(Release(pane, tab.id));
    } else {
      assert pane.tabs == [tab] && Bare(pane.tabs) == [BareTab(tab)];
    }
  }

  /** The tab, where a move puts it. */
  ghost function Arrived(panes: seq<Pane>, source: Id, target: Id, tab: Tab): (tabs: multiset<Tab>) {
    if source != target && HasPane(panes, target) then multiset{BareTab(tab)} else multiset{}
  }

  /** The tab, where a move takes it. */
  ghost function Departed(panes: seq<Pane>, source: Id, tab: Tab): (tabs: multiset<Tab>) {
    if HasPane(panes, source) then multiset{BareTab(tab)} else multiset{}
  }

  lemma MovedPaneIsKept(pane: Pane, source: Id, tab: Tab, target: Id, targetTab: Option<Id>, position: DropPosition)
    requires PaneOk(pane) && Carries([pane], source, tab)
    ensures
      var r := MovedPane(pane, source, tab, target, targetTab, position);
      && PanesOk(r) && |r| <= 1 && (forall i | 0 <= i < |r| :: r[i].id == pane.id)
      && (r == [] <==> pane.id == source && |pane.tabs| <= 1)
      && Bag(r) + Departed([pane], source, tab) == multiset(Bare(pane.tabs)) + Arrived([pane], source, target, tab)
  {
    hide Bare, Leave, Receive, PaneOk, AllTabs;
    OnePane(pane, source);
    OnePane(pane, target);
    hide HasPane;
    if pane.id == source {
      assert [pane][0].id == source;
      LeaveTakesOne(pane, tab);
    } else if pane.id == target {
      ReceiveAddsOne(pane, tab, targetTab, position);
      AllTabsOfOne(Receive(pane, tab, targetTab, position));
    } else {
      AllTabsOfOne(pane);
    }
  }

  lemma OnePane(pane: Pane, id: Id)
    ensures HasPane([pane], id) <==> pane.id == id
  {
    assert [pane][1..] == [];
  }

  lemma HasPaneInFront(front: seq<Pane>, back: seq<Pane>)
    requires |front| <= 1
    ensures forall id :: HasPane(front + back, id) <==> (front != [] && front[0].id == id) || HasPane(back, id)
  {
    assert front == [] ==> front + back == back;
    assert front != [] ==> (front + back)[1..] == back;
  }

  lemma InFront(front: seq<Pane>, back: seq<Pane>)
    requires |front| <= 1 && PanesOk(front) && PanesOk(back) && DistinctPanes(back)
    requires front != [] ==> !HasPane(back, front[0].id)
    ensures PanesOk(front + back) && DistinctPanes(front + back)
  {
    hide PaneOk;
    forall i | 0 <= i < |back| ensures front != [] ==> back[i].id != front[0].id { }
  }

  lemma {:induction false} MoveKeepsPanes(panes: seq<Pane>, source: Id, tab: Tab, target: Id,
                                          targetTab: Option<Id>, position: DropPosition)
    requires PanesOk(panes) && DistinctPanes(panes) && Carries(panes, source, tab)
    ensures
      var r := MoveBetween(panes, source, tab, target, targetTab, position);
      && PanesOk(r) && DistinctPanes(r)
      && (forall id | id != source :: HasPane(r, id) <==> HasPane(panes, id))
      && (HasPane(r, source) <==> HasPane(panes, source) && |panes[FindPane(panes, source)].tabs| > 1)
  {
    hide PaneOk, MovedPane, Bag, Arrived, Departed, DistinctTabs;
    if panes != [] {
      var first := MovedPane(panes[0], source, tab, target, targetTab, position);
      var rest := MoveBetween(panes[1..], source, tab, target, targetTab, position);
      MoveKeepsPanes(panes[1..], source, tab, target, targetTab, position);
      assert Carries([panes[0]], source, tab);
      MovedPaneIsKept(panes[0], source, tab, target, targetTab, position);
      hide PanesOk, Carries;
      assert !HasPane(panes[1..], panes[0].id);
      HasPaneInFront([panes[0]], panes[1..]);
      assert [panes[0]] + panes[1..] == panes;
      HasPaneInFront(first, rest);
      InFront(first, rest);
    }
  }

  lemma SumsJoin(a: multiset<Tab>, less: multiset<Tab>, b: multiset<Tab>, more: multiset<Tab>,
                 a': multiset<Tab>, less': multiset<Tab>, b': multiset<Tab>, more': multiset<Tab>)
    requires a + less == b + more && a' + less' == b' + more'
    ensures (a + a') + (less + less') == (b + b') + (more + more')
  {
    forall tab ensures ((a + a') + (less + less'))[tab] == ((b + b') + (more + more'))[tab] {
      assert (a + less)[tab] == (b + more)[tab] && (a' + less')[tab] == (b' + more')[tab];
    }
  }

  lemma PassageSplits(panes: seq<Pane>, source: Id, target: Id, tab: Tab)
    requires panes != [] && DistinctPanes(panes)
    ensures Departed(panes, source, tab) == Departed(panes[..1], source, tab) + Departed(panes[1..], source, tab)
    ensures Arrived(panes, source, target, tab)
      == Arrived(panes[..1], source, target, tab) + Arrived(panes[1..], source, target, tab)
  {
    assert !HasPane(panes[1..], panes[0].id);
    assert panes[..1] == [panes[0]];
  }

  /** The tabs of all panes change by the tab leaving its source and arriving at its target. */
  lemma {:induction false} MoveBag(panes: seq<Pane>, source: Id, tab: Tab, target: Id,
                                   targetTab: Option<Id>, position: DropPosition)
    requires PanesOk(panes) && DistinctPanes(panes) && Carries(panes, source, tab)
    ensures Bag(MoveBetween(panes, source, tab, target, targetTab, position)) + Departed(panes, source, tab)
      == Bag(panes) + Arrived(panes, source, target, tab)
  {
    hide PaneOk, MovedPane, Bare, DistinctTabs;
    if panes != [] {
      var rest := MoveBetween(panes[1..], source, tab, target, targetTab, position);
      MoveBag(panes[1..], source, tab, target, targetTab, position);
      var first := MovedPane(panes[0], source, tab, target, targetTab, position);
      assert panes[..1] == [panes[0]] && Carries(panes[..1], source, tab);
      MovedPaneIsKept(panes[0], source, tab, target, targetTab, position);
      AllTabsOfConcat(first, rest);
      PassageSplits(panes, source, target, tab);
      hide Departed, Arrived;
      SumsJoin(Bag(first), Departed(panes[..1], source, tab), multiset(Bare(panes[0].tabs)),
               Arrived(panes[..1], source, target, tab),
               Bag(rest), Departed(panes[1..], source, tab), Bag(panes[1..]),
               Arrived(panes[1..], source, target, tab));
    }
  }

  lemma MovedPaneShape(pane: Pane, source: Id, tab: Tab, target: Id, targetTab: Option<Id>, position: DropPosition)
    ensures
      var r := MovedPane(pane, source, tab, target, targetTab, position);
      |r| <= 1 && forall i | 0 <= i < |r| :: r[i].id == pane.id
  {
  }

  lemma FindBehind(front: seq<Pane>, back: seq<Pane>, id: Id)
    requires |front| <= 1 && (front != [] ==> front[0].id != id) && HasPane(back, id)
    ensures HasPane(front + back, id) && (front + back)[FindPane(front + back, id)] == back[FindPane(back, id)]
  {
    assert front == [] ==> front + back == back;
    assert front != [] ==> (front + back)[1..] == back;
  }

  /** A moved tab arrives in the target pane, at the place it was dropped. */
  lemma {:induction false} MoveLands(panes: seq<Pane>, source: Id, tab: Tab, target: Id,
                                     targetTab: Option<Id>, position: DropPosition)
    requires DistinctPanes(panes) && source != target && HasPane(panes, target)
    ensures
      var r := MoveBetween(panes, source, tab, target, targetTab, position);
      && HasPane(r, target)
      && r[FindPane(r, target)] == Receive(panes[FindPane(panes, target)], tab, targetTab, position)
  {
    hide MovedPane, Receive;
    MovedPaneShape(panes[0], source, tab, target, targetTab, position);
    var first := MovedPane(panes[0], source, tab, target, targetTab, position);
    var rest := MoveBetween(panes[1..], source, tab, target, targetTab, position);
    if panes[0].id == target {
      MovedTarget(panes[0], source, tab, target, targetTab, position);
      assert (first + rest)[0] == first[0];
    } else {
      MoveLands(panes[1..], source, tab, target, targetTab, position);
      FindBehind(first, rest, target);
    }
  }

  lemma MovedTarget(pane: Pane, source: Id, tab: Tab, target: Id, targetTab: Option<Id>, position: DropPosition)
    requires source != target && pane.id == target
    ensures MovedPane(pane, source, tab, target, targetTab, position) == [Receive(pane, tab, targetTab, position)]
  {
  }

  lemma ValidCarries(s: State, source: Id, tabId: Id)
    requires Valid(s) && HasPane(s.panes, source)
    requires HasTab(s.panes[FindPane(s.panes, source)].tabs, tabId)
    ensures
      var tabs := s.panes[FindPane(s.panes, source)].tabs;
      && DistinctTabs(tabs)
      && tabs[FindTab(tabs, tabId)].id == tabId
      && Carries(s.panes, source, tabs[FindTab(tabs, tabId)])
  {
    TabsOfOnePane(s.panes, FindPane(s.panes, source));
  }

  lemma SameBagIsDistinct(before: seq<Pane>, after: seq<Pane>)
    requires DistinctTabs(AllTabs(before)) && Bag(after) == Bag(before)
    ensures DistinctTabs(AllTabs(after))
  {
    DistinctInPart(AllTabs(after), AllTabs(before));
  }

  lemma MoveWithinKeeps(s: State, paneId: Id, tabId: Id, targetTab: Option<Id>, position: DropPosition)
    requires Valid(s) && HasPane(s.panes, paneId)
    ensures
      var after := State(EditPane(s.panes, paneId, Shift(tabId, targetTab, position)), Some(paneId));
      && Valid(after) && Bag(after.panes) == Bag(s.panes)
      && forall id :: HasPane(after.panes, id) <==> HasPane(s.panes, id)
  {
    hide Bag, PanesOk, DistinctPanes, DistinctTabs, EditPane;
    var edit := Shift(tabId, targetTab, position);
    EditKeepsPanes(s.panes, paneId, edit);
    EditBag(s.panes, paneId, edit);
    Cancel(Bag(EditPane(s.panes, paneId, edit)), Bag(s.panes), multiset{});
  }

  lemma MoveAcrossKeeps(s: State, source: Id, tabId: Id, target: Id, targetTab: Option<Id>, position: DropPosition)
    requires Valid(s) && source != target && HasPane(s.panes, source) && HasPane(s.panes, target)
    requires HasTab(s.panes[FindPane(s.panes, source)].tabs, tabId)
    ensures
      var tabs := s.panes[FindPane(s.panes, source)].tabs;
      var after := MoveBetween(s.panes, source, tabs[FindTab(tabs, tabId)], target, targetTab, position);
      && Valid(State(after, Some(target))) && Bag(after) == Bag(s.panes)
      && (HasPane(after, source) <==> |tabs| > 1)
      && forall id | id != source :: HasPane(after, id) <==> HasPane(s.panes, id)
  {
    hide Bag, PanesOk, DistinctPanes, DistinctTabs, MoveBetween, Carries;
    ValidCarries(s, source, tabId);
    var tabs := s.panes[FindPane(s.panes, source)].tabs;
    var tab := tabs[FindTab(tabs, tabId)];
    var after := MoveBetween(s.panes, source, tab, target, targetTab, position);
    MoveKeepsPanes(s.panes, source, tab, target, targetTab, position);
    MoveBag(s.panes, source, tab, target, targetTab, position);
    Cancel(Bag(after), Bag(s.panes), multiset{BareTab(tab)});
    SameBagIsDistinct(s.panes, after);
  }

  /** Moving a tab, wherever it is dropped, keeps the workbench in order and loses or doubles no tab.  It
      reports the removal of the source pane exactly when that pane is gone; no other pane comes or goes. */
  lemma MoveTabConserves(s: State, source: Id, tabId: Id, target: Id, targetTab: Option<Id>, position: DropPosition)
    requires Valid(s)
    ensures
      var (after, sourceRemoved) := MoveTab(s, source, tabId, target, targetTab, position);
      && Valid(after) && Bag(after.panes) == Bag(s.panes)
      && (sourceRemoved <==> HasPane(s.panes, source) && !HasPane(after.panes, source))
      && (forall id | id != source :: HasPane(after.panes, id) <==> HasPane(s.panes, id))
  {
    var at := FindPane(s.panes, source);
    if at < |s.panes| && HasPane(s.panes, target) && HasTab(s.panes[at].tabs, tabId) {
      if source == target {
        MoveWithinKeeps(s, source, tabId, targetTab, position);
      } else {
        MoveAcrossKeeps(s, source, tabId, target, targetTab, position);
      }
    }
    hide Bag, Valid, EditPane, MoveBetween;
  }

  /** A tab that moved to another pane is shown there, and that pane is the active one. */
  lemma MoveTabShows(s: State, source: Id, tabId: Id, target: Id, targetTab: Option<Id>, position: DropPosition)
    requires Valid(s) && source != target && HasPane(s.panes, source) && HasPane(s.panes, target)
    requires HasTab(s.panes[FindPane(s.panes, source)].tabs, tabId)
    ensures
      var after := MoveTab(s, source, tabId, target, targetTab, position).0;
      && after.activePaneId == Some(target) && HasPane(after.panes, target)
      && after.panes[FindPane(after.panes, target)].activeTabId == tabId
  {
    var tabs := s.panes[FindPane(s.panes, source)].tabs;
    var tab := tabs[FindTab(tabs, tabId)];
    MoveLands(s.panes, source, tab, target, targetTab, position);
    ReceiveAddsOne(s.panes[FindPane(s.panes, target)], tab, targetTab, position);
    hide Valid, MoveBetween, Receive;
  }

  lemma {:induction false} MoveOutIsAMove(panes: seq<Pane>, source: Id, tab: Tab)
    ensures MoveOut(panes, source, tab.id) == MoveBetween(panes, source, tab, source, None, End)
  {
    hide Leave, Receive;
    if panes != [] {
      MoveOutIsAMove(panes[1..], source, tab);
    }
  }

  lemma AddKeepsPanes(panes: seq<Pane>, pane: Pane)
    requires PanesOk(panes) && DistinctPanes(panes) && PaneOk(pane) && !HasPane(panes, pane.id)
    ensures PanesOk(panes + [pane]) && DistinctPanes(panes + [pane])
    ensures HasPane(panes + [pane], pane.id)
    ensures forall id | id != pane.id :: HasPane(panes + [pane], id) <==> HasPane(panes, id)
    ensures Bag(panes + [pane]) == Bag(panes) + multiset(Bare(pane.tabs))
  {
    hide PaneOk, Bare;
    AllTabsOfConcat(panes, [pane]);
    AllTabsOfOne(pane);
    forall i | 0 <= i < |panes| ensures (panes + [pane])[i] == panes[i] && panes[i].id != pane.id { }
    assert (panes + [pane])[|panes|] == pane;
  }

  lemma OneTabPane(id: Id, tab: Tab)
    requires tab.previousActive.None?
    ensures PaneOk(Pane(id, [tab], tab.id))
    ensures multiset(Bare([tab])) == multiset{BareTab(tab)}
  {
    assert Bare([tab]) == [BareTab(tab)];
  }

  /** Moving a tab to a pane of its own keeps the workbench in order and conserves the tabs; the report says
      truly whether the source pane is gone. */
  lemma MoveToNewPaneConserves(s: State, source: Id, tabId: Id, target: Id, newPane: Id)
    requires Valid(s) && !HasPane(s.panes, newPane)
    ensures
      var (after, moved) := MoveTabToNewPane(s, source, tabId, target, newPane);
      && Valid(after) && Bag(after.panes) == Bag(s.panes)
      && (moved.None? ==> after == s)
      && (moved.Some? ==>
        && moved.value.newPaneId == newPane && HasPane(after.panes, newPane) && after.activePaneId == Some(newPane)
        && (moved.value.sourcePaneRemoved <==> !HasPane(after.panes, source))
        && forall id | id != source && id != newPane :: HasPane(after.panes, id) <==> HasPane(s.panes, id))
  {
    var moved := MoveTabToNewPane(s, source, tabId, target, newPane).1;
    if moved.Some? {
      NewPaneKeeps(s, source, tabId, newPane);
    }
    hide Bag, Valid, MoveOut;
  }

  lemma NewPaneKeeps(s: State, source: Id, tabId: Id, newPane: Id)
    requires Valid(s) && HasPane(s.panes, source) && !HasPane(s.panes, newPane)
    requires HasTab(s.panes[FindPane(s.panes, source)].tabs, tabId)
    ensures
      var tabs := s.panes[FindPane(s.panes, source)].tabs;
      var pane := Pane(newPane, [BareTab(tabs[FindTab(tabs, tabId)])], tabId);
      var after := MoveOut(s.panes, source, tabId) + [pane];
      && Valid(State(after, Some(newPane))) && Bag(after) == Bag(s.panes)
      && (HasPane(after, source) <==> |tabs| > 1)
      && forall id | id != source && id != newPane :: HasPane(after, id) <==> HasPane(s.panes, id)
  {
    hide Bag, PanesOk, PaneOk, DistinctPanes, DistinctTabs, MoveBetween, MoveOut, Carries, Bare;
    ValidCarries(s, source, tabId);
    var tabs := s.panes[FindPane(s.panes, source)].tabs;
    var tab := tabs[FindTab(tabs, tabId)];
    var rest := MoveOut(s.panes, source, tabId);
    MoveOutIsAMove(s.panes, source, tab);
    MoveKeepsPanes(s.panes, source, tab, source, None, End);
    MoveBag(s.panes, source, tab, source, None, End);
    OneTabPane(newPane, BareTab(tab));
    AddKeepsPanes(rest, Pane(newPane, [BareTab(tab)], tabId));
    Cancel(Bag(rest) + multiset{BareTab(tab)}, Bag(s.panes), multiset{});
    SameBagIsDistinct(s.panes, rest + [Pane(newPane, [BareTab(tab)], tabId)]);
  }
}
