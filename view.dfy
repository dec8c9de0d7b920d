/**
 * The visible state a reconcile pass converges to (src/index.ts:102-151),
 * as functions of the active index and the counts of tabs and panes.
 * Tabs and panes are matched by position only.
 */
module View {

  /** `tabsContainer.style.maxWidth`: the content width (800 when it measures 0) less 64. */
  function MaxWidth(innerWidth: nat): (w: int)
    ensures innerWidth == 0 ==> w == 736
    ensures innerWidth > 0 ==> w + 64 == innerWidth
  {
    (if innerWidth == 0 then 800 else innerWidth) - 64
  }

  function Sum(widths: seq<nat>): (total: nat)
    ensures forall i :: 0 <= i < |widths| ==> widths[i] <= total
  {
    if widths == [] then 0
    else
      var front := widths[..|widths| - 1];
      assert forall i :: 0 <= i < |front| ==> front[i] == widths[i];
      Sum(front) + widths[|widths| - 1]
  }

  /** Both arrow containers are shown exactly when the tabs are wider than their container. */
  predicate Overflows(tabWidths: seq<nat>, containerWidth: nat)
    ensures Overflows(tabWidths, containerWidth) ==> tabWidths != []
  {
    Sum(tabWidths) > containerWidth
  }

  /** The registry read of a reconcile pass: the stored index, 0 for an unknown id. */
  function Lookup(index: map<string, int>, id: string): (current: int)
    ensures id in index ==> current == index[id]
    ensures id !in index ==> current == 0
  {
    if id in index then index[id] else 0
  }

  /** The `active` class of each tab: set on the tab at the active index only. */
  function TabFlags(tabCount: nat, active: int): (flags: seq<bool>)
    ensures |flags| == tabCount
  {
    seq(tabCount, i => i == active)
  }

  /**
   * Pane display after a reconcile pass: below the tab count only the pane at
   * the active index is shown; panes beyond the tab count (more panes than
   * tabs) are all shown.
   */
  function PaneView(tabCount: nat, paneCount: nat, active: int): (shown: seq<bool>)
    ensures |shown| == paneCount
  {
    seq(paneCount, i => if i < tabCount then i == active else true)
  }

  /**
   * Pane display after a tab click: below the tab count only the clicked pane is
   * shown; panes beyond the tab count keep their display.
   */
  function ClickPanes(tabCount: nat, panes: seq<bool>, clicked: int): (shown: seq<bool>)
    ensures |shown| == |panes|
  {
    seq(|panes|, i requires 0 <= i < |panes| => if i < tabCount then i == clicked else panes[i])
  }

  /** Number of `true` entries. */
  function CountTrue(flags: seq<bool>): nat {
    if flags == [] then 0
    else CountTrue(flags[..|flags| - 1]) + (if flags[|flags| - 1] then 1 else 0)
  }

  lemma {:induction false} CountTrueAppend(a: seq<bool>, b: seq<bool>)
    ensures CountTrue(a + b) == CountTrue(a) + CountTrue(b)
    decreases |b|
  {
    if b != [] {
      CountTrueAppend(a, b[..|b| - 1]);
      assert (a + b)[..|a + b| - 1] == a + b[..|b| - 1];
    } else {
      assert a + b == a;
    }
  }

  lemma {:induction false} CountTrueAllTrue(flags: seq<bool>)
    requires forall i :: 0 <= i < |flags| ==> flags[i]
    ensures CountTrue(flags) == |flags|
  {
    if flags != [] {
      CountTrueAllTrue(flags[..|flags| - 1]);
    }
  }

  /**
   * Exactly one tab is active when the active index names a tab, and none
   * when it is out of range.
   */
  lemma {:induction false} OneActiveTab(tabCount: nat, active: int)
    ensures CountTrue(TabFlags(tabCount, active)) == if 0 <= active < tabCount then 1 else 0
  {
    if tabCount > 0 {
      OneActiveTab(tabCount - 1, active);
      assert TabFlags(tabCount, active)[..tabCount - 1] == TabFlags(tabCount - 1, active);
    }
  }

  /**
   * Number of panes a reconcile pass leaves shown: every pane beyond the tab
   * count, plus the active one when it is both a tab and a pane.
   */
  lemma {:induction false} ShownPaneCount(tabCount: nat, paneCount: nat, active: int)
    ensures CountTrue(PaneView(tabCount, paneCount, active)) ==
              (if paneCount > tabCount then paneCount - tabCount else 0)
              + (if 0 <= active < tabCount && active < paneCount then 1 else 0)
  {
    var shown := PaneView(tabCount, paneCount, active);
    var m := if paneCount < tabCount then paneCount else tabCount;
    assert shown == shown[..m] + shown[m..];
    CountTrueAppend(shown[..m], shown[m..]);
    assert shown[..m] == TabFlags(m, active);
    OneActiveTab(m, active);
    CountTrueAllTrue(shown[m..]);
  }

  /**
   * With no more panes than tabs, the pane shown is the pane of the active tab:
   * pane i is shown exactly when tab i is active.
   */
  lemma PanesFollowTabs(tabCount: nat, paneCount: nat, active: int)
    requires paneCount <= tabCount
    ensures PaneView(tabCount, paneCount, active) == TabFlags(tabCount, active)[..paneCount]
  {
  }

  /**
   * A click and a later reconcile pass for the same index agree on every pane
   * below the tab count; they agree on all panes when no pane is beyond it.
   */
  lemma ClickAgreesWithReconcile(tabCount: nat, panes: seq<bool>, clicked: int)
    ensures ClickPanes(tabCount, panes, clicked)[..if |panes| < tabCount then |panes| else tabCount]
         == PaneView(tabCount, |panes|, clicked)[..if |panes| < tabCount then |panes| else tabCount]
    ensures |panes| <= tabCount ==> ClickPanes(tabCount, panes, clicked) == PaneView(tabCount, |panes|, clicked)
  {
  }

  /**
   * The reconcile pass is the click loop run after every pane was shown when
   * there are more panes than tabs: it then gives exactly PaneView.
   */
  lemma ClickAfterShowingSurplus(tabCount: nat, panes: seq<bool>, active: int)
    requires |panes| > tabCount ==> forall j :: 0 <= j < |panes| ==> panes[j]
    ensures ClickPanes(tabCount, panes, active) == PaneView(tabCount, |panes|, active)
  {
  }

  /** Three tabs and three panes, second tab active. */
  lemma ThreeTabsExample()
    ensures TabFlags(3, 1) == [false, true, false]
    ensures PaneView(3, 3, 1) == [false, true, false]
  {
  }

  /**
   * Three tabs and five panes, second tab active: the two surplus panes are
   * shown, but the panes of the inactive tabs are hidden again.
   */
  lemma SurplusPanesExample()
    ensures PaneView(3, 5, 1) == [false, true, false, true, true]
  {
  }

  /** Adding a tab never hides the arrows: the overflow test is monotone in the tabs. */
  lemma {:induction false} OverflowGrowsWithTabs(tabWidths: seq<nat>, extra: seq<nat>, containerWidth: nat)
    ensures Sum(tabWidths + extra) == Sum(tabWidths) + Sum(extra)
    ensures Overflows(tabWidths, containerWidth) ==> Overflows(tabWidths + extra, containerWidth)
    decreases |extra|
  {
    if extra != [] {
      OverflowGrowsWithTabs(tabWidths, extra[..|extra| - 1], containerWidth);
      assert (tabWidths + extra)[..|tabWidths + extra| - 1] == tabWidths + extra[..|extra| - 1];
    } else {
      assert tabWidths + extra == tabWidths;
    }
  }
}
