/** The page state of the circular view (main-circle.js): the loaded nodes and
    links, the focus dropdown, the checkboxes, the set of switched-off nodes,
    and what `applyFilters` last rendered. */
module CircleView {
  import opened Common
  import opened Groups
  import opened Records
  import opened CircleLinks
  import opened CircleProjection

  /** `toggleNode` on `inactiveNodes`: the focus node is never switched; any
      other node is switched off when on and on when off. */
  function Toggled(inactive: set<string>, focus: string, id: string): (r: set<string>)
    ensures focus != "" && id == focus ==> r == inactive
    ensures !(focus != "" && id == focus) ==>
              (id in r <==> id !in inactive) && forall x :: x != id ==> (x in r <==> x in inactive)
  {
    if focus != "" && id == focus then inactive
    else if id in inactive then inactive - {id}
    else inactive + {id}
  }

  /** Clicking the same node twice restores the set. */
  lemma ToggleTwice(inactive: set<string>, focus: string, id: string)
    ensures Toggled(Toggled(inactive, focus, id), focus, id) == inactive
  {
  }

  /** The focus node is never switched off by a click. */
  lemma FocusNeverInactivated(inactive: set<string>, focus: string, id: string)
    requires focus != "" && focus !in inactive
    ensures focus !in Toggled(inactive, focus, id)
  {
  }

  /** A click switches off exactly the links touching the clicked node,
      when its other end is on and the node was on. */
  lemma ToggleSwitchesLinks(inactive: set<string>, focus: string, id: string, l: CircleLink)
    requires !(focus != "" && id == focus) && id !in inactive
    ensures IsActive(Toggled(inactive, focus, id), l) <==> IsActive(inactive, l) && l.source != id && l.target != id
  {
  }

  /** `updateAllCheckbox`: the "all" box is ticked exactly when all eight are. */
  predicate AllTicked(f: Filters)
  {
    f.staff && f.students && f.residents && f.outsiders && f.slytherin && f.ravenclaw && f.hufflepuff && f.gryffindor
  }

  lemma AllTickedIff(f: Filters)
    ensures AllTicked(f) <==> f == AllChecked
  {
  }

  /** `handleAllCheckbox(checked)`: every checkbox set to `checked`. */
  function Uniform(checked: bool): (f: Filters)
    ensures AllTicked(f) <==> checked
    ensures !checked ==> forall g :: !Checkbox(f, g)
  {
    Filters(checked, checked, checked, checked, checked, checked, checked, checked)
  }

  /** What `applyFilters(focusArg)` hands to `updateVisualization`, and the
      positions that computes with the global `focus`: the nodes the argument
      lets through in house order, the links among them, and the slots. */
  ghost predicate Rendered(nodes: seq<CircleNode>, links: seq<CircleLink>, focusArg: string, f: Filters, focus: string,
                           shown: seq<CircleNode>, shownLinks: seq<CircleLink>, positions: map<string, Slot>)
  {
    && shown == SortByHouse(CircleVisibleNodes(nodes, links, focusArg, f))
    && shownLinks == CircleVisibleLinks(links, focusArg, NodeIds(shown))
    && Placed(positions, shown, focus)
  }

  /** The computation behind `applyFilters` and `updateVisualization`. */
  method Render(nodes: seq<CircleNode>, links: seq<CircleLink>, focusArg: string, f: Filters, focus: string)
    returns (shown: seq<CircleNode>, shownLinks: seq<CircleLink>, positions: map<string, Slot>)
    ensures Rendered(nodes, links, focusArg, f, focus, shown, shownLinks, positions)
  {
    shown := SortByHouse(CircleVisibleNodes(nodes, links, focusArg, f));
    shownLinks := CircleVisibleLinks(links, focusArg, NodeIds(shown));
    positions := ComputePositions(shown, focus);
  }

  class CirclePage {
    const allNodes: seq<CircleNode>
    const allLinks: seq<CircleLink>
    /** The global `focusNodeId`, "" for `null`. */
    var focusNodeId: string
    var inactiveNodes: set<string>
    var filters: Filters
    /** The "all" checkbox. */
    var allBox: bool
    /** What `updateVisualization` last received and computed. */
    var shownNodes: seq<CircleNode>
    var shownLinks: seq<CircleLink>
    var positions: map<string, Slot>

    /** The render of `applyFilters(focusArg)`: nodes and links filtered with
        the argument, placed with the global focus. */
    ghost predicate Shows(focusArg: string)
      reads this
    {
      Rendered(allNodes, allLinks, focusArg, filters, focusNodeId, shownNodes, shownLinks, positions)
    }

    /** `loadData` followed by `setupFilters` and `applyFilters()`: no focus,
        nothing switched off, the checkboxes as the page starts with them
        (`boxes` for the eight, `allTicked` for "all"), and the unfocused view. */
    constructor Load(rels: seq<Relationship>, social: map<string, seq<string>>, boxes: Filters, allTicked: bool)
      ensures allNodes == LoadCircleNodes(rels, social)
      ensures CircleLinksOf(rels, allLinks)
      ensures focusNodeId == "" && inactiveNodes == {} && filters == boxes && allBox == allTicked
      ensures Shows("")
    {
      allNodes := LoadCircleNodes(rels, social);
      var links := LoadCircleLinks(rels);
      allLinks := links;
      focusNodeId := "";
      inactiveNodes := {};
      filters := boxes;
      allBox := allTicked;
      new;
      ApplyFilters("");
      assert allLinks == links;
    }

    /** `applyFilters(focusArg)` and the `updateVisualization` it calls. The
        parameter, not the global focus, filters the nodes and links; the
        positions use the global focus. */
    method ApplyFilters(focusArg: string)
      modifies this
      ensures Shows(focusArg)
      ensures focusNodeId == old(focusNodeId) && inactiveNodes == old(inactiveNodes)
      ensures filters == old(filters) && allBox == old(allBox)
    {
      var sorted, links, placed := Render(allNodes, allLinks, focusArg, filters, focusNodeId);
      shownNodes, shownLinks, positions := sorted, links, placed;
    }

    /** The focus dropdown's change handler: sets the global focus and passes it on. */
    method SelectFocus(value: string)
      modifies this
      ensures focusNodeId == value && Shows(value)
      ensures inactiveNodes == old(inactiveNodes) && filters == old(filters) && allBox == old(allBox)
    {
      focusNodeId := value;
      ApplyFilters(focusNodeId);
    }

    /** `toggleNode` as written: `applyFilters()` without an argument, so the
        nodes and links are filtered as if there were no focus while the
        positions still put the focus at the centre. */
    method ToggleNodeAsWritten(id: string)
      modifies this
      ensures inactiveNodes == Toggled(old(inactiveNodes), focusNodeId, id)
      ensures focusNodeId == old(focusNodeId) && filters == old(filters) && allBox == old(allBox)
      ensures focusNodeId != "" && id == focusNodeId ==>
                shownNodes == old(shownNodes) && shownLinks == old(shownLinks) && positions == old(positions)
      ensures !(focusNodeId != "" && id == focusNodeId) ==> Shows("")
    {
      if focusNodeId != "" && id == focusNodeId {
        return;
      }
      inactiveNodes := Toggled(inactiveNodes, focusNodeId, id);
      ApplyFilters("");
    }

    /** `toggleNode` with the focus passed on, as the dropdown handler does. */
    method ToggleNode(id: string)
      modifies this
      ensures inactiveNodes == Toggled(old(inactiveNodes), focusNodeId, id)
      ensures focusNodeId == old(focusNodeId) && filters == old(filters) && allBox == old(allBox)
      ensures focusNodeId != "" && id == focusNodeId ==>
                shownNodes == old(shownNodes) && shownLinks == old(shownLinks) && positions == old(positions)
      ensures !(focusNodeId != "" && id == focusNodeId) ==> Shows(focusNodeId)
    {
      if focusNodeId != "" && id == focusNodeId {
        return;
      }
      inactiveNodes := Toggled(inactiveNodes, focusNodeId, id);
      ApplyFilters(focusNodeId);
    }

    /** A role or house checkbox's change handler as written: `applyFilters()`
        without the focus, then `updateAllCheckbox`. */
    method SetFilterAsWritten(f: Filters)
      modifies this
      ensures filters == f && allBox == AllTicked(f) && Shows("")
      ensures focusNodeId == old(focusNodeId) && inactiveNodes == old(inactiveNodes)
    {
      filters := f;
      ApplyFilters("");
      allBox := AllTicked(filters);
    }

    /** A role or house checkbox's change handler with the focus passed on. */
    method SetFilter(f: Filters)
      modifies this
      ensures filters == f && allBox == AllTicked(f) && Shows(focusNodeId)
      ensures focusNodeId == old(focusNodeId) && inactiveNodes == old(inactiveNodes)
    {
      filters := f;
      ApplyFilters(focusNodeId);
      allBox := AllTicked(filters);
    }

    /** `handleAllCheckbox(checked)` as written: every box set alike, then
        `applyFilters()` without the focus. */
    method SetAllFiltersAsWritten(checked: bool)
      modifies this
      ensures filters == Uniform(checked) && allBox == checked && Shows("")
      ensures focusNodeId == old(focusNodeId) && inactiveNodes == old(inactiveNodes)
    {
      filters := Uniform(checked);
      allBox := checked;
      ApplyFilters("");
    }

    /** `handleAllCheckbox(checked)` with the focus passed on; also what
        "reset" ends with, once the focus is cleared. */
    method SetAllFilters(checked: bool)
      modifies this
      ensures filters == Uniform(checked) && allBox == checked && Shows(focusNodeId)
      ensures focusNodeId == old(focusNodeId) && inactiveNodes == old(inactiveNodes)
    {
      filters := Uniform(checked);
      allBox := checked;
      ApplyFilters(focusNodeId);
    }

    /** `resetFilters`: no focus, nothing switched off, every box ticked. */
    method ResetFilters()
      modifies this
      ensures focusNodeId == "" && inactiveNodes == {} && filters == AllChecked && allBox
      ensures Shows("")
    {
      focusNodeId := "";
      inactiveNodes := {};
      SetAllFilters(true);
    }
  }

  /** After a reset every loaded node is shown, each once, in house order. */
  lemma ResetShowsAll(nodes: seq<CircleNode>, links: seq<CircleLink>)
    ensures multiset(SortByHouse(CircleVisibleNodes(nodes, links, "", AllChecked))) == multiset(nodes)
  {
    AllVisibleUnfocused(nodes, links);
  }

  lemma {:induction false} AllVisibleUnfocused(nodes: seq<CircleNode>, links: seq<CircleLink>)
    ensures CircleVisibleNodes(nodes, links, "", AllChecked) == nodes
  {
    if nodes != [] {
      AllCheckedPasses(nodes[0].groups);
      AllVisibleUnfocused(nodes[1..], links);
    }
  }

  const ExampleNodes: seq<CircleNode> := [CircleNode("A", [], None), CircleNode("B", [], None), CircleNode("C", [], None)]
  const ExampleLinks: seq<CircleLink> := [CircleLink("A", "B", "Friend", None, false)]

  /** Three uncategorised characters A, B and C with one link, A to B. With A
      as the focus, the focused filter shows A and B only; the filter without a
      focus, which the as-written click handler and checkbox handlers apply,
      also shows C, which is not linked to A. */
  lemma FocusDroppedExample()
    ensures CircleNode("C", [], None) in SortByHouse(CircleVisibleNodes(ExampleNodes, ExampleLinks, "", AllChecked))
    ensures !CircleConnected(ExampleLinks, "A", "C")
    ensures CircleNode("C", [], None) !in SortByHouse(CircleVisibleNodes(ExampleNodes, ExampleLinks, "A", AllChecked))
  {
    ExampleUnfocused();
    ExampleFocused();
  }

  lemma ExampleUnfocused()
    ensures CircleNode("C", [], None) in SortByHouse(CircleVisibleNodes(ExampleNodes, ExampleLinks, "", AllChecked))
  {
    var n := ExampleNodes[2];
    AllCheckedPasses(n.groups);
    var unfocused := CircleVisibleNodes(ExampleNodes, ExampleLinks, "", AllChecked);
    assert n in unfocused;
    assert n in multiset(SortByHouse(unfocused));
  }

  lemma ExampleFocused()
    ensures !CircleConnected(ExampleLinks, "A", "C")
    ensures CircleNode("C", [], None) !in SortByHouse(CircleVisibleNodes(ExampleNodes, ExampleLinks, "A", AllChecked))
  {
    var n := ExampleNodes[2];
    assert !CircleConnected(ExampleLinks, "A", "C") by {
      assert ExampleLinks[0].target != "C";
    }
    var focused := CircleVisibleNodes(ExampleNodes, ExampleLinks, "A", AllChecked);
    assert n !in focused;
    assert n !in multiset(SortByHouse(focused));
  }
}
