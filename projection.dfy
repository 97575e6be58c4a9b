/** The subgraph shown by the stacked-band view (main.js `applyFilters` and
    the link filter of `updateVisualizationComplex`): which characters pass the
    focus and checkbox filters, and which links are handed to the simulation. */
module Projection {
  import opened Common
  import opened Groups
  import opened Consolidation

  /** What the filters read of a node: its id and its group list. */
  datatype Character = Character(id: string, groups: seq<string>)

  /** Some link joins `focus` and `id`, in either direction. */
  predicate Connected(links: seq<Link>, focus: string, id: string)
  {
    exists j :: 0 <= j < |links| &&
      ((links[j].source == focus && links[j].target == id) || (links[j].target == focus && links[j].source == id))
  }

  /** The node filter of `applyFilters`; `focus` is the dropdown value, "" for
      no focus. With a focus, a node other than the focus must be linked to it
      and then still passes the checkbox tests; the focus node itself always
      shows. */
  predicate Visible(c: Character, links: seq<Link>, focus: string, f: Filters)
  {
    if focus != "" && c.id != focus && !Connected(links, focus, c.id) then false
    else if focus != "" && c.id == focus then true
    else PassesGroupFilters(c.groups, f)
  }

  /** `allNodes.filter(...)`: the visible nodes, in their original order. */
  function VisibleNodes(nodes: seq<Character>, links: seq<Link>, focus: string, f: Filters): (r: seq<Character>)
    ensures |r| <= |nodes|
    ensures forall c :: c in r <==> c in nodes && Visible(c, links, focus, f)
  {
    if nodes == [] then []
    else
      var rest := VisibleNodes(nodes[1..], links, focus, f);
      if Visible(nodes[0], links, focus, f) then [nodes[0]] + rest else rest
  }

  /** `filter` keeps the original order: it distributes over concatenation and
      keeps a single node exactly when that node is visible. */
  lemma {:induction false} VisibleNodesIsFilter(a: seq<Character>, b: seq<Character>, c: Character, links: seq<Link>, focus: string, f: Filters)
    ensures VisibleNodes(a + b, links, focus, f) == VisibleNodes(a, links, focus, f) + VisibleNodes(b, links, focus, f)
    ensures VisibleNodes([c], links, focus, f) == if Visible(c, links, focus, f) then [c] else []
  {
    if a == [] {
      assert a + b == b;
    } else {
      assert (a + b)[1..] == a[1..] + b;
      VisibleNodesIsFilter(a[1..], b, c, links, focus, f);
    }
  }

  function Ids(nodes: seq<Character>): set<string>
  {
    set c | c in nodes :: c.id
  }

  /** `visibleNodeIds`. */
  function VisibleIds(nodes: seq<Character>, links: seq<Link>, focus: string, f: Filters): set<string>
  {
    Ids(VisibleNodes(nodes, links, focus, f))
  }

  /** The link filter of `applyFilters`: with a focus, the links with one end at
      the focus and the other end visible; without one, the links whose two
      ends are visible. */
  function FocusLinks(links: seq<Link>, focus: string, ids: set<string>): (r: seq<Link>)
    ensures forall l :: l in r <==> l in links && KeepLink(l, focus, ids)
  {
    if links == [] then []
    else
      var rest := FocusLinks(links[1..], focus, ids);
      if KeepLink(links[0], focus, ids) then [links[0]] + rest else rest
  }

  predicate KeepLink(l: Link, focus: string, ids: set<string>)
  {
    if focus != "" then (l.source == focus && l.target in ids) || (l.target == focus && l.source in ids)
    else l.source in ids && l.target in ids
  }

  /** The link filter of `updateVisualizationComplex`: the links whose two ends
      are among the simulated nodes. */
  function Refilter(links: seq<Link>, ids: set<string>): (r: seq<Link>)
    ensures forall l :: l in r <==> l in links && l.source in ids && l.target in ids
  {
    if links == [] then []
    else
      var rest := Refilter(links[1..], ids);
      if links[0].source in ids && links[0].target in ids then [links[0]] + rest else rest
  }

  /** Without a focus a node is hidden exactly when it names a role and none of
      its roles is checked, or names a house and none of its houses is checked. */
  lemma NoFocusHiddenIff(c: Character, links: seq<Link>, f: Filters)
    ensures !Visible(c, links, "", f) <==>
      ((exists g :: g in c.groups && IsRole(g)) && !(exists g :: g in c.groups && IsRole(g) && Checkbox(f, g)))
      || ((exists g :: g in c.groups && IsHouse(g)) && !(exists g :: g in c.groups && IsHouse(g) && Checkbox(f, g)))
  {
    HiddenIff(c.groups, f);
  }

  /** Without a focus, a node naming neither a role nor a house always shows. */
  lemma NoFocusUncategorisedVisible(c: Character, links: seq<Link>, f: Filters)
    requires forall g :: g in c.groups ==> !IsRole(g) && !IsHouse(g)
    ensures Visible(c, links, "", f)
  {
    UncategorisedPasses(c.groups, f);
  }

  /** Without a focus and with every checkbox ticked, every node shows. */
  lemma {:induction false} AllCheckedShowsAll(nodes: seq<Character>, links: seq<Link>)
    ensures VisibleNodes(nodes, links, "", AllChecked) == nodes
  {
    if nodes != [] {
      AllCheckedPasses(nodes[0].groups);
      AllCheckedShowsAll(nodes[1..], links);
    }
  }

  /** With a focus set, a node shows exactly when it is the focus, or it is
      linked to the focus and passes the checkbox tests. */
  lemma FocusVisibleIff(c: Character, links: seq<Link>, focus: string, f: Filters)
    requires focus != ""
    ensures Visible(c, links, focus, f) <==>
      c.id == focus || (Connected(links, focus, c.id) && PassesGroupFilters(c.groups, f))
  {
  }

  /** With a focus and every checkbox ticked, the visible nodes are the focus
      and its neighbours. */
  lemma FocusAllCheckedNeighbours(nodes: seq<Character>, links: seq<Link>, focus: string)
    requires focus != ""
    ensures forall c :: c in VisibleNodes(nodes, links, focus, AllChecked) <==>
      c in nodes && (c.id == focus || Connected(links, focus, c.id))
  {
    forall c | c in nodes ensures PassesGroupFilters(c.groups, AllChecked) {
      AllCheckedPasses(c.groups);
    }
  }

  /** A focus that names no node shows nothing, when every link joins two nodes. */
  lemma UnknownFocusShowsNothing(nodes: seq<Character>, links: seq<Link>, focus: string, f: Filters)
    requires focus != "" && focus !in Ids(nodes)
    requires forall l :: l in links ==> l.source in Ids(nodes) && l.target in Ids(nodes)
    ensures VisibleNodes(nodes, links, focus, f) == []
  {
    var r := VisibleNodes(nodes, links, focus, f);
    if r != [] {
      var c := r[0];
      assert c in nodes && Visible(c, links, focus, f);
      var j :| 0 <= j < |links| &&
        ((links[j].source == focus && links[j].target == c.id) || (links[j].target == focus && links[j].source == c.id));
      assert false;
    }
  }

  /** The re-filter changes nothing when a focus names a node, or there is no
      focus: every link the focus filter kept already joins two visible nodes. */
  lemma RefilterIdentity(nodes: seq<Character>, links: seq<Link>, focus: string, f: Filters)
    requires focus == "" || focus in Ids(nodes)
    ensures var ids := VisibleIds(nodes, links, focus, f);
      Refilter(FocusLinks(links, focus, ids), ids) == FocusLinks(links, focus, ids)
  {
    var ids := VisibleIds(nodes, links, focus, f);
    if focus != "" {
      var c :| c in nodes && c.id == focus;
      assert c in VisibleNodes(nodes, links, focus, f);
    }
    RefilterAll(FocusLinks(links, focus, ids), ids);
  }

  lemma {:induction false} RefilterAll(links: seq<Link>, ids: set<string>)
    requires forall l :: l in links ==> l.source in ids && l.target in ids
    ensures Refilter(links, ids) == links
  {
    if links != [] {
      assert forall l :: l in links[1..] ==> l in links;
      RefilterAll(links[1..], ids);
    }
  }

  /** Without a focus the link filter of `applyFilters` and the re-filter of
      `updateVisualizationComplex` keep the same links. */
  lemma {:induction false} NoFocusLinksAreRefilter(links: seq<Link>, ids: set<string>)
    ensures FocusLinks(links, "", ids) == Refilter(links, ids)
  {
    if links != [] {
      NoFocusLinksAreRefilter(links[1..], ids);
    }
  }
}
