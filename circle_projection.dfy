/** What the circular view shows (main-circle.js `applyFilters` and
    `updateVisualization`): the nodes loaded from the rows, the node and link
    filters, the sort by house, and where each shown node is placed. */
module CircleProjection {
  import opened Common
  import opened Groups
  import opened Records
  import opened Consolidation
  import opened Projection
  import CircleRegions
  import opened CircleLinks

  /** A node of the circular view: its id, its groups and its region key. */
  datatype CircleNode = CircleNode(id: string, groups: seq<string>, regionKey: Option<string>)

  /** The node part of `loadData`: one node per character id, in first-seen
      order, with the groups `social.json` lists for it ("Outside of
      Hogwarts" when it lists none) and the region key of those groups. */
  function LoadCircleNodes(rels: seq<Relationship>, social: map<string, seq<string>>): (r: seq<CircleNode>)
    ensures |r| == |CharacterIds(rels)|
    ensures forall i :: 0 <= i < |r| ==>
              r[i].id == CharacterIds(rels)[i] && r[i].groups == GroupsOf(social, r[i].id)
              && r[i].regionKey == CircleRegions.RegionKey(r[i].groups)
  {
    var ids := CharacterIds(rels);
    seq(|ids|, i requires 0 <= i < |ids| =>
      CircleNode(ids[i], GroupsOf(social, ids[i]), CircleRegions.RegionKey(GroupsOf(social, ids[i]))))
  }

  /** The node ids are exactly the relationship endpoints, each once. */
  lemma LoadedNodeIds(rels: seq<Relationship>, social: map<string, seq<string>>)
    ensures var r := LoadCircleNodes(rels, social);
      && (forall i, j :: 0 <= i < j < |r| ==> r[i].id != r[j].id)
      && (forall k :: 0 <= k < |rels| ==>
            (exists i :: 0 <= i < |r| && r[i].id == rels[k].characterId)
            && (exists i :: 0 <= i < |r| && r[i].id == rels[k].targetCharacterId))
  {
    var r := LoadCircleNodes(rels, social);
    var ids := CharacterIds(rels);
    CharactersAreEndpoints(rels);
    EndpointsAreCharacters(rels);
    forall k | 0 <= k < |rels|
      ensures exists i :: 0 <= i < |r| && r[i].id == rels[k].characterId
      ensures exists i :: 0 <= i < |r| && r[i].id == rels[k].targetCharacterId
    {
      var i :| 0 <= i < |ids| && ids[i] == rels[k].characterId;
      assert r[i].id == rels[k].characterId;
      var i2 :| 0 <= i2 < |ids| && ids[i2] == rels[k].targetCharacterId;
      assert r[i2].id == rels[k].targetCharacterId;
    }
  }

  /** A character without a `social.json` entry lands in "Outside of
      Hogwarts"; a node has no region key only when its entry lists no group. */
  lemma LoadedNodeRegion(rels: seq<Relationship>, social: map<string, seq<string>>, i: nat)
    requires i < |LoadCircleNodes(rels, social)|
    ensures var n := LoadCircleNodes(rels, social)[i];
      && (n.id !in social ==> n.regionKey == Some(Outside))
      && (n.regionKey.None? <==> n.id in social && social[n.id] == [])
  {
    var n := LoadCircleNodes(rels, social)[i];
    if n.id !in social {
      assert n.groups == [Outside];
      CircleRegions.OutsideWins(n.groups);
    }
  }

  /** `allLinks.some(...)`: some link joins `focus` and `id`, in either direction. */
  predicate CircleConnected(links: seq<CircleLink>, focus: string, id: string)
  {
    exists j :: 0 <= j < |links| &&
      ((links[j].source == focus && links[j].target == id) || (links[j].target == focus && links[j].source == id))
  }

  /** The node filter of the circular `applyFilters`, in its order of tests;
      `focus` is the function's parameter, "" for `null` or `undefined`. */
  predicate CircleVisible(n: CircleNode, links: seq<CircleLink>, focus: string, f: Filters)
  {
    if focus != "" && n.id == focus then true
    else if !PassesGroupFilters(n.groups, f) then false
    else if focus != "" && !CircleConnected(links, focus, n.id) then false
    else true
  }

  /** `allNodes.filter(...)`: the visible nodes, in their original order. */
  function CircleVisibleNodes(nodes: seq<CircleNode>, links: seq<CircleLink>, focus: string, f: Filters): (r: seq<CircleNode>)
    ensures |r| <= |nodes|
    ensures forall n :: n in r <==> n in nodes && CircleVisible(n, links, focus, f)
  {
    if nodes == [] then []
    else
      var rest := CircleVisibleNodes(nodes[1..], links, focus, f);
      if CircleVisible(nodes[0], links, focus, f) then [nodes[0]] + rest else rest
  }

  /** `filter` keeps the original order: it distributes over concatenation and
      keeps a single node exactly when that node is visible. */
  lemma {:induction false} CircleVisibleNodesIsFilter(a: seq<CircleNode>, b: seq<CircleNode>, n: CircleNode, links: seq<CircleLink>, focus: string, f: Filters)
    ensures CircleVisibleNodes(a + b, links, focus, f) == CircleVisibleNodes(a, links, focus, f) + CircleVisibleNodes(b, links, focus, f)
    ensures CircleVisibleNodes([n], links, focus, f) == if CircleVisible(n, links, focus, f) then [n] else []
  {
    if a == [] {
      assert a + b == b;
    } else {
      assert (a + b)[1..] == a[1..] + b;
      CircleVisibleNodesIsFilter(a[1..], b, n, links, focus, f);
    }
  }

  /** The focus node, when it is among the nodes, is shown whatever the checkboxes say. */
  lemma FocusAlwaysVisible(nodes: seq<CircleNode>, links: seq<CircleLink>, focus: string, f: Filters, n: CircleNode)
    requires focus != "" && n in nodes && n.id == focus
    ensures n in CircleVisibleNodes(nodes, links, focus, f)
  {
  }

  /** Every other shown node passes the role and house tests and, with a
      focus, is linked to the focus; and every such node is shown. */
  lemma OtherVisibleIff(n: CircleNode, links: seq<CircleLink>, focus: string, f: Filters)
    requires focus == "" || n.id != focus
    ensures CircleVisible(n, links, focus, f) <==>
      PassesGroupFilters(n.groups, f) && (focus != "" ==> CircleConnected(links, focus, n.id))
  {
  }

  /** The link filter of the circular `applyFilters`: with a focus, the links
      touching the focus whose two ends are shown; without one, the links
      whose two ends are shown. */
  function CircleVisibleLinks(links: seq<CircleLink>, focus: string, ids: set<string>): (r: seq<CircleLink>)
    ensures |r| <= |links|
    ensures forall l :: l in r <==> l in links && KeepCircleLink(l, focus, ids)
  {
    if links == [] then []
    else
      var rest := CircleVisibleLinks(links[1..], focus, ids);
      if KeepCircleLink(links[0], focus, ids) then [links[0]] + rest else rest
  }

  predicate KeepCircleLink(l: CircleLink, focus: string, ids: set<string>)
  {
    (focus != "" ==> l.source == focus || l.target == focus) && l.source in ids && l.target in ids
  }

  /** The link filter keeps order and keeps exactly the links it should: with
      a focus, a kept link touches the focus, the focus is shown, and so is the
      link's other end; every link drawn joins two shown nodes. */
  lemma VisibleLinksIff(links: seq<CircleLink>, focus: string, ids: set<string>, l: CircleLink)
    ensures l in CircleVisibleLinks(links, focus, ids) <==>
      l in links && l.source in ids && l.target in ids && (focus != "" ==> focus in {l.source, l.target})
  {
  }

  function NodeIds(nodes: seq<CircleNode>): set<string>
  {
    set i | 0 <= i < |nodes| :: nodes[i].id
  }

  /** With a focus, every link kept joins the focus to one of its shown neighbours. */
  lemma FocusLinksJoinNeighbours(nodes: seq<CircleNode>, links: seq<CircleLink>, focus: string, f: Filters, l: CircleLink)
    requires focus != ""
    requires l in CircleVisibleLinks(links, focus, NodeIds(CircleVisibleNodes(nodes, links, focus, f)))
    ensures l in links
    ensures l.source == focus || l.target == focus
    ensures var other := if l.source == focus then l.target else l.source;
      other == focus || exists n :: n in nodes && n.id == other && PassesGroupFilters(n.groups, f)
  {
    var shown := CircleVisibleNodes(nodes, links, focus, f);
    var other := if l.source == focus then l.target else l.source;
    assert other in NodeIds(shown);
    var i :| 0 <= i < |shown| && shown[i].id == other;
    assert shown[i] in nodes && CircleVisible(shown[i], links, focus, f);
  }

  /** The stacked links the circular links would be, for comparing the two views. */
  function AsBandLinks(links: seq<CircleLink>): (r: seq<Link>)
    ensures |r| == |links|
    ensures forall j :: 0 <= j < |links| ==> r[j].source == links[j].source && r[j].target == links[j].target
  {
    seq(|links|, j requires 0 <= j < |links| => Link(links[j].source, links[j].target, links[j].status, 0.0, links[j].isMutual))
  }

  /** Over links with the same ends, both views show the same nodes for the
      same focus and checkboxes, though they test in a different order. */
  lemma SameNodesAsBandView(n: CircleNode, links: seq<CircleLink>, focus: string, f: Filters)
    ensures CircleVisible(n, links, focus, f) <==> Projection.Visible(Character(n.id, n.groups), AsBandLinks(links), focus, f)
  {
    var band := AsBandLinks(links);
    if CircleConnected(links, focus, n.id) {
      var j :| 0 <= j < |links| &&
        ((links[j].source == focus && links[j].target == n.id) || (links[j].target == focus && links[j].source == n.id));
      assert band[j].source == links[j].source && band[j].target == links[j].target;
    }
    if Projection.Connected(band, focus, n.id) {
      var j :| 0 <= j < |band| &&
        ((band[j].source == focus && band[j].target == n.id) || (band[j].target == focus && band[j].source == n.id));
      assert band[j].source == links[j].source && band[j].target == links[j].target;
    }
  }

  /** The position of a node in the house sort: `houseOrder[getHouse(n)] || 5`. */
  function HouseRank(n: CircleNode): (r: nat)
    ensures 1 <= r <= 5
    ensures r == 5 <==> forall g :: g in n.groups ==> !IsHouse(g)
  {
    match FirstHouse(n.groups)
    case None => 5
    case Some(h) => if h == Slytherin then 1 else if h == Ravenclaw then 2 else if h == Hufflepuff then 3 else 4
  }

  /** The house listed earliest decides the rank: Slytherin 1, Ravenclaw 2,
      Hufflepuff 3, Gryffindor 4. */
  lemma HouseRankOfEarliest(n: CircleNode, i: nat)
    requires i < |n.groups| && IsHouse(n.groups[i]) && forall j :: 0 <= j < i ==> !IsHouse(n.groups[j])
    ensures HouseRank(n) == if n.groups[i] == Slytherin then 1 else if n.groups[i] == Ravenclaw then 2
                            else if n.groups[i] == Hufflepuff then 3 else 4
  {
    FirstHouseIsEarliest(n.groups, i);
  }

  /** Inserts `x` before the first node whose rank is not below its own. */
  function Insert(x: CircleNode, t: seq<CircleNode>): (r: seq<CircleNode>)
    ensures multiset(r) == multiset(t) + multiset{x}
  {
    if t == [] || HouseRank(x) <= HouseRank(t[0]) then [x] + t
    else
      assert t == [t[0]] + t[1..];
      [t[0]] + Insert(x, t[1..])
  }

  /** The comparator sort of `sortedNodes`: a stable sort by house rank (the
      sort of JavaScript is stable), written as an insertion sort. */
  function SortByHouse(s: seq<CircleNode>): (r: seq<CircleNode>)
    ensures multiset(r) == multiset(s)
  {
    if s == [] then []
    else
      assert s == [s[0]] + s[1..];
      Insert(s[0], SortByHouse(s[1..]))
  }

  predicate SortedByRank(s: seq<CircleNode>)
  {
    forall i, j :: 0 <= i < j < |s| ==> HouseRank(s[i]) <= HouseRank(s[j])
  }

  /** Inserting a node ranked at least `b` among nodes ranked at least `b`
      keeps every rank at least `b`. */
  lemma InsertAbove(x: CircleNode, t: seq<CircleNode>, b: nat)
    requires b <= HouseRank(x) && forall i :: 0 <= i < |t| ==> b <= HouseRank(t[i])
    ensures forall m :: m in Insert(x, t) ==> b <= HouseRank(m)
  {
    forall m | m in Insert(x, t) ensures b <= HouseRank(m) {
      assert m in multiset(Insert(x, t));
      if m != x {
        assert m in multiset(t);
      }
    }
  }

  lemma {:induction false} InsertSorted(x: CircleNode, t: seq<CircleNode>)
    requires SortedByRank(t)
    ensures SortedByRank(Insert(x, t))
  {
    if t != [] && HouseRank(x) > HouseRank(t[0]) {
      var rest := Insert(x, t[1..]);
      InsertSorted(x, t[1..]);
      InsertAbove(x, t[1..], HouseRank(t[0]));
      ConsSorted(t[0], rest);
    }
  }

  lemma ConsSorted(h: CircleNode, rest: seq<CircleNode>)
    requires SortedByRank(rest) && forall m :: m in rest ==> HouseRank(h) <= HouseRank(m)
    ensures SortedByRank([h] + rest)
  {
    var r := [h] + rest;
    forall i, j | 0 <= i < j < |r| ensures HouseRank(r[i]) <= HouseRank(r[j]) {
      if i == 0 {
        assert r[j] in rest;
      } else {
        assert r[i] == rest[i - 1] && r[j] == rest[j - 1];
      }
    }
  }

  /** The sorted nodes come in house order: Slytherin, Ravenclaw, Hufflepuff,
      Gryffindor, then the houseless. */
  lemma {:induction false} SortByHouseSorted(s: seq<CircleNode>)
    ensures SortedByRank(SortByHouse(s))
  {
    if s != [] {
      SortByHouseSorted(s[1..]);
      InsertSorted(s[0], SortByHouse(s[1..]));
    }
  }

  /** The nodes of rank `k`, in order. */
  function WithRank(s: seq<CircleNode>, k: nat): (r: seq<CircleNode>)
    ensures forall n :: n in r <==> n in s && HouseRank(n) == k
  {
    if s == [] then []
    else if HouseRank(s[0]) == k then [s[0]] + WithRank(s[1..], k)
    else WithRank(s[1..], k)
  }

  lemma {:induction false} InsertStable(x: CircleNode, t: seq<CircleNode>, k: nat)
    ensures WithRank(Insert(x, t), k) == (if HouseRank(x) == k then [x] else []) + WithRank(t, k)
  {
    if t == [] || HouseRank(x) <= HouseRank(t[0]) {
      assert ([x] + t)[1..] == t;
    } else {
      InsertStable(x, t[1..], k);
      assert ([t[0]] + Insert(x, t[1..]))[1..] == Insert(x, t[1..]);
    }
  }

  /** The sort is stable: the nodes of each house keep their relative order. */
  lemma {:induction false} SortByHouseStable(s: seq<CircleNode>, k: nat)
    ensures WithRank(SortByHouse(s), k) == WithRank(s, k)
  {
    if s != [] {
      SortByHouseStable(s[1..], k);
      InsertStable(s[0], SortByHouse(s[1..]), k);
    }
  }

  /** Where `updateVisualization` puts a node: the centre, or ring place
      `index` of `count` evenly spaced places. */
  datatype Slot = Centre | Ring(index: nat, count: nat)

  /** `otherNodes`: the nodes placed on the ring. */
  function RingNodes(nodes: seq<CircleNode>, focus: string): (r: seq<CircleNode>)
    ensures |r| <= |nodes|
    ensures forall n :: n in r <==> n in nodes && (focus == "" || n.id != focus)
  {
    if nodes == [] then []
    else
      var rest := RingNodes(nodes[1..], focus);
      if focus == "" || nodes[0].id != focus then [nodes[0]] + rest else rest
  }

  /** The keys are the nodes' ids and, with a focus, the focus; the focus sits
      at the centre; every other key holds a ring place of the ring's size
      whose node has that id. */
  predicate Placed(positions: map<string, Slot>, nodes: seq<CircleNode>, focus: string)
  {
    && positions.Keys == NodeIds(nodes) + (if focus != "" then {focus} else {})
    && (focus != "" ==> positions[focus] == Centre)
    && forall k :: k in positions && (focus == "" || k != focus) ==>
         var ring := RingNodes(nodes, focus);
         positions[k].Ring? && positions[k].count == |ring| && positions[k].index < |ring|
         && ring[positions[k].index].id == k
  }

  /** The `positions` map of `updateVisualization`, filled by `Map.set` in node
      order. Its keys are the shown nodes' ids and, in focus mode, the focus
      (even a focus not shown); the focus sits at the centre; every other key
      holds a ring place of the ring's size whose node has that id. */
  method ComputePositions(nodes: seq<CircleNode>, focus: string) returns (positions: map<string, Slot>)
    ensures Placed(positions, nodes, focus)
  {
    var ring := RingNodes(nodes, focus);
    positions := if focus != "" then map[focus := Centre] else map[];
    for i := 0 to |ring|
      invariant RingPrefix(positions, ring, focus, i)
    {
      RingStep(positions, ring, focus, i);
      positions := positions[ring[i].id := Ring(i, |ring|)];
    }
    RingDone(positions, nodes, focus);
  }

  /** The loop state of `ComputePositions` after the first `i` ring nodes. */
  ghost predicate RingPrefix(positions: map<string, Slot>, ring: seq<CircleNode>, focus: string, i: nat)
    requires i <= |ring|
  {
    && positions.Keys == NodeIds(ring[..i]) + (if focus != "" then {focus} else {})
    && (focus != "" ==> positions[focus] == Centre)
    && forall k :: k in positions && (focus == "" || k != focus) ==>
         positions[k].Ring? && positions[k].count == |ring| && positions[k].index < i
         && ring[positions[k].index].id == k
  }

  lemma RingStep(positions: map<string, Slot>, ring: seq<CircleNode>, focus: string, i: nat)
    requires i < |ring| && RingPrefix(positions, ring, focus, i)
    requires focus == "" || ring[i].id != focus
    ensures RingPrefix(positions[ring[i].id := Ring(i, |ring|)], ring, focus, i + 1)
  {
    NodeIdsSnoc(ring, i);
  }

  lemma RingDone(positions: map<string, Slot>, nodes: seq<CircleNode>, focus: string)
    requires var ring := RingNodes(nodes, focus); RingPrefix(positions, ring, focus, |ring|)
    ensures Placed(positions, nodes, focus)
  {
    var ring := RingNodes(nodes, focus);
    assert ring[..|ring|] == ring;
    RingIds(nodes, focus);
  }

  lemma NodeIdsSnoc(s: seq<CircleNode>, i: nat)
    requires i < |s|
    ensures NodeIds(s[..i + 1]) == NodeIds(s[..i]) + {s[i].id}
  {
    assert forall j :: 0 <= j < i ==> s[..i + 1][j] == s[..i][j];
    assert s[..i + 1][i] == s[i];
  }

  /** The ring nodes and the focus have the ids of all the nodes and the focus. */
  lemma RingIds(nodes: seq<CircleNode>, focus: string)
    ensures NodeIds(RingNodes(nodes, focus)) + (if focus != "" then {focus} else {})
         == NodeIds(nodes) + (if focus != "" then {focus} else {})
  {
    var ring := RingNodes(nodes, focus);
    forall j | 0 <= j < |nodes| ensures nodes[j].id in NodeIds(ring) + (if focus != "" then {focus} else {}) {
      if focus == "" || nodes[j].id != focus {
        assert nodes[j] in ring;
        var p :| 0 <= p < |ring| && ring[p] == nodes[j];
      }
    }
    forall j | 0 <= j < |ring| ensures ring[j].id in NodeIds(nodes) {
      assert ring[j] in nodes;
      var p :| 0 <= p < |nodes| && nodes[p] == ring[j];
    }
  }

  /** Different keys of the positions map get different ring places, and with
      distinct node ids every ring node sits at its own index. */
  lemma RingPlacesDistinct(nodes: seq<CircleNode>, focus: string, positions: map<string, Slot>, k1: string, k2: string)
    requires Placed(positions, nodes, focus)
    requires k1 in positions && k2 in positions && k1 != k2
    requires (focus == "" || k1 != focus) && (focus == "" || k2 != focus)
    ensures positions[k1] != positions[k2]
  {
  }

  /** With distinct node ids, the ring node at index `i` holds ring place `i`. */
  lemma RingIndexOfNode(nodes: seq<CircleNode>, focus: string, positions: map<string, Slot>, i: nat)
    requires Placed(positions, nodes, focus)
    requires var ring := RingNodes(nodes, focus); i < |ring| && ring[i].id in positions
    requires var ring := RingNodes(nodes, focus); forall a, b :: 0 <= a < b < |ring| ==> ring[a].id != ring[b].id
    ensures positions[RingNodes(nodes, focus)[i].id] == Ring(i, |RingNodes(nodes, focus)|)
  {
    var ring := RingNodes(nodes, focus);
    assert ring[i] in ring;
  }
  /** Sorting keeps the set of shown ids. */
  lemma SortKeepsIds(s: seq<CircleNode>)
    ensures NodeIds(SortByHouse(s)) == NodeIds(s)
  {
    var r := SortByHouse(s);
    SameIds(r, s);
    SameIds(s, r);
  }

  lemma SameIds(a: seq<CircleNode>, b: seq<CircleNode>)
    requires multiset(a) == multiset(b)
    ensures NodeIds(a) <= NodeIds(b)
  {
    forall j | 0 <= j < |a| ensures a[j].id in NodeIds(b) {
      assert a[j] in multiset(b);
      var p :| 0 <= p < |b| && b[p] == a[j];
    }
  }

  /** With a focus, each node of the sorted view is the focus or linked to it. */
  lemma ShownAreFocusOrNeighbours(nodes: seq<CircleNode>, links: seq<CircleLink>, focus: string, f: Filters)
    requires focus != ""
    ensures forall n :: n in SortByHouse(CircleVisibleNodes(nodes, links, focus, f)) ==>
              n.id == focus || CircleConnected(links, focus, n.id)
  {
    var v := CircleVisibleNodes(nodes, links, focus, f);
    forall n | n in SortByHouse(v) ensures n.id == focus || CircleConnected(links, focus, n.id) {
      assert n in multiset(SortByHouse(v));
      assert n in v;
    }
  }

  /** Every link drawn finds a position for both its ends in the map. */
  lemma LinkEndsPlaced(positions: map<string, Slot>, shown: seq<CircleNode>, focus: string,
                       links: seq<CircleLink>, focusArg: string, l: CircleLink)
    requires Placed(positions, shown, focus)
    requires l in CircleVisibleLinks(links, focusArg, NodeIds(shown))
    ensures l.source in positions && l.target in positions
  {
  }
}
