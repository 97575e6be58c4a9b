/** The node objects of the stacked-band view and what main.js does to them in
    place: the custom boundary force `forceStrictBoundary`, the three drag
    handlers, and the node/link update of `applyFilters` and
    `updateVisualizationComplex`. */
module Layout {
  import opened Common
  import opened Groups
  import opened Records
  import opened Regions
  import opened Seeding
  import opened Consolidation
  import opened Projection

  /** Position and velocity of a node. */
  datatype Motion = Motion(x: real, y: real, vx: real, vy: real)

  /** A simulated node: the fields `loadData` gives it and the ones the force
      simulation and the drag handlers update. */
  class SimNode {
    const id: string
    const groups: seq<string>
    const regionKey: Option<string>
    /** `node.region`; absent means the force and the drag leave the node unconfined. */
    const region: Option<Rect>
    var x: real
    var y: real
    var vx: real
    var vy: real
    var fx: Option<real>
    var fy: Option<real>

    constructor (id: string, groups: seq<string>, regionKey: Option<string>, region: Option<Rect>, x: real, y: real)
      ensures this.id == id && this.groups == groups && this.regionKey == regionKey && this.region == region
      ensures this.x == x && this.y == y && vx == 0.0 && vy == 0.0 && fx.None? && fy.None?
    {
      this.id, this.groups, this.regionKey, this.region := id, groups, regionKey, region;
      this.x, this.y, vx, vy := x, y, 0.0, 0.0;
      fx, fy := None, None;
    }

    function State(): Motion
      reads this
    {
      Motion(x, y, vx, vy)
    }

    /** Both `fx` and `fy` are set: the boundary force skips the node. */
    predicate Pinned()
      reads this
    {
      fx.Some? && fy.Some?
    }

    function Info(): Character
    {
      Character(id, groups)
    }
  }

  /** `if (v < lo) v = lo; if (v > hi) v = hi;`, the two tests in that order. */
  function Clamp(v: real, lo: real, hi: real): (r: real)
    ensures lo <= hi ==> lo <= r <= hi
    ensures lo <= v <= hi ==> r == v
    ensures hi < lo ==> r == hi
  {
    var v1 := if v < lo then lo else v;
    if v1 > hi then hi else v1
  }

  /** A non-zero velocity pointing out of `[lo, hi]` at a bound becomes 0. */
  function Damp(pos: real, v: real, lo: real, hi: real): (r: real)
    ensures r == v || r == 0.0
    ensures !(pos <= lo && r < 0.0) && !(pos >= hi && r > 0.0)
  {
    if v != 0.0 && ((pos <= lo && v < 0.0) || (pos >= hi && v > 0.0)) then 0.0 else v
  }

  /** One node's step of the boundary force inside its region. */
  function Contain(m: Motion, r: Rect): Motion
  {
    var x := Clamp(m.x, MinX(r), MaxX(r));
    var y := Clamp(m.y, MinY(r), MaxY(r));
    Motion(x, y, Damp(x, m.vx, MinX(r), MaxX(r)), Damp(y, m.vy, MinY(r), MaxY(r)))
  }

  /** One node's step of `forceStrictBoundary`: pinned nodes and nodes without
      a region are left alone. */
  function Tick(m: Motion, region: Option<Rect>, pinned: bool): Motion
  {
    if pinned || region.None? then m else Contain(m, region.value)
  }

  /** A node that is not pinned and has a region with a non-empty padded
      interior ends inside that interior. */
  lemma TickInside(m: Motion, r: Rect)
    requires HasInterior(r)
    ensures var m' := Tick(m, Some(r), false);
      MinX(r) <= m'.x <= MaxX(r) && MinY(r) <= m'.y <= MaxY(r)
  {
  }

  /** No velocity component of a contained node points outward at a bound it
      sits on, and each component is either kept or zeroed. */
  lemma TickNoOutwardVelocity(m: Motion, r: Rect)
    ensures var m' := Tick(m, Some(r), false);
      && !(m'.x <= MinX(r) && m'.vx < 0.0) && !(m'.x >= MaxX(r) && m'.vx > 0.0)
      && !(m'.y <= MinY(r) && m'.vy < 0.0) && !(m'.y >= MaxY(r) && m'.vy > 0.0)
      && (m'.vx == m.vx || m'.vx == 0.0) && (m'.vy == m.vy || m'.vy == 0.0)
  {
  }

  /** A position already inside the padded interior is not moved. */
  lemma TickKeepsInsidePosition(m: Motion, r: Rect)
    requires MinX(r) <= m.x <= MaxX(r) && MinY(r) <= m.y <= MaxY(r)
    ensures Tick(m, Some(r), false).x == m.x && Tick(m, Some(r), false).y == m.y
  {
  }

  /** Applying the boundary step twice is applying it once, for any region. */
  lemma TickIdempotent(m: Motion, region: Option<Rect>, pinned: bool)
    ensures Tick(Tick(m, region, pinned), region, pinned) == Tick(m, region, pinned)
  {
    if !pinned && region.Some? {
      var r := region.value;
      var m' := Contain(m, r);
      assert Clamp(m'.x, MinX(r), MaxX(r)) == m'.x;
      assert Clamp(m'.y, MinY(r), MaxY(r)) == m'.y;
    }
  }

  /** The statements of `forceStrictBoundary` for one axis: the two bound
      tests on the position, then the velocity reset at a bound. */
  method ContainAxis(pos: real, v: real, lo: real, hi: real) returns (pos': real, v': real)
    ensures pos' == Clamp(pos, lo, hi) && v' == Damp(pos', v, lo, hi)
  {
    pos', v' := pos, v;
    if pos' < lo { pos' := lo; }
    if pos' > hi { pos' := hi; }
    if v' != 0.0 {
      if (pos' <= lo && v' < 0.0) || (pos' >= hi && v' > 0.0) {
        v' := 0.0;
      }
    }
  }

  /** The body of the `nodes.forEach` of `forceStrictBoundary` for one node. */
  method BoundaryStep(node: SimNode)
    modifies node
    ensures node.State() == Tick(old(node.State()), node.region, old(node.Pinned()))
    ensures node.fx == old(node.fx) && node.fy == old(node.fy)
  {
    if node.fx.Some? && node.fy.Some? {
      return;
    }
    if node.region.Some? {
      var r := node.region.value;
      var x, vx := ContainAxis(node.x, node.vx, r.x + Padding, r.x + r.width - Padding);
      var y, vy := ContainAxis(node.y, node.vy, r.y + Padding, r.y + r.height - Padding);
      node.x, node.y, node.vx, node.vy := x, y, vx, vy;
    }
  }

  /** `forceStrictBoundary()(alpha)`: the boundary step applied to each node in
      place, in array order. A node listed twice is stepped twice, which by
      idempotence is the same as once. */
  method ForceStrictBoundary(nodes: seq<SimNode>)
    modifies set n | n in nodes
    ensures forall n :: n in nodes ==> n.State() == Tick(old(n.State()), n.region, old(n.Pinned()))
    ensures forall n :: n in nodes ==> n.fx == old(n.fx) && n.fy == old(n.fy)
  {
    for i := 0 to |nodes|
      invariant forall n :: n in nodes ==> n.fx == old(n.fx) && n.fy == old(n.fy)
      invariant forall n :: n in nodes[..i] ==> n.State() == Tick(old(n.State()), n.region, old(n.Pinned()))
      invariant forall n :: n in nodes && n !in nodes[..i] ==> n.State() == old(n.State())
    {
      var node := nodes[i];
      TickIdempotent(old(node.State()), node.region, old(node.Pinned()));
      BoundaryStep(node);
      assert nodes[..i + 1] == nodes[..i] + [node];
    }
    assert nodes[..|nodes|] == nodes;
  }

  /** `Math.max(lo, Math.min(hi, v))`, the clamp of the drag handler. */
  function DragClamp(v: real, lo: real, hi: real): (r: real)
    ensures lo <= hi ==> lo <= r <= hi
    ensures hi < lo ==> r == lo
  {
    var m := if hi < v then hi else v;
    if lo < m then m else lo
  }

  /** On a region with a non-empty padded interior the drag clamp and the
      boundary clamp agree, so a dragged node is already where the boundary
      force would put it. */
  lemma DragClampIsClamp(v: real, lo: real, hi: real)
    requires lo <= hi
    ensures DragClamp(v, lo, hi) == Clamp(v, lo, hi)
  {
  }

  /** The force simulation's state that the handlers touch, and the data
      `setupFilters` keeps for filtering. */
  class BandView {
    const allNodes: seq<SimNode>
    const allLinks: seq<Link>
    /** `currentSimulation` is set. */
    var hasSimulation: bool
    var simNodes: seq<SimNode>
    var simLinks: seq<Link>
    var alpha: real
    var alphaTarget: real

    constructor (nodes: seq<SimNode>, links: seq<Link>)
      ensures allNodes == nodes && allLinks == links
      ensures hasSimulation && simNodes == nodes && simLinks == links && alpha == 1.0 && alphaTarget == 0.0
    {
      allNodes, allLinks := nodes, links;
      hasSimulation, simNodes, simLinks := true, nodes, links;
      alpha, alphaTarget := 1.0, 0.0;
    }

    /** `dragStarted`: warm the simulation if no other drag is active, and pin
        the node where it is. */
    method DragStarted(active: bool, subject: SimNode)
      modifies this, subject
      ensures alphaTarget == (if active then old(alphaTarget) else 0.3)
      ensures subject.fx == Some(old(subject.x)) && subject.fy == Some(old(subject.y))
      ensures subject.State() == old(subject.State()) && subject.Pinned()
      ensures alpha == old(alpha) && simNodes == old(simNodes) && simLinks == old(simLinks)
      ensures hasSimulation == old(hasSimulation)
    {
      if !active {
        alphaTarget := 0.3;
      }
      subject.fx := Some(subject.x);
      subject.fy := Some(subject.y);
    }

    /** `dragged`: pin the node at the pointer, clamped into the padded
        interior of its region when it has one. */
    method Dragged(subject: SimNode, ex: real, ey: real)
      modifies subject
      ensures subject.region.Some? ==>
        var r := subject.region.value;
        && subject.x == DragClamp(ex, MinX(r), MaxX(r)) && subject.y == DragClamp(ey, MinY(r), MaxY(r))
        && subject.fx == Some(subject.x) && subject.fy == Some(subject.y)
      ensures subject.region.None? ==>
        && subject.fx == Some(ex) && subject.fy == Some(ey)
        && subject.x == old(subject.x) && subject.y == old(subject.y)
      ensures subject.vx == old(subject.vx) && subject.vy == old(subject.vy) && subject.Pinned()
    {
      if subject.region.Some? {
        var r := subject.region.value;
        var minX, maxX := r.x + Padding, r.x + r.width - Padding;
        var minY, maxY := r.y + Padding, r.y + r.height - Padding;
        var newX := DragClamp(ex, minX, maxX);
        var newY := DragClamp(ey, minY, maxY);
        subject.fx, subject.fy := Some(newX), Some(newY);
        subject.x, subject.y := newX, newY;
      } else {
        subject.fx, subject.fy := Some(ex), Some(ey);
      }
    }

    /** `dragEnded`: cool the simulation if no other drag is active; the node
        stays pinned where it was dropped. */
    method DragEnded(active: bool, subject: SimNode)
      modifies this
      ensures alphaTarget == (if active then old(alphaTarget) else 0.0)
      ensures alpha == old(alpha) && simNodes == old(simNodes) && simLinks == old(simLinks)
      ensures hasSimulation == old(hasSimulation)
    {
      if !active {
        alphaTarget := 0.0;
      }
    }

    /** `applyFilters` followed by `updateVisualizationComplex`: the visible
        nodes and the links the filters keep become the simulation's data and
        the simulation is reheated; nothing changes before the simulation exists. */
    method ApplyFilters(focus: string, f: Filters)
      modifies this
      ensures var ids := VisibleIds(Infos(allNodes), allLinks, focus, f);
        old(hasSimulation) ==>
          && simNodes == KeepNodes(allNodes, ids)
          && simLinks == Refilter(FocusLinks(allLinks, focus, ids), NodeIds(simNodes))
          && alpha == 0.5
      ensures !old(hasSimulation) ==> simNodes == old(simNodes) && simLinks == old(simLinks) && alpha == old(alpha)
      ensures hasSimulation == old(hasSimulation) && alphaTarget == old(alphaTarget)
      ensures hasSimulation ==> forall l :: l in simLinks ==> l.source in NodeIds(simNodes) && l.target in NodeIds(simNodes)
    {
      var ids := VisibleIds(Infos(allNodes), allLinks, focus, f);
      var focusLinks := FocusLinks(allLinks, focus, ids);
      if !hasSimulation {
        return;
      }
      var nodes := KeepNodes(allNodes, ids);
      simNodes := nodes;
      simLinks := Refilter(focusLinks, NodeIds(nodes));
      alpha := 0.5;
    }

    /** `resetFilters`: clear the focus, tick every checkbox and re-apply. */
    method ResetFilters()
      modifies this
      ensures old(hasSimulation) ==> simNodes == allNodes && alpha == 0.5
      ensures old(hasSimulation) ==> simLinks == Refilter(allLinks, NodeIds(allNodes))
      ensures hasSimulation == old(hasSimulation) && alphaTarget == old(alphaTarget)
    {
      ApplyFilters("", AllChecked);
      if hasSimulation {
        AllCheckedKeepsAll(allNodes, allLinks);
        ResetLinks(allNodes, allLinks);
      }
    }
  }

  function Infos(nodes: seq<SimNode>): (r: seq<Character>)
    ensures |r| == |nodes| && forall i :: 0 <= i < |nodes| ==> r[i] == nodes[i].Info()
  {
    seq(|nodes|, i requires 0 <= i < |nodes| => nodes[i].Info())
  }

  function NodeIds(nodes: seq<SimNode>): set<string>
  {
    set i | 0 <= i < |nodes| :: nodes[i].id
  }

  /** `allNodes.filter(d => visibleNodeIds.has(d.id))`, in their original order. */
  function KeepNodes(nodes: seq<SimNode>, ids: set<string>): (r: seq<SimNode>)
    ensures forall i :: 0 <= i < |r| ==> r[i] in nodes && r[i].id in ids
    ensures forall i :: 0 <= i < |nodes| && nodes[i].id in ids ==> nodes[i] in r
  {
    if nodes == [] then []
    else
      var rest := KeepNodes(nodes[1..], ids);
      if nodes[0].id in ids then [nodes[0]] + rest else rest
  }

  /** With no focus and every checkbox ticked, the simulation gets every node. */
  lemma AllCheckedKeepsAll(nodes: seq<SimNode>, links: seq<Link>)
    ensures KeepNodes(nodes, VisibleIds(Infos(nodes), links, "", AllChecked)) == nodes
  {
    AllCheckedShowsAll(Infos(nodes), links);
    KeepAll(nodes, VisibleIds(Infos(nodes), links, "", AllChecked));
  }

  /** With no focus and every checkbox ticked, the links handed to the
      simulation are those whose two ends are loaded nodes. */
  lemma ResetLinks(nodes: seq<SimNode>, links: seq<Link>)
    ensures var ids := VisibleIds(Infos(nodes), links, "", AllChecked);
      Refilter(FocusLinks(links, "", ids), NodeIds(nodes)) == Refilter(links, NodeIds(nodes))
  {
    var ids := VisibleIds(Infos(nodes), links, "", AllChecked);
    AllCheckedShowsAll(Infos(nodes), links);
    assert ids == NodeIds(nodes) by {
      forall x | x in ids ensures x in NodeIds(nodes) {
        var c :| c in Infos(nodes) && c.id == x;
        var i :| 0 <= i < |nodes| && Infos(nodes)[i] == c;
      }
      forall x | x in NodeIds(nodes) ensures x in ids {
        var i :| 0 <= i < |nodes| && nodes[i].id == x;
        assert Infos(nodes)[i] in Infos(nodes);
      }
    }
    RefilterIdentity(Infos(nodes), links, "", AllChecked);
    NoFocusLinksAreRefilter(links, ids);
  }

  lemma {:induction false} KeepAll(nodes: seq<SimNode>, ids: set<string>)
    requires forall i :: 0 <= i < |nodes| ==> nodes[i].id in ids
    ensures KeepNodes(nodes, ids) == nodes
  {
    if nodes != [] {
      KeepAll(nodes[1..], ids);
    }
  }

  /** The region key of each character, in character order. */
  function KeysOf(social: map<string, seq<string>>, ids: seq<string>): (r: seq<Option<string>>)
    ensures |r| == |ids| && forall i :: 0 <= i < |ids| ==> r[i] == RegionKey(GroupsOf(social, ids[i]))
  {
    seq(|ids|, i requires 0 <= i < |ids| => RegionKey(GroupsOf(social, ids[i])))
  }

  /** The fixed fields and the seed position of a loaded node. */
  datatype NodeSeed = NodeSeed(id: string, groups: seq<string>, regionKey: Option<string>, region: Rect, x: real, y: real)

  /** The `nodes` map callback of `loadData` for the `i`-th id, given its slot
      and its key's count: the groups, the region key, the region and the seed
      position. */
  function NodeSeedFor(social: map<string, seq<string>>, ids: seq<string>, rects: seq<Rect>, jitter: seq<(real, real)>,
                       i: nat, slot: nat, count: nat): NodeSeed
    requires |rects| == |RegionKeys| && i < |ids| && |jitter| == |ids|
  {
    var groups := GroupsOf(social, ids[i]);
    var regionKey := RegionKey(groups);
    var p := InitialPosition(rects, regionKey, slot, count, jitter[i].0, jitter[i].1);
    NodeSeed(ids[i], groups, regionKey, RegionFor(rects, regionKey), p.0, p.1)
  }

  /** What `loadData` builds for the `i`-th character id. */
  ghost function SeedOf(social: map<string, seq<string>>, ids: seq<string>, keys: seq<Option<string>>,
                        rects: seq<Rect>, jitter: seq<(real, real)>, i: nat): NodeSeed
    requires |rects| == |RegionKeys| && i < |ids| && |jitter| == |ids| && |keys| == |ids|
  {
    NodeSeedFor(social, ids, rects, jitter, i, SlotOf(keys, i), CountOf(keys, i))
  }

  predicate LoadedAs(n: SimNode, s: NodeSeed)
    reads n
  {
    && n.id == s.id && n.groups == s.groups && n.regionKey == s.regionKey && n.region == Some(s.region)
    && n.x == s.x && n.y == s.y
  }

  /** The `new` objects of the `nodes` map: one fresh, unpinned, distinct node per seed. */
  method MakeNodes(seeds: seq<NodeSeed>) returns (nodes: seq<SimNode>)
    ensures |nodes| == |seeds| && Distinct(nodes)
    ensures forall i :: 0 <= i < |nodes| ==> fresh(nodes[i]) && !nodes[i].Pinned() && LoadedAs(nodes[i], seeds[i])
  {
    nodes := [];
    for i := 0 to |seeds|
      invariant |nodes| == i && Distinct(nodes)
      invariant forall p :: 0 <= p < i ==> fresh(nodes[p]) && !nodes[p].Pinned() && LoadedAs(nodes[p], seeds[p])
    {
      var s := seeds[i];
      var node := new SimNode(s.id, s.groups, s.regionKey, Some(s.region), s.x, s.y);
      DistinctSnoc(nodes, node);
      nodes := nodes + [node];
    }
  }

  /** The node part of `loadData`: one node per character id, in id order, with
      its groups (all-outside when the social records lack it), its region key,
      its region, and a seed position in the grid cell of its slot; `jitter[i]`
      stands for node `i`'s two `Math.random()` draws. */
  method LoadNodes(rels: seq<Relationship>, social: map<string, seq<string>>, rects: seq<Rect>, jitter: seq<(real, real)>)
    returns (nodes: seq<SimNode>)
    requires |rects| == |RegionKeys| && |jitter| == |CharacterIds(rels)|
    ensures |nodes| == |CharacterIds(rels)| && Distinct(nodes)
    ensures forall i :: 0 <= i < |nodes| ==> fresh(nodes[i]) && !nodes[i].Pinned()
    ensures forall i :: 0 <= i < |nodes| ==>
              LoadedAs(nodes[i], SeedOf(social, CharacterIds(rels), KeysOf(social, CharacterIds(rels)), rects, jitter, i))
  {
    var ids := CharacterIds(rels);
    var keys := KeysOf(social, ids);
    var slots, counts := AssignSlots(keys);
    var seeds := seq(|ids|, i requires 0 <= i < |ids| => NodeSeedFor(social, ids, rects, jitter, i, slots[i], counts[i]));
    nodes := MakeNodes(seeds);
  }

  /** Every node loaded is seeded inside the padded interior of its region, up
      to the jitter, when that region has a non-empty interior; and two nodes of
      the same region get different slots. */
  lemma SeedsInRegion(social: map<string, seq<string>>, ids: seq<string>, rects: seq<Rect>, i: nat, jx: real, jy: real)
    requires |rects| == |RegionKeys| && i < |ids|
    requires 0.0 <= jx < 1.0 && 0.0 <= jy < 1.0
    requires var keys := KeysOf(social, ids); HasInterior(RegionFor(rects, keys[i]))
    ensures var keys := KeysOf(social, ids);
      var p := InitialPosition(rects, keys[i], SlotOf(keys, i), CountOf(keys, i), jx, jy);
      var r := RegionFor(rects, keys[i]);
      MinX(r) - 7.5 <= p.0 <= MaxX(r) + 7.5 && MinY(r) - 7.5 <= p.1 <= MaxY(r) + 7.5
  {
    var keys := KeysOf(social, ids);
    SlotBelowCount(keys, i);
    InitialPositionInRegion(rects, keys[i], SlotOf(keys, i), CountOf(keys, i), jx, jy);
  }
}
