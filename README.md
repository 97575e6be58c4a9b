# HL-Social-Charts in Dafny

HL-Social-Charts draws the relationships between characters as two D3 pages.

- The stacked-band view (`main.js`) does the following:
  - It places each character in a rectangle of a fixed Hogwarts layout (staff, students and residents in house columns, outsiders below), chosen by a region key derived from its groups.
  - It seeds the character on a grid inside that rectangle.
  - It keeps it there with a custom boundary force while a force simulation runs.
  - Its drag handlers pin a node inside its rectangle.
  - It merges same-status opposite relationships into one mutual link, and fans out the links leaving a node.
- The circular view (`main-circle.js`) does the following:
  - It merges every opposite pair into one link that remembers both statuses.
  - It sorts the shown characters by house and places them on a ring around an optional focus.
  - Clicking a node switches it off.

Both pages filter the characters by a focus dropdown and eight role/house checkboxes.

The model takes the already-parsed input:
- the relationship rows (`Records.Relationship`, in CSV order);
- the social records, as a map from character id to its group list.

JavaScript `null`/`undefined` are modelled as follows:
- The focus id is a `string`, where `""` stands for no focus. The pages test the focus only for truthiness, and that test is exactly `!= ""`.
- `Common.Option.None` stands for a missing region key or reverse status.

A JS `Map` with insertion order is a key sequence plus a map (`Records.LinkMap`).

Modules:
- `groups.dfy`: group names, the first-house lookup, the checkbox filter and the region rule tables.
- `records.dfy`: the rows and the `linkMap` build.
- `regions.dfy`: the rectangle layout, the main.js region key and the region fallback.
- `seeding.dfy`: grid cells and per-region slot counters.
- `consolidation.dfy`: main.js links.
- `projection.dfy`: main.js filters.
- `layout.dfy`: the nodes as objects, the boundary force, the drags, and filter application.
- `routing.dfy`: link offsets.
- `circle_regions.dfy`, `circle_links.dfy`, `circle_projection.dfy`, `circle_view.dfy`: the circular view.

Three behaviours of the code that are easy to miss, and that the model keeps:
- In main.js, a focused view still applies the checkboxes to the focus's neighbours.
- A focus naming no node shows no node at all. It does not fall back to the unfocused view.
- A region too thin for its padding clamps to the upper bound (`maxX`), not to the centre.

## Model

| member | source | states |
|---|---|---|
| Groups.FirstHouse | main.js:291-292 | the house found is a house the list contains, and there is none exactly when the list names no house |
| Groups.FirstHouseIsEarliest | main.js:291-292 | the house used is the one listed earliest in the groups, not the first in a fixed house order |
| Groups.RoleMatchIff | main.js:855-859 | `roleMatch` holds exactly when some listed group is a role whose checkbox is ticked |
| Groups.HouseMatchIff | main.js:861-865 | `houseMatch` holds exactly when some listed group is a house whose checkbox is ticked |
| Groups.HiddenIff | main.js:853-873 | a node fails the checkbox test iff it names a role but no checked role, or a house but no checked house |
| Groups.UncategorisedPasses | main.js:853-873 | a node naming neither a role nor a house passes whatever is checked |
| Groups.AllCheckedPasses | main.js:853-873 | with every checkbox ticked every node passes |
| Regions.BuildRegions | main.js:40-198 | the sixteen rectangles built by stepping `currentY` are the worked-out `GroupRegions`, and they have the layout properties below |
| Regions.GroupRegionsLayout | main.js:40-198 | each region has a non-empty padded interior, the sections lie inside Hogwarts, no two regions overlap, Outside is apart from Hogwarts, and each house's three bands share a column, top to bottom |
| Regions.RegionKeysDistinct | main.js:181-198 | the sixteen region names are pairwise different |
| Regions.HouseColumn | main.js:226-231 | each house has its column among the four |
| Common.IndexOf | main.js:429 | the index found holds the key and is the first such; none exactly when the key is absent |
| Regions.RegionFor | main.js:429 | the region rectangle listed under the key, or the outside band for an absent key or one that names no region (proved in `RegionForKnown` and the lemmas after it) |
| Regions.RegionForKnown | main.js:429 | a known region key selects its own rectangle |
| Regions.RegionForUnknown | main.js:429 | an unknown or missing key falls back to the Outside of Hogwarts rectangle |
| Regions.RegionKey | main.js:284-307 | the key is missing exactly for an empty group list |
| Regions.RegionKeyByRules | main.js:284-307 | for lists longer or shorter than one, the key is the first matching row of the rule table staff, student, resident |
| Regions.RegionKeySingleton | main.js:285-289 | a one-element list maps to that element |
| Regions.RegionKeyStaffHouse | main.js:291-296 | a staff member's key is staff plus the house listed earliest |
| Regions.RegionKeyStudentHouse | main.js:298-300 | without staff, a student's key is student plus the house listed earliest |
| Regions.RegionKeyResidentHouse | main.js:302-304 | without staff or students, a resident's key is resident plus the house listed earliest |
| Regions.RegionKeyHouselessStudent | main.js:299 | a houseless student (not staff) maps to Student+Gryffindor |
| Regions.RegionKeyNoRole | main.js:306 | without any of the three roles the key is the first group |
| Regions.ColumnKey | main.js:181-198 | each role-plus-house key is the name of that house's column region in that band |
| Regions.RegionKeyHasRegion | main.js:284-307 | every key of a list of two or more groups naming a role names one of the sixteen regions |
| Regions.LoneStudentFallsOutside | main.js:285-289 | the one-element list [Student] gets key Student, which names no region, so its node lands in the Outside rectangle |
| Seeding.CeilSqrt | main.js:431 | the column count is the ceiling of the square root of the group size |
| Seeding.CeilDiv | main.js:437 | the row count `ceil(total / cols)` rows of `cols` cells hold all the nodes and one row fewer does not |
| Seeding.GridCellInGrid | main.js:431-433 | every index below the group size maps to a column below `cols` and a row below the row count, row-major, and there are no more rows than columns |
| Seeding.AxisInside | main.js:436-441 | on one axis the jittered centre of a cell below the cell count lies within 7.5 of the padded span |
| Seeding.InitialPosition | main.js:428-444 | the centre of the node's grid cell in its region, moved by the two jitter draws, which are parameters (bounded in `InitialPositionInRegion`) |
| Seeding.InitialPositionInRegion | main.js:428-444 | the seeded position lies within the padded interior of the region, up to the half-width 7.5 of the random jitter |
| Seeding.Bump | main.js:334-348 | one counter increments and no other changes |
| Seeding.CountRegions | main.js:330-335 | `regionCounts` holds, for each key, how many characters have it, and exactly the keys that occur |
| Seeding.StartCounters | main.js:337-339 | every region name starts at counter zero |
| Seeding.AssignSlots | main.js:341-351 | each node's slot is the number of earlier nodes with its key, and its count is the number of nodes with its key |
| Seeding.SlotBelowCount | main.js:345-350 | each slot is below its group's size |
| Seeding.SlotsDistinct | main.js:345-350 | successive nodes of a region get strictly increasing, so distinct, slots |
| Records.Dedup | main.js:322-325 | the Set holds each id once, and exactly the ids of the input |
| Records.DedupFirstSeen | main.js:322-325 | the Set lists the ids in first-seen order: of two ids, the one listed first occurs first in the input |
| Records.BuildLinkMap | main.js:367-379 | the map's keys are the directed pairs in first-seen order; a pair is a key iff some row has it; the entry is the last row listed for the pair |
| Records.SetLastWins | main.js:370-378 | a later row for the same directed pair overwrites the earlier entry |
| Records.EndpointsAreCharacters | main.js:322-325 | every row's source and target are character ids |
| Records.CharactersAreEndpoints | main.js:322-325 | every character id is some row's source or target, and none is listed twice |
| Consolidation.Consolidate | main.js:381-413 | every directed entry is stood for by exactly one link: a same-status opposite pair by one mutual link, any other entry by a one-way link of its own, each carrying its entry's status and capital; the links follow the map's key order, and a mutual link runs along the direction seen first |
| Consolidation.CoveredByLink | main.js:381-413 | an entry is processed exactly when some pushed link stands for it |
| Consolidation.ExactlyOneLink | main.js:381-413 | each directed entry lies in the pair of exactly one link |
| Consolidation.LoadLinks | main.js:367-413 | each link comes from the last row for its direction and is mutual exactly when the last row for the opposite direction has the same status; both its ends are character ids; every row's direction is stood for by exactly one link; the links come in the order their directions are first listed, a merged link running along the direction listed first |
| Consolidation.SameStatusPairMerges | main.js:385-399 | rows A->B and B->A with equal statuses cannot be read as a one-way link from A to B |
| Projection.Visible | main.js:839-874 | with a focus, a node other than the focus is shown only when linked to it and passing the checkbox tests, the focus always; without one, the checkbox tests alone decide |
| Projection.VisibleNodes | main.js:839-874 | the visible nodes are exactly the nodes passing the filter, no more of them than nodes |
| Projection.VisibleNodesIsFilter | main.js:839-874 | the filter keeps the original order: it distributes over concatenation and keeps one node exactly when it passes |
| Projection.NoFocusHiddenIff | main.js:853-873 | with no focus a node is hidden iff it names a role but no checked role, or a house but no checked house |
| Projection.NoFocusUncategorisedVisible | main.js:853-873 | with no focus a node naming neither a role nor a house is shown |
| Projection.AllCheckedShowsAll | main.js:839-874 | with no focus and every box ticked every node is shown |
| Projection.FocusVisibleIff | main.js:841-850 | with a focus a node is shown iff it is the focus, or it is linked to the focus and passes the checkbox test |
| Projection.FocusAllCheckedNeighbours | main.js:841-850 | with a focus and every box ticked, the focus and its neighbours are shown |
| Projection.UnknownFocusShowsNothing | main.js:841-850 | a focus that names no node shows no node |
| Projection.FocusLinks | main.js:879-889 | with a focus, the links with one end at the focus and the other end shown; without one, the links with both ends shown |
| Projection.Refilter | main.js:916 | the links whose two ends are among the simulated nodes |
| Projection.RefilterIdentity | main.js:879-889 | with no focus, or a focus naming a node, the re-filter removes nothing |
| Layout.SimNode.constructor | main.js:341-364 | a new node is unpinned and at rest at its seed position |
| Layout.Clamp | main.js:642-645 | the value lands between the bounds, is unchanged inside them, and goes to the upper bound when the bounds cross |
| Layout.Damp | main.js:647-656 | the velocity is kept or zeroed, and never points outward at a bound |
| Layout.TickInside | main.js:630-658 | an unpinned node of a region with a non-empty padded interior ends inside that interior |
| Layout.TickNoOutwardVelocity | main.js:647-656 | after the force no velocity component points outward at a bound |
| Layout.TickKeepsInsidePosition | main.js:642-645 | a node already inside is not moved |
| Layout.TickIdempotent | main.js:630-658 | applying the boundary force twice equals applying it once |
| Layout.ContainAxis | main.js:642-656 | on one axis the position ends clamped to the padded bounds, and the velocity is zeroed exactly when it points out of a bound the position sits on |
| Layout.BoundaryStep | main.js:631-657 | one node's position and velocity become the force's result, and a pinned node is left untouched |
| Layout.ForceStrictBoundary | main.js:628-660 | every node's new state is the force's result from its old state; `fx`/`fy` do not change |
| Layout.DragClamp | main.js:1149-1150 | `max(min, min(max, v))` lands between the bounds, and on the lower bound when they cross |
| Layout.DragClampIsClamp | main.js:1149-1150 | dragging clamps exactly as the boundary force does whenever the interior is non-empty |
| Layout.BandView.constructor | main.js:606-626 | the simulation starts on all the nodes and links |
| Layout.BandView.DragStarted | main.js:1135-1139 | the node is pinned where it is, and the simulation warms only when no other drag is active |
| Layout.BandView.Dragged | main.js:1141-1160 | the node is pinned at the pointer clamped into its region's padded interior, or at the pointer itself without a region |
| Layout.BandView.DragEnded | main.js:1162-1164 | the simulation cools only when no other drag is active, and the node stays pinned |
| Layout.BandView.ApplyFilters | main.js:817-958 | the simulation receives the visible nodes and the kept links, re-filtered to the visible ends, and is reheated to 0.5; every link it runs joins two simulated nodes; without a simulation nothing changes |
| Layout.BandView.ResetFilters | main.js:811-815 | after a reset every node is simulated again, with every link whose two ends are loaded nodes |
| Layout.ResetLinks | main.js:879-916 | with no focus and every box ticked, the links kept and then re-filtered are the links whose two ends are loaded |
| Projection.NoFocusLinksAreRefilter | main.js:879-916 | without a focus the link filter of `applyFilters` and the simulation's re-filter keep the same links, in order |
| Layout.KeepNodes | main.js:907 | the nodes kept are exactly those whose id is visible |
| Layout.AllCheckedKeepsAll | main.js:907 | with no focus and every box ticked every node is kept |
| Layout.KeysOf | main.js:341-345 | each character's key is the region key of its groups |
| Layout.MakeNodes | main.js:341-364 | one fresh, unpinned node per seed, no object twice, each carrying its seed's id, groups, key, region and position |
| Layout.LoadNodes | main.js:322-365 | one fresh, unpinned node per character id, in id order, each seeded as its slot and group size say |
| Layout.SeedsInRegion | main.js:428-444 | every loaded node is seeded inside its region's padded interior, up to the jitter |
| Routing.LinksFrom | main.js:694-696 | the links grouped under a source are exactly the links leaving it |
| Routing.LinksFromIsFilter | main.js:694-696 | the grouping keeps link order: it distributes over concatenation and keeps one link exactly when it leaves the source |
| Routing.HasReverse | main.js:1031-1034 | some link runs from the target back to the source, by its two ends only |
| Routing.SpreadOffset | main.js:1036-1041 | `(index - (n - 1) / 2) * 25` for a fan of more than one link, else 0 |
| Routing.TotalOffset | main.js:1024-1045 | the spread offset of the link's index among its source's links, plus 15 when a link runs back |
| Routing.Shape | main.js:1053-1054 | a straight segment when the total offset is below 5 in size, a curve otherwise |
| Routing.SpreadSymmetric | main.js:1036-1041 | the `i`-th link from either end of the fan gets opposite offsets |
| Routing.SpreadDistinct | main.js:1036-1041 | different indices in a fan of two or more get different offsets |
| Routing.SpreadBounded | main.js:1036-1041 | every offset lies within `(n - 1) * 12.5` of zero |
| Routing.FindIndex | main.js:1025-1029 | the first matching link's index, or -1 exactly when no link matches |
| Routing.SpreadSumClosedForm | main.js:1036-1041 | the first `k` spread offsets of `n` sum to `12.5 k (k - n)` |
| Routing.SpreadSumsToZero | main.js:1036-1041 | the spread offsets of all the links leaving a node sum to zero |
| Routing.KeysDistinct | main.js:381-413 | no two consolidated links share a direction |
| Routing.FindIndexFindsLink | main.js:1025-1029 | for links with distinct directions, `findIndex` returns the link's own position |
| Routing.MutualHasNoReverse | main.js:1031-1034 | a mutual link between two nodes has no drawn reverse, so it gets no reverse offset |
| Routing.LoneLinkShape | main.js:1036-1055 | a lone link is straight, unless a link runs back, which makes it curve |
| Routing.FanCurves | main.js:1036-1055 | two links leaving a node both curve |
| CircleRegions.RegionKey | main-circle.js:68-83 | the key is missing exactly for an empty group list |
| CircleRegions.RegionKeyByRules | main-circle.js:68-83 | the key is the first matching row of the table outside, staff, student, resident, for every list |
| CircleRegions.OutsideWins | main-circle.js:69 | Outside of Hogwarts anywhere in the list decides the key |
| CircleRegions.StaffHouse | main-circle.js:70-73 | staff use the house listed earliest |
| CircleRegions.StudentHouse | main-circle.js:74-77 | students (not staff) use the house listed earliest |
| CircleRegions.ResidentHouse | main-circle.js:78-81 | residents (neither staff nor students) use the house listed earliest |
| CircleRegions.HouselessStudent | main-circle.js:76 | a houseless student is plain Student |
| CircleRegions.NoRoleFirstGroup | main-circle.js:82 | without any role the key is the first group |
| CircleLinks.ConsolidateCircle | main-circle.js:128-159 | every directed entry is stood for by exactly one link: any opposite pair by one link keeping both statuses, mutual iff they are equal; a one-way entry by a link with no reverse status, not mutual; the links follow the map's key order, and a paired link runs along the direction seen first |
| CircleLinks.ExactlyOneCircleLink | main-circle.js:128-159 | each directed entry lies in the pair of exactly one link |
| CircleLinks.LoadCircleLinks | main-circle.js:116-159 | a link's status is the last row's for its direction; it has a reverse status iff a row runs the other way, taken from the last such row; it is mutual iff the two are equal; every row's direction is stood for by exactly one link; the links come in the order their directions are first listed, a paired link running along the direction listed first |
| CircleLinks.IsActive | main-circle.js:419 | neither end of the link is switched off |
| CircleLinks.IsSplit | main-circle.js:382 | a truthy reverse status that differs from the status: the link is drawn as two halves |
| CircleLinks.HasEndArrow | main-circle.js:382-408 | a single-colour line of a link that is not mutual carries an end marker |
| CircleLinks.ActiveIff | main-circle.js:419 | a link touching a switched-off node is inactive; it is active exactly when that end is on and the link would stay active with that end taken out of the switched-off set |
| CircleLinks.DrawingOfEntries | main-circle.js:382-422 | split into two halves iff opposite entries have different statuses with a non-empty reverse; an arrow iff the entry is one-way, or its reverse status is empty and its own is not; mutual iff equal statuses |
| CircleProjection.LoadCircleNodes | main-circle.js:102-113 | one node per character id, in first-seen order, with its groups (Outside when it has no social record) and its region key |
| CircleProjection.LoadedNodeIds | main-circle.js:97-113 | the node ids are the relationship endpoints, each once |
| CircleProjection.LoadedNodeRegion | main-circle.js:105-111 | a character without a social record gets the Outside key, and a key is missing only for an empty group list |
| CircleProjection.CircleVisible | main-circle.js:251-284 | the focus is always shown; any other node must pass the checkbox tests and, with a focus, be linked to it |
| CircleProjection.CircleVisibleNodes | main-circle.js:252-284 | the visible nodes are exactly the nodes passing the filter, no more of them than nodes |
| CircleProjection.CircleVisibleNodesIsFilter | main-circle.js:252-284 | the filter keeps the original order: it distributes over concatenation and keeps one node exactly when it passes |
| CircleProjection.FocusAlwaysVisible | main-circle.js:271 | the focus node is shown whatever the checkboxes say |
| CircleProjection.OtherVisibleIff | main-circle.js:272-281 | any other node is shown iff it passes the role and house tests and, with a focus, is linked to the focus |
| CircleProjection.SameNodesAsBandView | main-circle.js:252-284 | over links with the same ends, both views show the same nodes |
| CircleProjection.CircleVisibleLinks | main-circle.js:300-306 | with a focus, the links touching the focus whose two ends are shown; without one, the links whose two ends are shown |
| CircleProjection.VisibleLinksIff | main-circle.js:300-306 | a link is kept iff both ends are shown and, with a focus, one of them is the focus |
| CircleProjection.FocusLinksJoinNeighbours | main-circle.js:300-306 | with a focus, each kept link joins the focus to itself or to a neighbour passing the checkboxes |
| CircleProjection.HouseRank | main-circle.js:288-295 | the rank is 1 to 5, and 5 exactly for a houseless node |
| CircleProjection.HouseRankOfEarliest | main-circle.js:288-295 | the house listed earliest decides the rank: Slytherin 1, Ravenclaw 2, Hufflepuff 3, Gryffindor 4 |
| CircleProjection.SortByHouse | main-circle.js:287-296 | the sorted nodes are a permutation of the visible nodes |
| CircleProjection.SortByHouseSorted | main-circle.js:287-296 | the sorted nodes are in non-decreasing house rank |
| CircleProjection.SortByHouseStable | main-circle.js:287-296 | the nodes of each house keep their relative order |
| CircleProjection.SortKeepsIds | main-circle.js:298 | sorting keeps the set of shown ids |
| CircleProjection.ShownAreFocusOrNeighbours | main-circle.js:252-296 | with a focus, every sorted node is the focus or linked to it |
| CircleProjection.RingNodes | main-circle.js:321-336 | the ring nodes are the nodes other than the focus |
| CircleProjection.ComputePositions | main-circle.js:316-343 | the map has a key for every shown node and, in focus mode, the focus at the centre; every other key holds a ring place of the ring's size whose node has that id |
| CircleProjection.RingPlacesDistinct | main-circle.js:324-342 | different nodes get different ring places |
| CircleProjection.RingIndexOfNode | main-circle.js:324-332 | with distinct ids, the `i`-th ring node gets ring place `i` |
| CircleProjection.LinkEndsPlaced | main-circle.js:376-422 | every drawn link finds a position for both its ends |
| CircleView.Toggled | main-circle.js:580-588 | the focus is never switched; any other node has its membership flipped and nothing else changes |
| CircleView.ToggleTwice | main-circle.js:580-588 | clicking the same node twice restores the set |
| CircleView.FocusNeverInactivated | main-circle.js:581 | a click never switches the focus node off |
| CircleView.ToggleSwitchesLinks | main-circle.js:580-588 | switching a node off deactivates exactly the links touching it |
| CircleView.AllTickedIff | main-circle.js:220-228 | the all box is ticked exactly when all eight boxes are |
| CircleView.Uniform | main-circle.js:208-216 | all the boxes set alike: the all box agrees, and unticked means no box is on |
| CircleView.CirclePage.Load | main-circle.js:86-163 | after loading, the page holds the loaded nodes and the links read off the rows (statuses, reverse statuses, mutual flags, every row's direction stood for once, in first-listed order), has no focus and nothing switched off, keeps the checkboxes as the page starts with them, and shows the unfocused view |
| CircleView.Render | main-circle.js:239-343 | the nodes handed on are the visible nodes sorted by house, the links those among them kept by the filter, and the positions placed with the given focus |
| CircleView.CirclePage.ApplyFilters | main-circle.js:239-343 | the shown nodes are the visible nodes sorted by house and the shown links the kept links, both filtered with the argument; the positions are computed with the global focus |
| CircleView.CirclePage.SelectFocus | main-circle.js:183-186 | the focus is stored and the focused view shown |
| CircleView.CirclePage.ToggleNodeAsWritten | main-circle.js:580-590 | the click flips the node, and the page is filtered with no focus |
| CircleView.CirclePage.ToggleNode | main-circle.js:580-590 | the click flips the node, and the page is filtered with the global focus |
| CircleView.CirclePage.SetFilterAsWritten | main-circle.js:195-201 | a checkbox change shows the unfocused view and updates the all box |
| CircleView.CirclePage.SetFilter | main-circle.js:195-201 | a checkbox change shows the focused view and updates the all box |
| CircleView.CirclePage.SetAllFiltersAsWritten | main-circle.js:208-218 | every box is set alike and the unfocused view shown |
| CircleView.CirclePage.SetAllFilters | main-circle.js:208-218 | every box is set alike and the focused view shown |
| CircleView.CirclePage.ResetFilters | main-circle.js:230-236 | the focus is cleared, nothing is switched off, every box is ticked, and the unfocused view shown |
| CircleView.ResetShowsAll | main-circle.js:252-296 | after a reset every loaded node is shown exactly once |
| CircleView.FocusDroppedExample | main-circle.js:183-200 | a focus set on A with links A to B: the handlers filtering without the focus show C, which is not linked to A; the focused filter does not |

## Left out

- Drawing is not modelled: SVG and DOM work, the arrow markers, labels and their `getBBox` backgrounds, colours, zoom, and building the focus dropdown. This is presentation.
- The checkboxes' starting state comes from the page markup, which is not part of this model. `CircleView.CirclePage.Load` takes it as the parameters `boxes` and `allTicked`.
- The d3 force simulation is not modelled: link, charge and collision forces, alpha decay and velocity integration run in a foreign library with floating-point numerics. Only the custom boundary force and the simulation fields the handlers set (`alpha`, `alphaTarget`, nodes, links) are modelled.
- Loading files (`d3.csv`, `d3.json`) is I/O. The model takes the parsed rows and social records as parameters.
- `characters.json` (names and images) and the name fallback regex are left out. They only feed labels.
- The `Math.random()` draws are the `jitter` parameter of `Layout.LoadNodes`.
- Trigonometry is left out: `atan2`/`cos`/`sin`, the endpoint shrinking, the Bézier control point and the ring angles. The model keeps the offsets, ring indices and ring size instead.
- `Seeding.CeilSqrt` is an integer ceiling square root. It does not model `Math.sqrt` on floating point; both agree on the integers involved.
- Region keys are joined by string concatenation. `linkMap` keys are pairs rather than the string `source->target`, so ids that contain `->` and collide in JavaScript do not collide in the model.
- `groupRegions[key]` is looked up in a list of the sixteen region names. Prototype keys of a JavaScript object (such as `constructor`) are not modelled.
- The unused `square` routing branch and `visualGroups` are dead code and are left out.
- The label pluralisation table is cosmetic and is left out.
- Layout.DragClamp vs Layout.Clamp: when a region is thinner than twice its padding, dragging clamps to the lower bound and the boundary force to the upper one. `Layout.DragClampIsClamp` relates the two only for non-empty interiors.
- `Layout.LoadNodes` describes node `i` through a seed value (`Layout.NodeSeedFor`), built before the objects are allocated. It does not follow the JavaScript's interleaving of reading and incrementing the counter for each node; `Seeding.AssignSlots` models that counter loop on its own.
- The tick loop that applies `Layout.ForceStrictBoundary` is not modelled. In main.js the force closes over the `nodes` array handed to `createVisualization` (main.js:418, 446, 630), so it moves every loaded node (`Layout.BandView.allNodes`), hidden ones included, not only the simulation's current nodes.
- The circular view's `updateNodePositions`/`updateNodeStates` only restyle nodes, and are left out. Which links are active is modelled by `CircleLinks.IsActive`.
- JavaScript string comparison is modelled as sequence equality. The circular view's dropdown sort by `localeCompare` is not modelled.

## Findings

| source | as written | input that shows it | evidently intended | confidence | as-written member | corrected member |
|---|---|---|---|---|---|---|
| main-circle.js:239, 580-590 | `applyFilters(focusNodeId)` takes the focus as a parameter that shadows the global, and `toggleNode` calls `applyFilters()` with no argument. A click with a focus set filters nodes and links as if there were no focus, while `updateVisualization` still places the global focus at the centre. | Focus A; nodes A, B, C naming no group; one link A to B; click B. C is then shown on the ring, though it is not linked to A. | The click keeps the focused view, as the dropdown handler does by passing `focusNodeId`. | not executed | CircleView.CirclePage.ToggleNodeAsWritten | CircleView.CirclePage.ToggleNode |
| main-circle.js:195-201, 208-218 | The checkbox change handler and `handleAllCheckbox` also call `applyFilters()` with no argument, so changing a checkbox while a focus is set drops the focus filter in the same way. | Focus A with the nodes and link above; untick and tick any box. C is then shown. | Changing a checkbox keeps the focused view. | not executed | CircleView.CirclePage.SetFilterAsWritten | CircleView.CirclePage.SetFilter |

`CircleView.FocusDroppedExample` proves, for the input above, the following:
- The unfocused filter that the as-written handlers apply shows C.
- C is not linked to A.
- The focused filter, which the corrected handlers apply, does not show C.

`CircleProjection.ShownAreFocusOrNeighbours` proves the intended property of the corrected handlers: with a focus, every shown node is the focus or linked to it.
