/** The region layout of the stacked-band view (main.js): the rectangles of
    `groupRegions`, the group-list-to-region-key rule, the fallback lookup, and
    the seeding of each node in a grid cell of its region. */
module Regions {
  import opened Common
  import opened Groups

  /** A rectangle of layout space, `{x, y, width, height}`. */
  datatype Rect = Rect(x: real, y: real, width: real, height: real)

  const Width: real := 1920.0
  const Height: real := 1080.0

  const StaffPureHeight: real := 120.0
  const StaffHouseHeight: real := 250.0
  const StudentHeight: real := 450.0
  const ResidentHouseHeight: real := 100.0
  const ResidentPureHeight: real := 80.0
  const SectionPadding: real := 50.0
  const ColumnGap: real := 5.0

  /** The inner padding the boundary force and the drag handler keep from a region's edge. */
  const Padding: real := 10.0

  function MinX(r: Rect): real { r.x + Padding }
  function MaxX(r: Rect): real { r.x + r.width - Padding }
  function MinY(r: Rect): real { r.y + Padding }
  function MaxY(r: Rect): real { r.y + r.height - Padding }

  /** The padded interior of `r` is not empty. */
  predicate HasInterior(r: Rect)
  {
    MinX(r) <= MaxX(r) && MinY(r) <= MaxY(r)
  }

  predicate Inside(inner: Rect, outer: Rect)
  {
    && outer.x <= inner.x && inner.x + inner.width <= outer.x + outer.width
    && outer.y <= inner.y && inner.y + inner.height <= outer.y + outer.height
  }

  /** The two rectangles share no interior point (they may touch along an edge). */
  predicate Apart(a: Rect, b: Rect)
  {
    a.x + a.width <= b.x || b.x + b.width <= a.x || a.y + a.height <= b.y || b.y + b.height <= a.y
  }

  const HogwartsKey: string := "Hogwarts"

  /** The keys of `groupRegions`, in its declaration order: the Hogwarts frame,
      the outside band, the two full-width bands and the twelve house columns. */
  const RegionKeys: seq<string> := [
    HogwartsKey, Outside, Staff, Residents,
    "Hogwarts Staff+Slytherin", "Hogwarts Staff+Ravenclaw", "Hogwarts Staff+Hufflepuff", "Hogwarts Staff+Gryffindor",
    "Student+Slytherin", "Student+Ravenclaw", "Student+Hufflepuff", "Student+Gryffindor",
    "Non-Academic Residents+Slytherin", "Non-Academic Residents+Ravenclaw",
    "Non-Academic Residents+Hufflepuff", "Non-Academic Residents+Gryffindor"
  ]

  /** Index in `RegionKeys` of the column of the `h`-th house of `Houses` in the
      band whose first column has index `band`. The columns run Slytherin,
      Ravenclaw, Hufflepuff, Gryffindor from left to right. */
  function ColumnIndex(band: nat, h: nat): nat
    requires h < 4
  {
    band + (if h == 0 then 0 else if h == 1 then 1 else if h == 2 then 3 else 2)
  }

  /** The position of house `h` in `Houses`. */
  function HouseColumn(h: string): (c: nat)
    requires IsHouse(h)
    ensures c < 4 && Houses[c] == h
  {
    if h == Slytherin then 0 else if h == Ravenclaw then 1 else if h == Gryffindor then 2 else 3
  }

  lemma RegionKeysDistinct()
    ensures Distinct(RegionKeys)
  {
  }

  /** What the region layout promises, for rectangles listed in the order of
      `RegionKeys`: a non-empty padded interior everywhere; every band and column
      inside the Hogwarts frame; no two zones overlapping; the outside band apart
      from the frame; and each house's three columns stacked staff over students
      over residents on the same x range. */
  ghost predicate Layout(rects: seq<Rect>)
  {
    && |rects| == |RegionKeys|
    && (forall i :: 0 <= i < |rects| ==> HasInterior(rects[i]))
    && (forall i :: 2 <= i < |rects| ==> Inside(rects[i], rects[0]))
    && (forall i, j :: 1 <= i < j < |rects| ==> Apart(rects[i], rects[j]))
    && Apart(rects[0], rects[1])
    && (forall h :: 0 <= h < 4 ==>
          && rects[ColumnIndex(4, h)].x == rects[ColumnIndex(8, h)].x == rects[ColumnIndex(12, h)].x
          && rects[ColumnIndex(4, h)].y < rects[ColumnIndex(8, h)].y < rects[ColumnIndex(12, h)].y)
  }

  /** The construction of the region constants, stepping `currentY` down the
      bands; `groupRegions` maps `RegionKeys[i]` to the `i`-th rectangle returned. */
  method BuildRegions() returns (rects: seq<Rect>)
    ensures rects == GroupRegions && Layout(rects)
  {
    GroupRegionsLayout();
    var hogwarts := Rect(0.0, 0.0, Width,
      StaffPureHeight + StaffHouseHeight + StudentHeight + ResidentHouseHeight + ResidentPureHeight + 100.0);
    var innerWidth := hogwarts.width - SectionPadding * 2.0;
    var currentY := hogwarts.y + SectionPadding;

    var staffPure := Rect(hogwarts.x + SectionPadding, currentY, innerWidth, StaffPureHeight);
    currentY := currentY + StaffPureHeight + 10.0;

    var columnWidth := (innerWidth - 3.0 * ColumnGap) / 4.0;
    var staffSlytherin := Rect(hogwarts.x + SectionPadding, currentY, columnWidth, StaffHouseHeight);
    var staffRavenclaw := Rect(staffSlytherin.x + columnWidth + ColumnGap, currentY, columnWidth, StaffHouseHeight);
    var staffHufflepuff := Rect(staffRavenclaw.x + columnWidth + ColumnGap, currentY, columnWidth, StaffHouseHeight);
    var staffGryffindor := Rect(staffHufflepuff.x + columnWidth + ColumnGap, currentY, columnWidth, StaffHouseHeight);
    currentY := currentY + StaffHouseHeight;

    var studentSlytherin := Rect(hogwarts.x + SectionPadding, currentY, columnWidth, StudentHeight);
    var studentRavenclaw := Rect(studentSlytherin.x + columnWidth + ColumnGap, currentY, columnWidth, StudentHeight);
    var studentHufflepuff := Rect(studentRavenclaw.x + columnWidth + ColumnGap, currentY, columnWidth, StudentHeight);
    var studentGryffindor := Rect(studentHufflepuff.x + columnWidth + ColumnGap, currentY, columnWidth, StudentHeight);
    currentY := currentY + StudentHeight;

    var residentSlytherin := Rect(hogwarts.x + SectionPadding, currentY, columnWidth, ResidentHouseHeight);
    var residentRavenclaw := Rect(residentSlytherin.x + columnWidth + ColumnGap, currentY, columnWidth, ResidentHouseHeight);
    var residentHufflepuff := Rect(residentRavenclaw.x + columnWidth + ColumnGap, currentY, columnWidth, ResidentHouseHeight);
    var residentGryffindor := Rect(residentHufflepuff.x + columnWidth + ColumnGap, currentY, columnWidth, ResidentHouseHeight);
    currentY := currentY + ResidentHouseHeight + 10.0;

    var residentPure := Rect(hogwarts.x + SectionPadding, currentY, innerWidth, ResidentPureHeight);
    var outsideOfHogwarts := Rect(0.0, hogwarts.height + 20.0, Width, Height * 0.25 - 20.0);

    rects := [
      hogwarts, outsideOfHogwarts, staffPure, residentPure,
      staffSlytherin, staffRavenclaw, staffHufflepuff, staffGryffindor,
      studentSlytherin, studentRavenclaw, studentHufflepuff, studentGryffindor,
      residentSlytherin, residentRavenclaw, residentHufflepuff, residentGryffindor
    ];
  }

  /** The rectangles `BuildRegions` computes, worked out: the frame is 1100
      high, the columns 451.25 wide, and the bands start at y = 50, 180, 430,
      880 and 990; the outside band starts 20 below the frame. */
  const GroupRegions: seq<Rect> := [
    Rect(0.0, 0.0, 1920.0, 1100.0), Rect(0.0, 1120.0, 1920.0, 250.0),
    Rect(50.0, 50.0, 1820.0, 120.0), Rect(50.0, 990.0, 1820.0, 80.0),
    Rect(50.0, 180.0, 451.25, 250.0), Rect(506.25, 180.0, 451.25, 250.0),
    Rect(962.5, 180.0, 451.25, 250.0), Rect(1418.75, 180.0, 451.25, 250.0),
    Rect(50.0, 430.0, 451.25, 450.0), Rect(506.25, 430.0, 451.25, 450.0),
    Rect(962.5, 430.0, 451.25, 450.0), Rect(1418.75, 430.0, 451.25, 450.0),
    Rect(50.0, 880.0, 451.25, 100.0), Rect(506.25, 880.0, 451.25, 100.0),
    Rect(962.5, 880.0, 451.25, 100.0), Rect(1418.75, 880.0, 451.25, 100.0)
  ]

  lemma GroupRegionsLayout()
    ensures Layout(GroupRegions)
  {
    GroupRegionsApart();
    GroupRegionsInside();
    GroupRegionsStacked();
  }

  lemma GroupRegionsInside()
    ensures forall i :: 0 <= i < |GroupRegions| ==> HasInterior(GroupRegions[i])
    ensures forall i :: 2 <= i < |GroupRegions| ==> Inside(GroupRegions[i], GroupRegions[0])
  {
  }

  lemma GroupRegionsStacked()
    ensures forall h :: 0 <= h < 4 ==>
      && GroupRegions[ColumnIndex(4, h)].x == GroupRegions[ColumnIndex(8, h)].x == GroupRegions[ColumnIndex(12, h)].x
      && GroupRegions[ColumnIndex(4, h)].y < GroupRegions[ColumnIndex(8, h)].y < GroupRegions[ColumnIndex(12, h)].y
  {
  }

  /** No two zones of `GroupRegions` overlap: the bands are stacked, and the
      columns of a band are side by side. */
  lemma GroupRegionsApart()
    ensures forall i, j :: 1 <= i < j < |GroupRegions| ==> Apart(GroupRegions[i], GroupRegions[j])
  {
  }

  /** `groupRegions[regionKey] || groupRegions['Outside of Hogwarts']`, with
      `groupRegions` given as rectangles in the order of `RegionKeys`; an absent
      key (`undefined`) or one that names no region yields the outside band. */
  function RegionFor(rects: seq<Rect>, key: Option<string>): Rect
    requires |rects| == |RegionKeys|
  {
    if key.None? then rects[1]
    else match IndexOf(RegionKeys, key.value)
      case None => rects[1]
      case Some(i) => rects[i]
  }

  /** The lookup finds the rectangle declared under the key, and falls back to
      the outside band exactly for the keys that name no region. */
  lemma RegionForKnown(rects: seq<Rect>, i: nat)
    requires |rects| == |RegionKeys| && i < |RegionKeys|
    ensures RegionFor(rects, Some(RegionKeys[i])) == rects[i]
  {
    RegionKeysDistinct();
  }

  lemma RegionForUnknown(rects: seq<Rect>, key: Option<string>)
    requires |rects| == |RegionKeys|
    requires key.None? || key.value !in RegionKeys
    ensures RegionFor(rects, key) == rects[1]
  {
  }

  /** `getRegionKey` of the stacked-band view. A one-element list is its own
      key; otherwise staff beats students beats residents, each combined with
      the first house listed (a houseless student goes to the Gryffindor
      column); without any of those roles the first group is the key, and an
      empty list gives `undefined`. */
  function RegionKey(groups: seq<string>): (k: Option<string>)
    ensures k.None? <==> groups == []
  {
    if |groups| == 1 then Some(groups[0])
    else
      var house := FirstHouse(groups);
      if Staff in groups then Some(if house.Some? then Staff + "+" + house.value else Staff)
      else if Student in groups then Some(Student + "+" + (if house.Some? then house.value else Gryffindor))
      else if Residents in groups then Some(if house.Some? then Residents + "+" + house.value else Residents)
      else if groups == [] then None
      else Some(groups[0])
  }

  /** The precedence of `getRegionKey` for lists of other than one group, as a
      priority table. */
  const MainRules: seq<RegionRule> := [
    RegionRule(Staff, true, Staff),
    RegionRule(Student, true, Student + "+" + Gryffindor),
    RegionRule(Residents, true, Residents)
  ]

  lemma RegionKeyByRules(groups: seq<string>)
    requires |groups| != 1
    ensures RegionKey(groups) == ApplyRules(MainRules, groups)
  {
    var r1, r2 := MainRules[1..], MainRules[2..];
    assert r1[0] == MainRules[1] && r1[1..] == r2;
    assert r2[0] == MainRules[2] && r2[1..] == [];
    assert ApplyRules(r2, groups) == if Residents in groups then Some(RuleKey(MainRules[2], FirstHouse(groups)))
                                     else ApplyRules([], groups);
  }

  lemma RegionKeySingleton(g: string)
    ensures RegionKey([g]) == Some(g)
  {
  }

  /** A staff member's key uses the house listed earliest, whatever else the list names. */
  lemma RegionKeyStaffHouse(groups: seq<string>, i: nat)
    requires |groups| != 1 && Staff in groups
    requires i < |groups| && IsHouse(groups[i]) && forall j :: 0 <= j < i ==> !IsHouse(groups[j])
    ensures RegionKey(groups) == Some(Staff + "+" + groups[i])
  {
    FirstHouseIsEarliest(groups, i);
  }

  /** Without staff, a student's key uses the house listed earliest. */
  lemma RegionKeyStudentHouse(groups: seq<string>, i: nat)
    requires |groups| != 1 && Staff !in groups && Student in groups
    requires i < |groups| && IsHouse(groups[i]) && forall j :: 0 <= j < i ==> !IsHouse(groups[j])
    ensures RegionKey(groups) == Some(Student + "+" + groups[i])
  {
    FirstHouseIsEarliest(groups, i);
  }

  /** Without staff or students, a resident's key uses the house listed earliest. */
  lemma RegionKeyResidentHouse(groups: seq<string>, i: nat)
    requires |groups| != 1 && Staff !in groups && Student !in groups && Residents in groups
    requires i < |groups| && IsHouse(groups[i]) && forall j :: 0 <= j < i ==> !IsHouse(groups[j])
    ensures RegionKey(groups) == Some(Residents + "+" + groups[i])
  {
    FirstHouseIsEarliest(groups, i);
  }

  /** A student in a list of several groups naming no house goes to the Gryffindor column. */
  lemma RegionKeyHouselessStudent(groups: seq<string>)
    requires |groups| != 1 && Staff !in groups && Student in groups
    requires forall g :: g in groups ==> !IsHouse(g)
    ensures RegionKey(groups) == Some(RegionKeys[11])
  {
    assert RegionKeys[11] == Student + "+" + Gryffindor;
  }

  /** Several groups naming none of the three roles: the first group is the key. */
  lemma RegionKeyNoRole(groups: seq<string>)
    requires |groups| > 1 && Staff !in groups && Student !in groups && Residents !in groups
    ensures RegionKey(groups) == Some(groups[0])
  {
  }

  /** "role+house" is the key of the house's column in the role's band. */
  lemma ColumnKey(role: string, band: nat, h: string)
    requires (role, band) == (Staff, 4) || (role, band) == (Student, 8) || (role, band) == (Residents, 12)
    requires IsHouse(h)
    ensures role + "+" + h == RegionKeys[ColumnIndex(band, HouseColumn(h))]
  {
    if role == Staff {
      StaffColumnKey(h);
    } else if role == Student {
      StudentColumnKey(h);
    } else {
      ResidentColumnKey(h);
    }
  }

  lemma StaffColumnKey(h: string)
    requires IsHouse(h)
    ensures Staff + "+" + h == RegionKeys[ColumnIndex(4, HouseColumn(h))]
  {
    if h == Slytherin { assert Staff + "+" + h == RegionKeys[4]; }
    else if h == Ravenclaw { assert Staff + "+" + h == RegionKeys[5]; }
    else if h == Gryffindor { assert Staff + "+" + h == RegionKeys[7]; }
    else { assert Staff + "+" + h == RegionKeys[6]; }
  }

  lemma StudentColumnKey(h: string)
    requires IsHouse(h)
    ensures Student + "+" + h == RegionKeys[ColumnIndex(8, HouseColumn(h))]
  {
    if h == Slytherin { assert Student + "+" + h == RegionKeys[8]; }
    else if h == Ravenclaw { assert Student + "+" + h == RegionKeys[9]; }
    else if h == Gryffindor { assert Student + "+" + h == RegionKeys[11]; }
    else { assert Student + "+" + h == RegionKeys[10]; }
  }

  lemma ResidentColumnKey(h: string)
    requires IsHouse(h)
    ensures Residents + "+" + h == RegionKeys[ColumnIndex(12, HouseColumn(h))]
  {
    if h == Slytherin { assert Residents + "+" + h == RegionKeys[12]; }
    else if h == Ravenclaw { assert Residents + "+" + h == RegionKeys[13]; }
    else if h == Gryffindor { assert Residents + "+" + h == RegionKeys[15]; }
    else { assert Residents + "+" + h == RegionKeys[14]; }
  }

  /** Every list of several groups that names staff, students or residents gets
      a key that has a region, so it never falls back to the outside band. */
  lemma RegionKeyHasRegion(groups: seq<string>)
    requires |groups| > 1 && (Staff in groups || Student in groups || Residents in groups)
    ensures RegionKey(groups).Some? && RegionKey(groups).value in RegionKeys
  {
    var house := FirstHouse(groups);
    if house.Some? {
      var h := house.value;
      if Staff in groups {
        ColumnKey(Staff, 4, h);
      } else if Student in groups {
        ColumnKey(Student, 8, h);
      } else {
        ColumnKey(Residents, 12, h);
      }
    } else if Student in groups && Staff !in groups {
      assert RegionKeys[11] == Student + "+" + Gryffindor;
    }
  }

  /** A list holding only "Student" is its own key, which names no region: such
      a node is seeded, and contained, in the outside band. */
  lemma LoneStudentFallsOutside(rects: seq<Rect>)
    requires |rects| == |RegionKeys|
    ensures RegionKey([Student]) == Some(Student)
    ensures RegionFor(rects, RegionKey([Student])) == rects[1]
  {
    assert Student !in RegionKeys;
  }
}
