/** `getRegionKey` of the circular view (main-circle.js), whose precedence
    differs from the stacked-band view's. */
module CircleRegions {
  import opened Common
  import opened Groups

  /** Being outside Hogwarts beats every role; then staff, students and
      residents, each combined with the first house listed; a houseless
      student is plain "Student"; otherwise the first group, `undefined` for an
      empty list. There is no special case for one-element lists. */
  function RegionKey(groups: seq<string>): (k: Option<string>)
    ensures k.None? <==> groups == []
  {
    if Outside in groups then Some(Outside)
    else
      var house := FirstHouse(groups);
      if Staff in groups then Some(if house.Some? then Staff + "+" + house.value else Staff)
      else if Student in groups then Some(if house.Some? then Student + "+" + house.value else Student)
      else if Residents in groups then Some(if house.Some? then Residents + "+" + house.value else Residents)
      else if groups == [] then None
      else Some(groups[0])
  }

  /** The precedence of the circular view's `getRegionKey` as a priority table. */
  const CircleRules: seq<RegionRule> := [
    RegionRule(Outside, false, Outside),
    RegionRule(Staff, true, Staff),
    RegionRule(Student, true, Student),
    RegionRule(Residents, true, Residents)
  ]

  lemma RegionKeyByRules(groups: seq<string>)
    ensures RegionKey(groups) == ApplyRules(CircleRules, groups)
  {
    var r1, r2, r3 := CircleRules[1..], CircleRules[2..], CircleRules[3..];
    assert r1[0] == CircleRules[1] && r1[1..] == r2;
    assert r2[0] == CircleRules[2] && r2[1..] == r3;
    assert r3[0] == CircleRules[3] && r3[1..] == [];
    var house := FirstHouse(groups);
    assert ApplyRules(r3, groups) == if Residents in groups then Some(RuleKey(CircleRules[3], house))
                                     else ApplyRules([], groups);
    assert ApplyRules(r2, groups) == if Student in groups then Some(RuleKey(CircleRules[2], house))
                                     else ApplyRules(r3, groups);
    assert ApplyRules(r1, groups) == if Staff in groups then Some(RuleKey(CircleRules[1], house))
                                     else ApplyRules(r2, groups);
    assert ApplyRules(CircleRules, groups) == if Outside in groups then Some(Outside)
                                     else ApplyRules(r1, groups);
  }

  /** "Outside of Hogwarts" anywhere in the list decides the key. */
  lemma OutsideWins(groups: seq<string>)
    requires Outside in groups
    ensures RegionKey(groups) == Some(Outside)
  {
  }

  /** Staff (not outside) use the house listed earliest. */
  lemma StaffHouse(groups: seq<string>, i: nat)
    requires Outside !in groups && Staff in groups
    requires i < |groups| && IsHouse(groups[i]) && forall j :: 0 <= j < i ==> !IsHouse(groups[j])
    ensures RegionKey(groups) == Some(Staff + "+" + groups[i])
  {
    FirstHouseIsEarliest(groups, i);
  }

  /** Students (not outside, not staff) use the house listed earliest. */
  lemma StudentHouse(groups: seq<string>, i: nat)
    requires Outside !in groups && Staff !in groups && Student in groups
    requires i < |groups| && IsHouse(groups[i]) && forall j :: 0 <= j < i ==> !IsHouse(groups[j])
    ensures RegionKey(groups) == Some(Student + "+" + groups[i])
  {
    FirstHouseIsEarliest(groups, i);
  }

  /** Residents (not outside, staff or students) use the house listed earliest. */
  lemma ResidentHouse(groups: seq<string>, i: nat)
    requires Outside !in groups && Staff !in groups && Student !in groups && Residents in groups
    requires i < |groups| && IsHouse(groups[i]) && forall j :: 0 <= j < i ==> !IsHouse(groups[j])
    ensures RegionKey(groups) == Some(Residents + "+" + groups[i])
  {
    FirstHouseIsEarliest(groups, i);
  }

  /** A student naming no house is plain "Student". */
  lemma HouselessStudent(groups: seq<string>)
    requires Outside !in groups && Staff !in groups && Student in groups
    requires forall g :: g in groups ==> !IsHouse(g)
    ensures RegionKey(groups) == Some(Student)
  {
  }

  /** Without any of the four role groups, the first group is the key. */
  lemma NoRoleFirstGroup(groups: seq<string>)
    requires |groups| > 0 && Outside !in groups && Staff !in groups && Student !in groups && Residents !in groups
    ensures RegionKey(groups) == Some(groups[0])
  {
  }
}
