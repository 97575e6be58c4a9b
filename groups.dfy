/** Group (category) names, the house lookup, the role/house checkbox filter and
    the region rule tables. Both visualisations use these same definitions. */
module Groups {
  import opened Common

  const Staff: string := "Hogwarts Staff"
  const Student: string := "Student"
  const Residents: string := "Non-Academic Residents"
  const Outside: string := "Outside of Hogwarts"

  const Slytherin: string := "Slytherin"
  const Ravenclaw: string := "Ravenclaw"
  const Hufflepuff: string := "Hufflepuff"
  const Gryffindor: string := "Gryffindor"

  /** The four houses, in the order the `find` calls list them. */
  const Houses: seq<string> := [Slytherin, Ravenclaw, Gryffindor, Hufflepuff]
  /** The four role groups the role checkboxes control. */
  const Roles: seq<string> := [Staff, Student, Residents, Outside]

  predicate IsHouse(g: string) { g in Houses }
  predicate IsRole(g: string) { g in Roles }

  /** The first element of `groups` that is a house (`groups.find(g => houses.includes(g))`). */
  function FirstHouse(groups: seq<string>): (h: Option<string>)
    ensures h.Some? ==> IsHouse(h.value) && h.value in groups
    ensures h.None? <==> (forall g :: g in groups ==> !IsHouse(g))
  {
    if groups == [] then None
    else if IsHouse(groups[0]) then Some(groups[0])
    else FirstHouse(groups[1..])
  }

  /** The house found is the one listed earliest in `groups`, whatever the
      order of the house list. */
  lemma {:induction false} FirstHouseIsEarliest(groups: seq<string>, i: nat)
    requires i < |groups| && IsHouse(groups[i])
    requires forall j :: 0 <= j < i ==> !IsHouse(groups[j])
    ensures FirstHouse(groups) == Some(groups[i])
  {
    if i > 0 {
      assert !IsHouse(groups[0]);
      FirstHouseIsEarliest(groups[1..], i - 1);
    }
  }

  /** The eight filter checkboxes of the page. */
  datatype Filters = Filters(
    staff: bool, students: bool, residents: bool, outsiders: bool,
    slytherin: bool, ravenclaw: bool, hufflepuff: bool, gryffindor: bool)

  /** Every checkbox ticked: the page's initial state and what "reset" restores. */
  const AllChecked: Filters := Filters(true, true, true, true, true, true, true, true)

  /** The checkbox that controls group name `g` (false for a name no checkbox controls). */
  function Checkbox(f: Filters, g: string): bool
  {
    if g == Staff then f.staff
    else if g == Student then f.students
    else if g == Residents then f.residents
    else if g == Outside then f.outsiders
    else if g == Slytherin then f.slytherin
    else if g == Ravenclaw then f.ravenclaw
    else if g == Hufflepuff then f.hufflepuff
    else if g == Gryffindor then f.gryffindor
    else false
  }

  /** The role/house part of the visibility test of both `applyFilters` functions. */
  predicate PassesGroupFilters(groups: seq<string>, f: Filters)
  {
    var hasRole := exists g :: g in groups && IsRole(g);
    var hasHouse := exists g :: g in groups && IsHouse(g);
    !(hasRole && !RoleMatch(groups, f)) && !(hasHouse && !HouseMatch(groups, f))
  }

  /** `roleMatch`: a ticked role checkbox whose group is listed. */
  predicate RoleMatch(groups: seq<string>, f: Filters)
  {
    (f.staff && Staff in groups) || (f.students && Student in groups)
    || (f.residents && Residents in groups) || (f.outsiders && Outside in groups)
  }

  /** `houseMatch`: a ticked house checkbox whose house is listed. */
  predicate HouseMatch(groups: seq<string>, f: Filters)
  {
    (f.slytherin && Slytherin in groups) || (f.ravenclaw && Ravenclaw in groups)
    || (f.hufflepuff && Hufflepuff in groups) || (f.gryffindor && Gryffindor in groups)
  }

  lemma RoleMatchIff(groups: seq<string>, f: Filters)
    ensures RoleMatch(groups, f) <==> exists g :: g in groups && IsRole(g) && Checkbox(f, g)
  {
    if RoleMatch(groups, f) {
      var g :| g in Roles && g in groups && Checkbox(f, g);
    }
  }

  lemma HouseMatchIff(groups: seq<string>, f: Filters)
    ensures HouseMatch(groups, f) <==> exists g :: g in groups && IsHouse(g) && Checkbox(f, g)
  {
    if HouseMatch(groups, f) {
      var g :| g in Houses && g in groups && Checkbox(f, g);
    }
  }

  /** A node fails the group filters exactly when it names a role but none of
      its roles is checked, or names a house but none of its houses is checked. */
  lemma HiddenIff(groups: seq<string>, f: Filters)
    ensures !PassesGroupFilters(groups, f) <==>
      ((exists g :: g in groups && IsRole(g))
         && !(exists g :: g in groups && IsRole(g) && Checkbox(f, g)))
      || ((exists g :: g in groups && IsHouse(g))
         && !(exists g :: g in groups && IsHouse(g) && Checkbox(f, g)))
  {
    RoleMatchIff(groups, f);
    HouseMatchIff(groups, f);
  }

  /** A node that names neither a role nor a house passes whatever is checked. */
  lemma UncategorisedPasses(groups: seq<string>, f: Filters)
    requires forall g :: g in groups ==> !IsRole(g) && !IsHouse(g)
    ensures PassesGroupFilters(groups, f)
  {
  }

  /** With every checkbox ticked, every node passes. */
  lemma AllCheckedPasses(groups: seq<string>)
    ensures PassesGroupFilters(groups, AllChecked)
  {
  }

  /** One row of a priority-ordered region rule table: a node whose groups name
      `role` goes to "role+house" when the row is `housed` and the groups name a
      house, and to `plain` otherwise. */
  datatype RegionRule = RegionRule(role: string, housed: bool, plain: string)

  function RuleKey(rule: RegionRule, house: Option<string>): string
  {
    if rule.housed && house.Some? then rule.role + "+" + house.value else rule.plain
  }

  /** The key chosen by the first rule whose role the groups name; without one,
      the first group (JavaScript `undefined` for an empty list). */
  function ApplyRules(rules: seq<RegionRule>, groups: seq<string>): Option<string>
  {
    if rules == [] then (if groups == [] then None else Some(groups[0]))
    else if rules[0].role in groups then Some(RuleKey(rules[0], FirstHouse(groups)))
    else ApplyRules(rules[1..], groups)
  }
}
