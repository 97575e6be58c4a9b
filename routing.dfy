/** The offset arithmetic of `getLinkPath` (main.js): links leaving the same
    node fan out by a spread offset, a link whose opposite direction is also
    drawn is pushed aside by a reverse offset, and a small total offset gives a
    straight segment instead of a curve. */
module Routing {
  import opened Common
  import opened Records
  import opened Consolidation

  const SpreadStep: real := 25.0
  const ReverseOffset: real := 15.0
  const StraightBelow: real := 5.0

  /** `linksBySource.get(s) || []`: the links leaving `s`, in link order. */
  function LinksFrom(links: seq<Link>, s: string): (r: seq<Link>)
    ensures |r| <= |links|
    ensures forall l :: l in r <==> l in links && l.source == s
  {
    if links == [] then []
    else
      var rest := LinksFrom(links[1..], s);
      if links[0].source == s then [links[0]] + rest else rest
  }

  /** The grouping keeps link order: it distributes over concatenation and
      keeps a single link exactly when it leaves `s`. */
  lemma {:induction false} LinksFromIsFilter(a: seq<Link>, b: seq<Link>, l: Link, s: string)
    ensures LinksFrom(a + b, s) == LinksFrom(a, s) + LinksFrom(b, s)
    ensures LinksFrom([l], s) == if l.source == s then [l] else []
  {
    if a == [] {
      assert a + b == b;
    } else {
      assert (a + b)[1..] == a[1..] + b;
      LinksFromIsFilter(a[1..], b, l, s);
    }
  }

  predicate Matches(l: Link, s: string, t: string, status: string)
  {
    l.source == s && l.target == t && l.status == status
  }

  /** `findIndex` of the first link from `s` to `t` with `status`; -1 when there is none. */
  function FindIndex(ls: seq<Link>, s: string, t: string, status: string): (r: int)
    ensures -1 <= r < |ls|
    ensures r >= 0 ==> Matches(ls[r], s, t, status) && forall j :: 0 <= j < r ==> !Matches(ls[j], s, t, status)
    ensures r == -1 <==> forall j :: 0 <= j < |ls| ==> !Matches(ls[j], s, t, status)
  {
    if ls == [] then -1
    else if Matches(ls[0], s, t, status) then 0
    else
      var r := FindIndex(ls[1..], s, t, status);
      if r == -1 then -1 else r + 1
  }

  /** Some link runs from `t` back to `s`. */
  predicate HasReverse(links: seq<Link>, s: string, t: string)
  {
    exists j :: 0 <= j < |links| && links[j].source == t && links[j].target == s
  }

  /** `(linkIndex - (totalLinks - 1) / 2) * 25` when the source has more than one link, else 0. */
  function SpreadOffset(index: int, n: nat): real
  {
    if n > 1 then ((index as real) - ((n - 1) as real) / 2.0) * SpreadStep else 0.0
  }

  /** `totalOffset` of the path drawn for link `d` among the simulation's links. */
  function TotalOffset(d: Link, links: seq<Link>): real
  {
    var sourceLinks := LinksFrom(links, d.source);
    var linkIndex := FindIndex(sourceLinks, d.source, d.target, d.status);
    SpreadOffset(linkIndex, |sourceLinks|) + (if HasReverse(links, d.source, d.target) then ReverseOffset else 0.0)
  }

  datatype PathShape = Straight | Curved

  /** A total offset below 5 in absolute value gives a straight segment. */
  function Shape(totalOffset: real): PathShape
  {
    if -StraightBelow < totalOffset < StraightBelow then Straight else Curved
  }

  /** The sum of the spread offsets of indices `0 .. k - 1` among `n` links. */
  function SpreadSum(k: nat, n: nat): real
  {
    if k == 0 then 0.0 else SpreadSum(k - 1, n) + SpreadOffset(k - 1, n)
  }

  lemma {:induction false} SpreadSumClosedForm(k: nat, n: nat)
    requires n > 1
    ensures SpreadSum(k, n) == 12.5 * (k as real) * ((k as real) - (n as real))
  {
    if k > 0 {
      SpreadSumClosedForm(k - 1, n);
    }
  }

  /** The spread offsets of all the links leaving a node sum to zero: the fan
      is centred on the straight line. */
  lemma SpreadSumsToZero(n: nat)
    ensures SpreadSum(n, n) == 0.0
  {
    if n > 1 {
      SpreadSumClosedForm(n, n);
    } else {
      assert SpreadSum(n, n) == 0.0 by {
        if n == 1 { assert SpreadSum(0, n) == 0.0; }
      }
    }
  }

  /** The fan is symmetric: the `i`-th link from either end gets opposite offsets. */
  lemma SpreadSymmetric(i: nat, n: nat)
    requires i < n
    ensures SpreadOffset(n - 1 - i, n) == -SpreadOffset(i, n)
  {
  }

  /** Links leaving the same node at different indices get different spread offsets. */
  lemma SpreadDistinct(i: int, j: int, n: nat)
    requires n > 1 && i != j
    ensures SpreadOffset(i, n) != SpreadOffset(j, n)
  {
  }

  /** Every spread offset lies within half the fan's width, `(n - 1) * 12.5`. */
  lemma SpreadBounded(i: nat, n: nat)
    requires i < n
    ensures -((n - 1) as real) * 12.5 <= SpreadOffset(i, n) <= ((n - 1) as real) * 12.5
  {
  }

  /** The consolidated links have pairwise different directed keys. */
  lemma KeysDistinct(links: seq<Link>, i: nat, j: nat)
    requires CoversDisjoint(links) && i < j < |links|
    ensures links[i].Key() != links[j].Key()
  {
    assert links[i].Key() in links[i].Covers() && links[j].Key() in links[j].Covers();
  }

  /** Among links with pairwise different directed keys, `findIndex` finds the
      very link drawn, at its position among the links leaving its source. */
  lemma {:induction false} FindIndexFindsLink(ls: seq<Link>, p: nat)
    requires p < |ls|
    requires forall i, j :: 0 <= i < j < |ls| ==> ls[i].Key() != ls[j].Key()
    ensures FindIndex(ls, ls[p].source, ls[p].target, ls[p].status) == p
  {
  }

  /** A mutual link between two different nodes has no link drawn in the
      opposite direction, so it gets no reverse offset. */
  lemma MutualHasNoReverse(links: seq<Link>, p: nat)
    requires CoversDisjoint(links) && p < |links|
    requires links[p].isMutual && links[p].source != links[p].target
    ensures !HasReverse(links, links[p].source, links[p].target)
  {
  }

  /** The only link leaving its source, with no link back, is drawn straight;
      with a link back it curves. */
  lemma LoneLinkShape(d: Link, links: seq<Link>)
    requires |LinksFrom(links, d.source)| <= 1
    ensures Shape(TotalOffset(d, links)) == (if HasReverse(links, d.source, d.target) then Curved else Straight)
  {
  }

  /** Any two links leaving the same node curve: the fan offset is at least 12.5 in size. */
  lemma FanCurves(d: Link, links: seq<Link>)
    requires |LinksFrom(links, d.source)| == 2 && !HasReverse(links, d.source, d.target)
    requires FindIndex(LinksFrom(links, d.source), d.source, d.target, d.status) >= 0
    ensures Shape(TotalOffset(d, links)) == Curved
  {
  }
}
