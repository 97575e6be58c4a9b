/** The consolidation loop of the stacked-band view (main.js `loadData`): the
    directed `linkMap` entries become the drawn links, a pair of opposite
    entries with the same status merging into one mutual link. */
module Consolidation {
  import opened Common
  import opened Records

  /** One drawn link of the stacked-band view. */
  datatype Link = Link(source: string, target: string, status: string, capital: real, isMutual: bool)
  {
    function Key(): DirectedKey { DirectedKey(source, target) }

    /** The directed entries this link stands for. */
    function Covers(): set<DirectedKey>
    {
      if isMutual then {Key(), Key().Reverse()} else {Key()}
    }
  }

  /** The entry under `k` has an entry in the opposite direction with the same status. */
  predicate SameStatusReverse(entries: map<DirectedKey, LinkRecord>, k: DirectedKey)
    requires k in entries
  {
    k.Reverse() in entries && entries[k.Reverse()].status == entries[k].status
  }

  /** The union of the entries the links stand for. */
  ghost function Covered(links: seq<Link>): set<DirectedKey>
  {
    if links == [] then {} else Covered(links[..|links| - 1]) + links[|links| - 1].Covers()
  }

  /** No directed entry is stood for by two links. */
  ghost predicate CoversDisjoint(links: seq<Link>)
  {
    forall j1, j2 :: 0 <= j1 < j2 < |links| ==> links[j1].Covers() !! links[j2].Covers()
  }

  /** The link drawn for entry `k`: its fields, and mutual exactly for a same-status reverse. */
  ghost predicate DrawnFrom(entries: map<DirectedKey, LinkRecord>, l: Link)
  {
    && l.Key() in entries
    && entries[l.Key()].status == l.status
    && entries[l.Key()].capital == l.capital
    && (l.isMutual <==> SameStatusReverse(entries, l.Key()))
  }

  /** The loop state after the first `i` keys of the map. */
  ghost predicate ConsolidatedPrefix(lm: LinkMap, links: seq<Link>, processed: set<DirectedKey>, i: nat)
    requires ValidLinkMap(lm) && i <= |lm.keys|
  {
    && processed == Covered(links)
    && CoversDisjoint(links)
    && (forall j :: 0 <= j < |links| ==> DrawnFrom(lm.entries, links[j]))
    && (forall j :: 0 <= j < i ==> lm.keys[j] in processed)
    && (forall k :: k in processed ==> k in lm.entries)
    && (forall k :: k in processed && SameStatusReverse(lm.entries, k) ==> k.Reverse() in processed)
  }

  lemma {:induction false} CoveredHoldsCovers(links: seq<Link>, j: nat)
    requires j < |links|
    ensures links[j].Covers() <= Covered(links)
  {
    if j < |links| - 1 {
      CoveredHoldsCovers(links[..|links| - 1], j);
    }
  }

  lemma {:induction false} AppendLink(lm: LinkMap, links: seq<Link>, processed: set<DirectedKey>, i: nat, l: Link)
    requires ValidLinkMap(lm) && i < |lm.keys| && ConsolidatedPrefix(lm, links, processed, i)
    requires lm.keys[i] !in processed && l.Key() == lm.keys[i] && DrawnFrom(lm.entries, l)
    ensures ConsolidatedPrefix(lm, links + [l], processed + l.Covers(), i + 1)
  {
    var k := lm.keys[i];
    var links' := links + [l];
    assert links'[..|links'| - 1] == links;
    assert l.Covers() !! processed by {
      assert k.Reverse().Reverse() == k;
    }
    DisjointSnoc(links, l);
  }

  lemma DisjointSnoc(links: seq<Link>, l: Link)
    requires CoversDisjoint(links) && l.Covers() !! Covered(links)
    ensures CoversDisjoint(links + [l])
  {
    var links' := links + [l];
    forall j1, j2 | 0 <= j1 < j2 < |links'|
      ensures links'[j1].Covers() !! links'[j2].Covers()
    {
      if j2 == |links| {
        CoveredHoldsCovers(links, j1);
      }
    }
  }

  /** The links follow the key order `keys`, every link's key among the first
      `i` keys; a mutual link runs along the direction listed first. */
  ghost predicate OrderedPrefix(keys: seq<DirectedKey>, links: seq<Link>, i: nat)
  {
    && (forall j :: 0 <= j < |links| ==> IndexOf(keys, links[j].Key()).Some? && IndexOf(keys, links[j].Key()).value < i)
    && InKeyOrder(keys, links)
  }

  /** The links follow the key order `keys`, and a mutual link between two different
      nodes runs along the direction listed first. */
  ghost predicate InKeyOrder(keys: seq<DirectedKey>, links: seq<Link>)
  {
    && (forall j1, j2 :: 0 <= j1 < j2 < |links| ==> ListedBefore(keys, links[j1].Key(), links[j2].Key()))
    && (forall j :: 0 <= j < |links| && links[j].isMutual && links[j].source != links[j].target
          ==> ListedBefore(keys, links[j].Key(), links[j].Key().Reverse()))
  }

  lemma {:induction false} AppendOrdered(keys: seq<DirectedKey>, links: seq<Link>, i: nat, l: Link)
    requires Distinct(keys) && i < |keys| && OrderedPrefix(keys, links, i) && l.Key() == keys[i]
    requires l.isMutual && l.source != l.target ==> ListedBefore(keys, l.Key(), l.Key().Reverse())
    ensures OrderedPrefix(keys, links + [l], i + 1)
  {
    var links' := links + [l];
    IndexOfDistinct(keys, i);
    assert forall j :: 0 <= j < |links| ==> links'[j] == links[j];
    forall j1, j2 | 0 <= j1 < j2 < |links'|
      ensures ListedBefore(keys, links'[j1].Key(), links'[j2].Key())
    {
      if j2 == |links| {
        assert IndexOf(keys, links[j1].Key()).value < i;
      } else {
        assert ListedBefore(keys, links[j1].Key(), links[j2].Key());
      }
    }
  }

  /** A key not yet processed, while the first `i` keys are, sits after key `i`. */
  lemma ComesLater(keys: seq<DirectedKey>, processed: set<DirectedKey>, i: nat, r: DirectedKey)
    requires Distinct(keys) && i < |keys| && r in keys && r != keys[i] && r !in processed
    requires forall j :: 0 <= j < i ==> keys[j] in processed
    ensures ListedBefore(keys, keys[i], r)
  {
    IndexOfDistinct(keys, i);
    var q := IndexOf(keys, r).value;
    assert keys[q] !in processed;
  }

  /** Handling an unprocessed key keeps both loop predicates. */
  lemma AppendStep(lm: LinkMap, links: seq<Link>, processed: set<DirectedKey>, i: nat, l: Link)
    requires ValidLinkMap(lm) && i < |lm.keys| && ConsolidatedPrefix(lm, links, processed, i) && OrderedPrefix(lm.keys, links, i)
    requires lm.keys[i] !in processed && l.Key() == lm.keys[i] && DrawnFrom(lm.entries, l)
    ensures ConsolidatedPrefix(lm, links + [l], processed + l.Covers(), i + 1)
    ensures OrderedPrefix(lm.keys, links + [l], i + 1)
  {
    AppendLink(lm, links, processed, i, l);
    if l.isMutual && l.source != l.target {
      var r := l.Key().Reverse();
      assert r.Reverse() == l.Key();
      ComesLater(lm.keys, processed, i, r);
    }
    AppendOrdered(lm.keys, links, i, l);
  }

  /** The `linkMap.forEach` consolidation, over the map's keys in iteration
      order with the `processed` set. Every directed entry is stood for by
      exactly one link: a same-status opposite pair by one mutual link, every
      other entry by a one-way link of its own; and each link carries the
      status and capital of the entry it is drawn from. The links come out in
      the order their keys are first seen in the map, and a mutual link runs
      along the direction seen first. */
  method Consolidate(lm: LinkMap) returns (links: seq<Link>)
    requires ValidLinkMap(lm)
    ensures forall j :: 0 <= j < |links| ==> DrawnFrom(lm.entries, links[j])
    ensures CoversDisjoint(links)
    ensures Covered(links) == lm.entries.Keys
    ensures InKeyOrder(lm.keys, links)
  {
    links := [];
    var processed: set<DirectedKey> := {};
    for i := 0 to |lm.keys|
      invariant ConsolidatedPrefix(lm, links, processed, i)
      invariant OrderedPrefix(lm.keys, links, i)
    {
      var key := lm.keys[i];
      if key in processed {
        continue;
      }
      var link := lm.entries[key];
      var reverseKey := DirectedKey(link.target, link.source);
      var l: Link;
      if reverseKey in lm.entries && lm.entries[reverseKey].status == link.status {
        l := Link(link.source, link.target, link.status, link.capital, true);
      } else {
        l := Link(link.source, link.target, link.status, link.capital, false);
      }
      AppendStep(lm, links, processed, i, l);
      links := links + [l];
      processed := processed + l.Covers();
    }
    ConsolidatedAll(lm, links, processed);
  }

  lemma ConsolidatedAll(lm: LinkMap, links: seq<Link>, processed: set<DirectedKey>)
    requires ValidLinkMap(lm) && ConsolidatedPrefix(lm, links, processed, |lm.keys|)
    ensures Covered(links) == lm.entries.Keys
  {
    forall k | k in lm.entries ensures k in processed {
      var j :| 0 <= j < |lm.keys| && lm.keys[j] == k;
    }
  }

  /** An entry is covered exactly when some link stands for it. */
  lemma {:induction false} CoveredByLink(links: seq<Link>, k: DirectedKey)
    ensures k in Covered(links) <==> exists j :: 0 <= j < |links| && k in links[j].Covers()
  {
    if links != [] {
      var init := links[..|links| - 1];
      CoveredByLink(init, k);
      if k in Covered(init) {
        var j :| 0 <= j < |init| && k in init[j].Covers();
        assert links[j] == init[j];
      }
      forall j | 0 <= j < |init| && k in links[j].Covers() ensures k in Covered(init) {
        assert init[j] == links[j];
      }
    }
  }

  /** Each directed entry of the map is stood for by exactly one consolidated link. */
  lemma ExactlyOneLink(lm: LinkMap, links: seq<Link>, k: DirectedKey)
    requires CoversDisjoint(links) && Covered(links) == lm.entries.Keys
    requires k in lm.entries
    ensures exists j :: 0 <= j < |links| && k in links[j].Covers()
    ensures forall j1, j2 :: 0 <= j1 < |links| && 0 <= j2 < |links| && k in links[j1].Covers() && k in links[j2].Covers()
              ==> j1 == j2
  {
    CoveredByLink(links, k);
  }

  /** The relationship part of `loadData`: build `linkMap` from the rows, then
      consolidate. Each link is drawn from a relationship row, the last row
      listed for its direction, and both its ends are character ids; every
      row's direction is stood for by exactly one link. */
  method LoadLinks(rels: seq<Relationship>) returns (links: seq<Link>)
    ensures forall j :: 0 <= j < |links| ==> FromLastRow(rels, links[j])
    ensures forall j :: 0 <= j < |links| ==>
              links[j].source in CharacterIds(rels) && links[j].target in CharacterIds(rels)
    ensures CoversRows(rels, links) && CoversDisjoint(links)
    ensures InKeyOrder(Dedup(KeySeq(rels)), links)
  {
    var lm := BuildLinkMap(rels);
    links := Consolidate(lm);
    LinksFromRows(rels, lm, links);
    RowsCovered(rels, lm, links);
  }

  /** Every row's direction is stood for by some link. */
  ghost predicate CoversRows(rels: seq<Relationship>, links: seq<Link>)
  {
    forall r :: 0 <= r < |rels| ==> exists j :: 0 <= j < |links| && KeyOf(rels[r]) in links[j].Covers()
  }

  /** Every row's direction is an entry of the map, so some link stands for it. */
  lemma RowsCovered(rels: seq<Relationship>, lm: LinkMap, links: seq<Link>)
    requires MapOfRows(lm, rels)
    requires Covered(links) == lm.entries.Keys
    ensures CoversRows(rels, links)
  {
    forall r | 0 <= r < |rels|
      ensures exists j :: 0 <= j < |links| && KeyOf(rels[r]) in links[j].Covers()
    {
      assert KeyOf(rels[r]) in lm.entries;
      CoveredByLink(links, KeyOf(rels[r]));
    }
  }

  /** `l` carries the status and capital of the last row listed for its
      direction, and is mutual exactly when the last row listed for the
      opposite direction has the same status. */
  ghost predicate FromLastRow(rels: seq<Relationship>, l: Link)
  {
    && (exists r :: 0 <= r < |rels| && KeyOf(rels[r]) == l.Key()
          && rels[r].status == l.status && rels[r].capital == l.capital
          && forall r' :: r < r' < |rels| ==> KeyOf(rels[r']) != KeyOf(rels[r]))
    && (l.isMutual <==> LastReverseSameStatus(rels, l))
  }

  /** The last row listed for the direction opposite to `l` has `l`'s status. */
  ghost predicate LastReverseSameStatus(rels: seq<Relationship>, l: Link)
  {
    exists r :: 0 <= r < |rels| && KeyOf(rels[r]) == l.Key().Reverse()
      && rels[r].status == l.status
      && forall r' :: r < r' < |rels| ==> KeyOf(rels[r']) != KeyOf(rels[r])
  }

  /** Rows A->B and B->A with the same status admit no one-way link from A to
      B: a link read off these rows must be mutual. */
  lemma SameStatusPairMerges()
    ensures var rels := [Relationship("A", "B", "x", 1.0), Relationship("B", "A", "x", 2.0)];
            !FromLastRow(rels, Link("A", "B", "x", 1.0, false))
  {
    var rels := [Relationship("A", "B", "x", 1.0), Relationship("B", "A", "x", 2.0)];
    assert KeyOf(rels[1]) == Link("A", "B", "x", 1.0, false).Key().Reverse();
    assert LastReverseSameStatus(rels, Link("A", "B", "x", 1.0, false));
  }

  /** Links drawn from the map built from `rels` are drawn from its last rows. */
  lemma LinksFromRows(rels: seq<Relationship>, lm: LinkMap, links: seq<Link>)
    requires MapOfRows(lm, rels)
    requires forall j :: 0 <= j < |links| ==> DrawnFrom(lm.entries, links[j])
    ensures forall j :: 0 <= j < |links| ==> FromLastRow(rels, links[j])
    ensures forall j :: 0 <= j < |links| ==>
              links[j].source in CharacterIds(rels) && links[j].target in CharacterIds(rels)
  {
    forall j | 0 <= j < |links|
      ensures FromLastRow(rels, links[j])
      ensures links[j].source in CharacterIds(rels) && links[j].target in CharacterIds(rels)
    {
      LinkFromRow(rels, lm, links[j]);
    }
  }

  /** A link drawn from the map built from `rels` is drawn from the last row of its direction. */
  lemma LinkFromRow(rels: seq<Relationship>, lm: LinkMap, l: Link)
    requires MapOfRows(lm, rels)
    requires DrawnFrom(lm.entries, l)
    ensures FromLastRow(rels, l)
    ensures l.source in CharacterIds(rels) && l.target in CharacterIds(rels)
  {
    EndpointsAreCharacters(rels);
    var r := LastRow(rels, l.Key());
    assert lm.entries[KeyOf(rels[r])] == RecordOf(rels[r]);
    var k' := l.Key().Reverse();
    if l.isMutual {
      var r2 := LastRow(rels, k');
      assert lm.entries[KeyOf(rels[r2])] == RecordOf(rels[r2]);
    }
    if LastReverseSameStatus(rels, l) {
      var r2 :| 0 <= r2 < |rels| && KeyOf(rels[r2]) == k' && rels[r2].status == l.status
        && forall r' :: r2 < r' < |rels| ==> KeyOf(rels[r']) != KeyOf(rels[r2]);
      assert lm.entries[KeyOf(rels[r2])] == RecordOf(rels[r2]);
      assert SameStatusReverse(lm.entries, l.Key());
    }
  }

  /** The last row whose directed key is `k`, for a key some row has. */
  ghost function LastRow(rels: seq<Relationship>, k: DirectedKey): (r: nat)
    requires exists j :: 0 <= j < |rels| && KeyOf(rels[j]) == k
    ensures r < |rels| && KeyOf(rels[r]) == k
    ensures forall r' :: r < r' < |rels| ==> KeyOf(rels[r']) != k
    decreases |rels|
  {
    if KeyOf(rels[|rels| - 1]) == k then |rels| - 1
    else
      var init := rels[..|rels| - 1];
      assert exists j :: 0 <= j < |init| && KeyOf(init[j]) == k by {
        var j :| 0 <= j < |rels| && KeyOf(rels[j]) == k;
        assert j < |init| && init[j] == rels[j];
      }
      LastRow(init, k)
  }
}
