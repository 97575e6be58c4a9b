/** The links of the circular view (main-circle.js): the consolidation loop of
    `loadData`, which merges every pair of opposite entries into one link that
    keeps both statuses, and the conditions `drawLinks` and
    `updateLinkPositions` use to draw a link. */
module CircleLinks {
  import opened Common
  import opened Records
  import opened Consolidation

  /** One drawn link of the circular view; `reverseStatus` is `None` for
      JavaScript `null`, when nothing runs the other way. */
  datatype CircleLink = CircleLink(source: string, target: string, status: string, reverseStatus: Option<string>, isMutual: bool)
  {
    function Key(): DirectedKey { DirectedKey(source, target) }

    /** The directed entries this link stands for: both directions whenever
        the opposite entry exists. */
    function Covers(): set<DirectedKey>
    {
      if reverseStatus.Some? then {Key(), Key().Reverse()} else {Key()}
    }
  }

  /** The union of the entries the links stand for. */
  ghost function CircleCovered(links: seq<CircleLink>): set<DirectedKey>
  {
    if links == [] then {} else CircleCovered(links[..|links| - 1]) + links[|links| - 1].Covers()
  }

  /** No directed entry is stood for by two links. */
  ghost predicate CircleDisjoint(links: seq<CircleLink>)
  {
    forall j1, j2 :: 0 <= j1 < j2 < |links| ==> links[j1].Covers() !! links[j2].Covers()
  }

  /** The link drawn for entry `k`: its status, the status of the opposite
      entry when there is one, and mutual exactly when the two are equal. */
  ghost predicate CircleDrawnFrom(entries: map<DirectedKey, LinkRecord>, l: CircleLink)
  {
    && l.Key() in entries
    && entries[l.Key()].status == l.status
    && (l.reverseStatus.Some? <==> l.Key().Reverse() in entries)
    && (l.reverseStatus.Some? ==> l.reverseStatus.value == entries[l.Key().Reverse()].status)
    && (l.isMutual <==> l.reverseStatus.Some? && l.reverseStatus.value == l.status)
  }

  /** The loop state after the first `i` keys of the map. */
  ghost predicate CirclePrefix(lm: LinkMap, links: seq<CircleLink>, processed: set<DirectedKey>, i: nat)
    requires ValidLinkMap(lm) && i <= |lm.keys|
  {
    && processed == CircleCovered(links)
    && CircleDisjoint(links)
    && (forall j :: 0 <= j < |links| ==> CircleDrawnFrom(lm.entries, links[j]))
    && (forall j :: 0 <= j < i ==> lm.keys[j] in processed)
    && (forall k :: k in processed ==> k in lm.entries)
    && (forall k :: k in processed && k.Reverse() in lm.entries ==> k.Reverse() in processed)
  }

  lemma {:induction false} CircleCoveredHolds(links: seq<CircleLink>, j: nat)
    requires j < |links|
    ensures links[j].Covers() <= CircleCovered(links)
  {
    if j < |links| - 1 {
      CircleCoveredHolds(links[..|links| - 1], j);
    }
  }

  lemma {:induction false} AppendCircleLink(lm: LinkMap, links: seq<CircleLink>, processed: set<DirectedKey>, i: nat, l: CircleLink)
    requires ValidLinkMap(lm) && i < |lm.keys| && CirclePrefix(lm, links, processed, i)
    requires lm.keys[i] !in processed && l.Key() == lm.keys[i] && CircleDrawnFrom(lm.entries, l)
    ensures CirclePrefix(lm, links + [l], processed + l.Covers(), i + 1)
  {
    var k := lm.keys[i];
    var links' := links + [l];
    assert links'[..|links'| - 1] == links;
    assert l.Covers() !! processed by {
      assert k.Reverse().Reverse() == k;
    }
    CircleDisjointSnoc(links, l);
  }

  lemma CircleDisjointSnoc(links: seq<CircleLink>, l: CircleLink)
    requires CircleDisjoint(links) && l.Covers() !! CircleCovered(links)
    ensures CircleDisjoint(links + [l])
  {
    var links' := links + [l];
    forall j1, j2 | 0 <= j1 < j2 < |links'|
      ensures links'[j1].Covers() !! links'[j2].Covers()
    {
      if j2 == |links| {
        CircleCoveredHolds(links, j1);
      }
    }
  }

  /** The links follow the key order `keys`, every link's key among the first
      `i` keys; a link standing for an opposite pair runs along the direction
      listed first. */
  ghost predicate CircleOrdered(keys: seq<DirectedKey>, links: seq<CircleLink>, i: nat)
  {
    && (forall j :: 0 <= j < |links| ==> IndexOf(keys, links[j].Key()).Some? && IndexOf(keys, links[j].Key()).value < i)
    && CircleInKeyOrder(keys, links)
  }

  /** The links follow the key order `keys`, and a paired link between two different
      nodes runs along the direction listed first. */
  ghost predicate CircleInKeyOrder(keys: seq<DirectedKey>, links: seq<CircleLink>)
  {
    && (forall j1, j2 :: 0 <= j1 < j2 < |links| ==> ListedBefore(keys, links[j1].Key(), links[j2].Key()))
    && (forall j :: 0 <= j < |links| && links[j].reverseStatus.Some? && links[j].source != links[j].target
          ==> ListedBefore(keys, links[j].Key(), links[j].Key().Reverse()))
  }

  lemma {:induction false} AppendCircleOrdered(keys: seq<DirectedKey>, links: seq<CircleLink>, i: nat, l: CircleLink)
    requires Distinct(keys) && i < |keys| && CircleOrdered(keys, links, i) && l.Key() == keys[i]
    requires l.reverseStatus.Some? && l.source != l.target ==> ListedBefore(keys, l.Key(), l.Key().Reverse())
    ensures CircleOrdered(keys, links + [l], i + 1)
  {
    var links' := links + [l];
    IndexOfDistinct(keys, i);
    assert forall j :: 0 <= j < |links| ==> links'[j] == links[j];
    forall j1, j2 | 0 <= j1 < j2 < |links'|
      ensures ListedBefore(keys, links'[j1].Key(), links'[j2].Key())
    {
      if j2 == |links| {
        assert IndexOf(keys, links[j1].Key()).value < i;
      } else {
        assert ListedBefore(keys, links[j1].Key(), links[j2].Key());
      }
    }
  }

  /** Handling an unprocessed key keeps both loop predicates. */
  lemma AppendCircleStep(lm: LinkMap, links: seq<CircleLink>, processed: set<DirectedKey>, i: nat, l: CircleLink)
    requires ValidLinkMap(lm) && i < |lm.keys| && CirclePrefix(lm, links, processed, i) && CircleOrdered(lm.keys, links, i)
    requires lm.keys[i] !in processed && l.Key() == lm.keys[i] && CircleDrawnFrom(lm.entries, l)
    ensures CirclePrefix(lm, links + [l], processed + l.Covers(), i + 1)
    ensures CircleOrdered(lm.keys, links + [l], i + 1)
  {
    AppendCircleLink(lm, links, processed, i, l);
    if l.reverseStatus.Some? && l.source != l.target {
      var r := l.Key().Reverse();
      assert r.Reverse() == l.Key();
      ComesLater(lm.keys, processed, i, r);
    }
    AppendCircleOrdered(lm.keys, links, i, l);
  }

  lemma CircleDone(lm: LinkMap, links: seq<CircleLink>, processed: set<DirectedKey>)
    requires ValidLinkMap(lm) && CirclePrefix(lm, links, processed, |lm.keys|)
    ensures CircleCovered(links) == lm.entries.Keys
  {
    forall k | k in lm.entries ensures k in processed {
      var j :| 0 <= j < |lm.keys| && lm.keys[j] == k;
    }
  }

  /** The `linkMap.forEach` consolidation of the circular view. Every directed
      entry is stood for by exactly one link: an opposite pair, whatever its
      statuses, by one link carrying both, every other entry by a one-way link
      of its own. The links come out in the order their keys are first seen
      in the map, and a paired link runs along the direction seen first. */
  method ConsolidateCircle(lm: LinkMap) returns (links: seq<CircleLink>)
    requires ValidLinkMap(lm)
    ensures forall j :: 0 <= j < |links| ==> CircleDrawnFrom(lm.entries, links[j])
    ensures CircleDisjoint(links)
    ensures CircleCovered(links) == lm.entries.Keys
    ensures CircleInKeyOrder(lm.keys, links)
  {
    links := [];
    var processed: set<DirectedKey> := {};
    for i := 0 to |lm.keys|
      invariant CirclePrefix(lm, links, processed, i)
      invariant CircleOrdered(lm.keys, links, i)
    {
      var key := lm.keys[i];
      if key in processed {
        continue;
      }
      var link := lm.entries[key];
      var reverseKey := DirectedKey(link.target, link.source);
      var l: CircleLink;
      if reverseKey in lm.entries {
        var reverseLink := lm.entries[reverseKey];
        l := CircleLink(link.source, link.target, link.status, Some(reverseLink.status), link.status == reverseLink.status);
      } else {
        l := CircleLink(link.source, link.target, link.status, None, false);
      }
      AppendCircleStep(lm, links, processed, i, l);
      links := links + [l];
      processed := processed + l.Covers();
    }
    CircleDone(lm, links, processed);
  }

  lemma {:induction false} CircleCoveredByLink(links: seq<CircleLink>, k: DirectedKey)
    ensures k in CircleCovered(links) <==> exists j :: 0 <= j < |links| && k in links[j].Covers()
  {
    if links != [] {
      var init := links[..|links| - 1];
      CircleCoveredByLink(init, k);
      if k in CircleCovered(init) {
        var j :| 0 <= j < |init| && k in init[j].Covers();
        assert links[j] == init[j];
      }
      forall j | 0 <= j < |init| && k in links[j].Covers() ensures k in CircleCovered(init) {
        assert init[j] == links[j];
      }
    }
  }

  /** Each directed entry of the map is stood for by exactly one consolidated link. */
  lemma ExactlyOneCircleLink(lm: LinkMap, links: seq<CircleLink>, k: DirectedKey)
    requires CircleDisjoint(links) && CircleCovered(links) == lm.entries.Keys
    requires k in lm.entries
    ensures exists j :: 0 <= j < |links| && k in links[j].Covers()
    ensures forall j1, j2 :: 0 <= j1 < |links| && 0 <= j2 < |links| && k in links[j1].Covers() && k in links[j2].Covers()
              ==> j1 == j2
  {
    CircleCoveredByLink(links, k);
  }

  /** What a link of the circular view is, read off the rows: its status is
      that of the last row listed for its direction; it has a reverse status
      iff some row runs the other way, and then that of the last such row; and
      it is mutual iff the two statuses are equal. */
  ghost predicate CircleFromRows(rels: seq<Relationship>, l: CircleLink)
  {
    && (exists r :: 0 <= r < |rels| && KeyOf(rels[r]) == l.Key() && rels[r].status == l.status
          && forall r' :: r < r' < |rels| ==> KeyOf(rels[r']) != KeyOf(rels[r]))
    && (l.reverseStatus.Some? <==> exists r :: 0 <= r < |rels| && KeyOf(rels[r]) == l.Key().Reverse())
    && (l.reverseStatus.Some? ==>
          exists r :: 0 <= r < |rels| && KeyOf(rels[r]) == l.Key().Reverse()
            && rels[r].status == l.reverseStatus.value
            && forall r' :: r < r' < |rels| ==> KeyOf(rels[r']) != KeyOf(rels[r]))
    && (l.isMutual <==> l.reverseStatus == Some(l.status))
  }

  /** Every row's direction is stood for by some link. */
  ghost predicate CircleCoversRows(rels: seq<Relationship>, links: seq<CircleLink>)
  {
    forall r :: 0 <= r < |rels| ==> exists j :: 0 <= j < |links| && KeyOf(rels[r]) in links[j].Covers()
  }

  /** The circular view's links for `rels`: each is read off the rows, every
      row's direction is stood for by exactly one of them, and they come in
      the order their directions are first listed. */
  ghost predicate CircleLinksOf(rels: seq<Relationship>, links: seq<CircleLink>)
  {
    && (forall j :: 0 <= j < |links| ==> CircleFromRows(rels, links[j]))
    && CircleCoversRows(rels, links)
    && CircleDisjoint(links)
    && CircleInKeyOrder(Dedup(KeySeq(rels)), links)
  }

  /** The circular view's part of `loadData`: build `linkMap` from the rows,
      then consolidate. */
  method LoadCircleLinks(rels: seq<Relationship>) returns (links: seq<CircleLink>)
    ensures CircleLinksOf(rels, links)
  {
    var lm := BuildLinkMap(rels);
    links := ConsolidateCircle(lm);
    CircleLinksFromRows(rels, lm, links);
  }

  /** The links consolidated from the map built from `rels` are `CircleLinksOf(rels, ...)`. */
  lemma CircleLinksFromRows(rels: seq<Relationship>, lm: LinkMap, links: seq<CircleLink>)
    requires MapOfRows(lm, rels)
    requires forall j :: 0 <= j < |links| ==> CircleDrawnFrom(lm.entries, links[j])
    requires CircleDisjoint(links) && CircleCovered(links) == lm.entries.Keys
    requires CircleInKeyOrder(lm.keys, links)
    ensures CircleLinksOf(rels, links)
  {
    CircleEachFromRows(rels, lm, links);
    CircleRowsCovered(rels, lm, links);
    assert lm.keys == Dedup(KeySeq(rels));
  }

  /** Every link drawn from the map built from `rels` is read off its rows. */
  lemma CircleEachFromRows(rels: seq<Relationship>, lm: LinkMap, links: seq<CircleLink>)
    requires MapOfRows(lm, rels)
    requires forall j :: 0 <= j < |links| ==> CircleDrawnFrom(lm.entries, links[j])
    ensures forall j :: 0 <= j < |links| ==> CircleFromRows(rels, links[j])
  {
    forall j | 0 <= j < |links| ensures CircleFromRows(rels, links[j]) {
      CircleLinkFromRows(rels, lm, links[j]);
    }
  }

  /** Every row's direction is a key of the map, and the links cover its keys. */
  lemma CircleRowsCovered(rels: seq<Relationship>, lm: LinkMap, links: seq<CircleLink>)
    requires MapOfRows(lm, rels)
    requires CircleCovered(links) == lm.entries.Keys
    ensures CircleCoversRows(rels, links)
  {
    forall r | 0 <= r < |rels|
      ensures exists j :: 0 <= j < |links| && KeyOf(rels[r]) in links[j].Covers()
    {
      assert KeyOf(rels[r]) in lm.entries;
      CircleCoveredByLink(links, KeyOf(rels[r]));
    }
  }

  /** A link drawn from the map built from `rels` is read off its rows. */
  lemma CircleLinkFromRows(rels: seq<Relationship>, lm: LinkMap, l: CircleLink)
    requires MapOfRows(lm, rels)
    requires CircleDrawnFrom(lm.entries, l)
    ensures CircleFromRows(rels, l)
  {
    var k := l.Key();
    var r := LastRow(rels, k);
    assert lm.entries[KeyOf(rels[r])] == RecordOf(rels[r]);
    if l.reverseStatus.Some? {
      var r2 := LastRow(rels, k.Reverse());
      assert lm.entries[KeyOf(rels[r2])] == RecordOf(rels[r2]);
    }
  }

  /** `isActive` of `updateLinkPositions`: neither end is switched off. */
  predicate IsActive(inactive: set<string>, l: CircleLink)
  {
    l.source !in inactive && l.target !in inactive
  }

  /** `d.reverseStatus && d.status !== d.reverseStatus`: the link is drawn as
      two halves, one per direction. JavaScript truthiness makes an empty
      reverse status count as none. */
  predicate IsSplit(l: CircleLink)
  {
    l.reverseStatus.Some? && l.reverseStatus.value != "" && l.status != l.reverseStatus.value
  }

  /** The single-colour line carries an end marker unless the link is mutual. */
  predicate HasEndArrow(l: CircleLink)
  {
    !IsSplit(l) && !l.isMutual
  }

  /** How a consolidated link is drawn, read off its map entries: two halves
      exactly for opposite entries with different statuses (the reverse one
      non-empty); an arrow exactly for a one-way entry, or one whose opposite
      entry has an empty status that differs from its own; and neither for a
      same-status pair. */
  lemma DrawingOfEntries(entries: map<DirectedKey, LinkRecord>, l: CircleLink)
    requires CircleDrawnFrom(entries, l)
    ensures var rev := l.Key().Reverse();
      && (IsSplit(l) <==> rev in entries && entries[rev].status != "" && entries[rev].status != l.status)
      && (HasEndArrow(l) <==> rev !in entries || (entries[rev].status == "" && l.status != ""))
      && (l.isMutual <==> rev in entries && entries[rev].status == l.status)
  {
  }

  /** A link's active state depends only on whether its two ends are switched off. */
  lemma ActiveIff(inactive: set<string>, l: CircleLink, id: string)
    requires id == l.source || id == l.target
    ensures id in inactive ==> !IsActive(inactive, l)
    ensures IsActive(inactive, l) <==> IsActive(inactive - {id}, l) && id !in inactive
  {
  }
}
