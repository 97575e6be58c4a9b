/** The parsed input records and the two structures both `loadData` functions
    build from them before consolidation: the set of character ids and the
    `linkMap` of directed relationships. */
module Records {
  import opened Common
  import opened Groups

  /** One parsed row of relationships.csv (`SocialCapital` already converted to a number). */
  datatype Relationship = Relationship(characterId: string, targetCharacterId: string, status: string, capital: real)

  /** The directed pair behind the string key `${source}->${target}`. */
  datatype DirectedKey = DirectedKey(source: string, target: string)
  {
    function Reverse(): DirectedKey { DirectedKey(target, source) }
  }

  /** A value of `linkMap`. */
  datatype LinkRecord = LinkRecord(source: string, target: string, status: string, capital: real)
  {
    function Key(): DirectedKey { DirectedKey(source, target) }
  }

  function KeyOf(r: Relationship): DirectedKey { DirectedKey(r.characterId, r.targetCharacterId) }

  function RecordOf(r: Relationship): LinkRecord
  {
    LinkRecord(r.characterId, r.targetCharacterId, r.status, r.capital)
  }

  /** The elements of `s` without repeats, each at its first occurrence: what a
      JavaScript Set (or a Map's key list) built by inserting `s` in order holds. */
  function Dedup<T(==,!new)>(s: seq<T>): (r: seq<T>)
    ensures Distinct(r)
    ensures forall x :: x in r <==> x in s
  {
    if s == [] then []
    else
      var d := Dedup(s[..|s| - 1]);
      if s[|s| - 1] in d then d else d + [s[|s| - 1]]
  }

  /** `Dedup` keeps first-seen order: of two elements it keeps, the one listed
      first is the one that first occurs earlier in `s`. */
  lemma {:induction false} DedupFirstSeen<T(!new)>(s: seq<T>)
    ensures forall i, j :: 0 <= i < j < |Dedup(s)| ==> ListedBefore(s, Dedup(s)[i], Dedup(s)[j])
  {
    if s != [] {
      var init, x := s[..|s| - 1], s[|s| - 1];
      assert s == init + [x];
      DedupFirstSeen(init);
      DedupSnoc(init, x);
      var d := Dedup(init);
      forall i, j | 0 <= i < j < |Dedup(s)| ensures ListedBefore(s, Dedup(s)[i], Dedup(s)[j]) {
        IndexOfSnoc(init, x, d[i]);
        if j < |d| {
          IndexOfSnoc(init, x, d[j]);
        } else {
          IndexOfSnoc(init, x, x);
        }
      }
    }
  }

  /** The keys of the relationship rows, in row order. */
  function KeySeq(rels: seq<Relationship>): seq<DirectedKey>
  {
    if rels == [] then [] else KeySeq(rels[..|rels| - 1]) + [KeyOf(rels[|rels| - 1])]
  }

  /** A JavaScript Map from directed keys to records; `keys` is its iteration order. */
  datatype LinkMap = LinkMap(keys: seq<DirectedKey>, entries: map<DirectedKey, LinkRecord>)

  /** The keys are listed once each, exactly the map's keys, and every record
      sits under its own directed key. */
  predicate ValidLinkMap(lm: LinkMap)
  {
    && Distinct(lm.keys)
    && (forall k :: k in lm.keys ==> k in lm.entries)
    && (forall k :: k in lm.entries ==> k in lm.keys)
    && (forall k :: k in lm.entries ==> lm.entries[k].Key() == k)
  }

  lemma DedupSnoc<T(!new)>(s: seq<T>, x: T)
    ensures Dedup(s + [x]) == if x in Dedup(s) then Dedup(s) else Dedup(s) + [x]
  {
    assert (s + [x])[..|s|] == s;
  }

  /** The map after `linkMap.set(key, record)`: a new key goes to the end of the
      iteration order, an existing one keeps its place and gets the new record. */
  function Set(lm: LinkMap, rec: LinkRecord): LinkMap
  {
    LinkMap(if rec.Key() in lm.entries then lm.keys else lm.keys + [rec.Key()],
            lm.entries[rec.Key() := rec])
  }

  /** The loop state after the first `i` rows. */
  ghost predicate LoadedPrefix(lm: LinkMap, rels: seq<Relationship>, i: nat)
    requires i <= |rels|
  {
    && ValidLinkMap(lm)
    && lm.keys == Dedup(KeySeq(rels[..i]))
    && (forall j :: 0 <= j < i ==> KeyOf(rels[j]) in lm.entries)
    && (forall k :: k in lm.entries ==> exists j :: 0 <= j < i && KeyOf(rels[j]) == k)
    && (forall j :: 0 <= j < i && (forall j' :: j < j' < i ==> KeyOf(rels[j']) != KeyOf(rels[j]))
          ==> lm.entries[KeyOf(rels[j])] == RecordOf(rels[j]))
  }

  lemma {:induction false} SetValid(lm: LinkMap, rec: LinkRecord)
    requires ValidLinkMap(lm)
    ensures ValidLinkMap(Set(lm, rec))
  {
  }

  lemma {:induction false} SetKeys(lm: LinkMap, rels: seq<Relationship>, i: nat)
    requires i < |rels| && ValidLinkMap(lm) && lm.keys == Dedup(KeySeq(rels[..i]))
    ensures Set(lm, RecordOf(rels[i])).keys == Dedup(KeySeq(rels[..i + 1]))
  {
    var key := KeyOf(rels[i]);
    assert rels[..i + 1][..i] == rels[..i];
    assert KeySeq(rels[..i + 1]) == KeySeq(rels[..i]) + [key];
    DedupSnoc(KeySeq(rels[..i]), key);
  }

  lemma {:induction false} SetMembers(lm: LinkMap, rels: seq<Relationship>, i: nat)
    requires i < |rels|
    requires forall j :: 0 <= j < i ==> KeyOf(rels[j]) in lm.entries
    requires forall k :: k in lm.entries ==> exists j :: 0 <= j < i && KeyOf(rels[j]) == k
    ensures forall j :: 0 <= j < i + 1 ==> KeyOf(rels[j]) in Set(lm, RecordOf(rels[i])).entries
    ensures forall k :: k in Set(lm, RecordOf(rels[i])).entries ==> exists j :: 0 <= j < i + 1 && KeyOf(rels[j]) == k
  {
  }

  lemma {:induction false} SetLastWins(lm: LinkMap, rels: seq<Relationship>, i: nat)
    requires i < |rels|
    requires forall j :: 0 <= j < i ==> KeyOf(rels[j]) in lm.entries
    requires forall j :: 0 <= j < i && (forall j' :: j < j' < i ==> KeyOf(rels[j']) != KeyOf(rels[j]))
               ==> lm.entries[KeyOf(rels[j])] == RecordOf(rels[j])
    ensures forall j :: 0 <= j < i + 1 && (forall j' :: j < j' < i + 1 ==> KeyOf(rels[j']) != KeyOf(rels[j]))
              ==> Set(lm, RecordOf(rels[i])).entries[KeyOf(rels[j])] == RecordOf(rels[j])
  {
    var lm' := Set(lm, RecordOf(rels[i]));
    forall j | 0 <= j < i + 1 && (forall j' :: j < j' < i + 1 ==> KeyOf(rels[j']) != KeyOf(rels[j]))
      ensures lm'.entries[KeyOf(rels[j])] == RecordOf(rels[j])
    {
      if j < i {
        assert KeyOf(rels[j]) in lm.entries;
        assert KeyOf(rels[i]) != KeyOf(rels[j]);
      }
    }
  }

  lemma {:induction false} SetEntries(lm: LinkMap, rels: seq<Relationship>, i: nat)
    requires i < |rels| && LoadedPrefix(lm, rels, i)
    ensures LoadedPrefix(Set(lm, RecordOf(rels[i])), rels, i + 1)
  {
    SetValid(lm, RecordOf(rels[i]));
    SetKeys(lm, rels, i);
    SetMembers(lm, rels, i);
    SetLastWins(lm, rels, i);
  }

  /** The `relationships.forEach(r => linkMap.set(key, ...))` loop: one entry per
      directed pair, iterated in the order each pair first appears, holding the
      LAST row for that pair. */
  method BuildLinkMap(rels: seq<Relationship>) returns (lm: LinkMap)
    ensures MapOfRows(lm, rels)
  {
    lm := LinkMap([], map[]);
    for i := 0 to |rels|
      invariant LoadedPrefix(lm, rels, i)
    {
      SetEntries(lm, rels, i);
      lm := Set(lm, RecordOf(rels[i]));
    }
    LoadedAll(lm, rels);
  }

  /** `lm` is the map the rows build: a valid map whose keys are the rows'
      directed pairs in first-seen order, holding a pair exactly when some row
      has it, with the LAST row listed for each pair as its entry. */
  ghost predicate MapOfRows(lm: LinkMap, rels: seq<Relationship>)
  {
    && ValidLinkMap(lm)
    && lm.keys == Dedup(KeySeq(rels))
    && (forall k :: k in lm.entries <==> exists j :: 0 <= j < |rels| && KeyOf(rels[j]) == k)
    && (forall j :: 0 <= j < |rels| && (forall j' :: j < j' < |rels| ==> KeyOf(rels[j']) != KeyOf(rels[j]))
          ==> lm.entries[KeyOf(rels[j])] == RecordOf(rels[j]))
  }

  lemma LoadedAll(lm: LinkMap, rels: seq<Relationship>)
    requires LoadedPrefix(lm, rels, |rels|)
    ensures MapOfRows(lm, rels)
  {
    assert rels[..|rels|] == rels;
  }

  function Sources(rels: seq<Relationship>): (s: seq<string>)
    ensures |s| == |rels| && forall j :: 0 <= j < |rels| ==> s[j] == rels[j].characterId
  {
    seq(|rels|, j requires 0 <= j < |rels| => rels[j].characterId)
  }

  function Targets(rels: seq<Relationship>): (s: seq<string>)
    ensures |s| == |rels| && forall j :: 0 <= j < |rels| ==> s[j] == rels[j].targetCharacterId
  {
    seq(|rels|, j requires 0 <= j < |rels| => rels[j].targetCharacterId)
  }

  /** `new Set([...rels.map(r => r.CharacterID), ...rels.map(r => r.TargetCharacterID)])`:
      every character named by a row, sources first, each once. */
  function CharacterIds(rels: seq<Relationship>): seq<string>
  {
    Dedup(Sources(rels) + Targets(rels))
  }

  /** Every row's source and target are character ids. */
  lemma EndpointsAreCharacters(rels: seq<Relationship>)
    ensures forall j :: 0 <= j < |rels| ==>
              rels[j].characterId in CharacterIds(rels) && rels[j].targetCharacterId in CharacterIds(rels)
  {
    var s, t := Sources(rels), Targets(rels);
    forall j | 0 <= j < |rels|
      ensures rels[j].characterId in s + t && rels[j].targetCharacterId in s + t
    {
      assert (s + t)[j] == rels[j].characterId;
      assert (s + t)[|s| + j] == rels[j].targetCharacterId;
    }
  }

  /** Every character id is the source or the target of some row, and none is listed twice. */
  lemma CharactersAreEndpoints(rels: seq<Relationship>)
    ensures Distinct(CharacterIds(rels))
    ensures forall id :: id in CharacterIds(rels) ==>
              exists j :: 0 <= j < |rels| && (rels[j].characterId == id || rels[j].targetCharacterId == id)
  {
    var s, t := Sources(rels), Targets(rels);
    forall id | id in s + t
      ensures exists j :: 0 <= j < |rels| && (rels[j].characterId == id || rels[j].targetCharacterId == id)
    {
      var p :| 0 <= p < |s + t| && (s + t)[p] == id;
      if p < |s| { assert rels[p].characterId == id; } else { assert rels[p - |s|].targetCharacterId == id; }
    }
  }

  /** `socialInfo?.Groups || ['Outside of Hogwarts']`, with the parsed social
      records given as a map from id to Groups list. */
  function GroupsOf(social: map<string, seq<string>>, id: string): seq<string>
  {
    if id in social then social[id] else [Outside]
  }
}
