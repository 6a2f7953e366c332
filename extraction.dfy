/**
  Entity collection: `extract_entities`.

  Candidates come from three sources, in this order: the person names of the
  named-entity recogniser chosen by the language heuristic, the name captured
  by each introduction-phrase pattern ("my name is …", "mein Name ist …"),
  and every match of every entry of the pattern table. Each becomes an entity
  record; the list is then sorted by start with a stable sort.

  The recognisers are not modelled: the caller passes what each would return
  on the text, the output of both language models for the recogniser, one
  group of matches per pattern for the regular expressions.
 */
module Extraction {
  import opened Entities
  import opened TextSearch
  import opened Ordering

  /** The keys of the pattern table, in the table's (iteration) order. */
  const PatternKinds: seq<Kind> := [Email, PhoneNumber, Dob, AadharNum, CreditDebitNo, CvvNo, ExpiryNo]

  /** The number of introduction-phrase patterns: one English, one German. */
  const NamePatternCount: nat := 2

  /** The label the recogniser must give a span for it to count as a name. */
  const PersonLabel: string := "PERSON"

  /** The recogniser output the language heuristic selects. */
  function SelectedNer(text: string, nerEn: seq<NerSpan>, nerDe: seq<NerSpan>): (doc: seq<NerSpan>)
    ensures (exists i :: 0 <= i < |text| && text[i] in GermanChars) ==> doc == nerDe
    ensures (forall i :: 0 <= i < |text| ==> text[i] !in GermanChars) ==> doc == nerEn
  {
    if IsGerman(text) then nerDe else nerEn
  }

  /** The entity one recogniser span contributes: none unless it is labelled
      a person, splits into more than one part and occurs in the text; then
      its first occurrence, classified as a full name. */
  function NerEntity(text: string, ent: NerSpan): seq<Entity>
  {
    if ent.nerLabel == PersonLabel && TokenCount(ent.text) > 1 then
      var startIdx := Find(text, ent.text);
      if startIdx != -1 then [Entity(startIdx, startIdx + |ent.text|, FullName, ent.text)] else []
    else []
  }

  /** A recogniser entity is a full name spelling out the span's text at the
      first place the text holds it. */
  lemma NerEntityFirstOccurrence(text: string, ent: NerSpan)
    ensures |NerEntity(text, ent)| <= 1
    ensures NerEntity(text, ent) != [] ==>
      var e := NerEntity(text, ent)[0];
      e.classification == FullName && e.value == ent.text &&
      WellFormed(text, e) && FirstFrom(text, ent.text, 0, e.start)
  {
    FindFirst(text, ent.text);
  }

  /** A recogniser span yields an entity exactly when it is labelled a person,
      has a space between two non-space characters, and occurs in the text. */
  lemma NerEntityKept(text: string, ent: NerSpan)
    ensures NerEntity(text, ent) != [] <==>
            ent.nerLabel == PersonLabel && MultiToken(ent.text) && Occurs(text, ent.text)
  {
    MoreThanOneToken(ent.text);
    FindFirst(text, ent.text);
  }

  /** The entities of the recogniser spans `doc`, in the order of `doc`. */
  function NerEntities(text: string, doc: seq<NerSpan>): seq<Entity>
  {
    if doc == [] then []
    else NerEntities(text, doc[..|doc| - 1]) + NerEntity(text, doc[|doc| - 1])
  }

  /** One entity per match, classified as `k`, in match order. */
  function MatchEntities(ms: seq<Match>, k: Kind): seq<Entity>
  {
    if ms == [] then []
    else MatchEntities(ms[..|ms| - 1], k) + [FromMatch(ms[|ms| - 1], k)]
  }

  /** The name captures of the introduction-phrase patterns, pattern by
      pattern, all classified as full names. */
  function PhraseEntities(groups: seq<seq<Match>>): seq<Entity>
  {
    if groups == [] then []
    else PhraseEntities(groups[..|groups| - 1]) + MatchEntities(groups[|groups| - 1], FullName)
  }

  /** The matches of the pattern table, entry by entry, each classified with
      its entry's key. */
  function PatternEntities(groups: seq<seq<Match>>): seq<Entity>
    requires |groups| <= |PatternKinds|
  {
    if groups == [] then []
    else PatternEntities(groups[..|groups| - 1]) + MatchEntities(groups[|groups| - 1], PatternKinds[|groups| - 1])
  }

  /** The `j`-th entity of a group is built from the `j`-th match:
      position [start, start + len(value)], the value, the group's kind. */
  lemma {:induction false} MatchEntitiesAt(ms: seq<Match>, k: Kind)
    ensures |MatchEntities(ms, k)| == |ms|
    ensures forall j :: 0 <= j < |ms| ==> MatchEntities(ms, k)[j] == FromMatch(ms[j], k)
  {
    if ms != [] {
      MatchEntitiesAt(ms[..|ms| - 1], k);
    }
  }

  /** Every recogniser entity is a well-formed full name. */
  lemma {:induction false} NerEntitiesFullNames(text: string, doc: seq<NerSpan>)
    ensures forall e :: e in NerEntities(text, doc) ==> WellFormed(text, e) && e.classification == FullName
    ensures |NerEntities(text, doc)| <= |doc|
  {
    if doc != [] {
      NerEntitiesFullNames(text, doc[..|doc| - 1]);
      NerEntityFirstOccurrence(text, doc[|doc| - 1]);
    }
  }

  /** Every introduction-phrase entity is classified as a full name. */
  lemma {:induction false} PhraseEntitiesFullNames(groups: seq<seq<Match>>)
    ensures forall e :: e in PhraseEntities(groups) ==> e.classification == FullName
  {
    if groups != [] {
      var n := |groups|;
      PhraseEntitiesFullNames(groups[..n - 1]);
      MatchEntitiesAt(groups[n - 1], FullName);
    }
  }

  /** Every pattern entity is built from a match of some table entry and
      classified with that entry's key, so never as a full name. */
  lemma {:induction false} PatternEntitiesKinds(groups: seq<seq<Match>>)
    requires |groups| <= |PatternKinds|
    ensures forall e :: e in PatternEntities(groups) ==>
      exists p, j :: 0 <= p < |groups| && 0 <= j < |groups[p]| && e == FromMatch(groups[p][j], PatternKinds[p])
    ensures forall e :: e in PatternEntities(groups) ==>
      e.classification in PatternKinds[..|groups|] && e.classification != FullName
  {
    PatternEntitiesFrom(groups);
    forall e | e in PatternEntities(groups)
      ensures e.classification in PatternKinds[..|groups|] && e.classification != FullName
    {
      assert FromTable(e, groups);
      var p, j :| 0 <= p < |groups| && 0 <= j < |groups[p]| && e == FromMatch(groups[p][j], PatternKinds[p]);
      assert PatternKinds[..|groups|][p] == PatternKinds[p];
    }
  }

  /** `e` is built from the `j`-th match of the `p`-th table entry, for some
      `p` and `j`. */
  predicate FromTable(e: Entity, groups: seq<seq<Match>>)
    requires |groups| <= |PatternKinds|
  {
    exists p, j :: 0 <= p < |groups| && 0 <= j < |groups[p]| && e == FromMatch(groups[p][j], PatternKinds[p])
  }

  /** Each pattern entity comes from some match of some table entry. */
  lemma {:induction false} PatternEntitiesFrom(groups: seq<seq<Match>>)
    requires |groups| <= |PatternKinds|
    ensures forall e :: e in PatternEntities(groups) ==> FromTable(e, groups)
  {
    if groups != [] {
      var n := |groups|;
      var init := groups[..n - 1];
      PatternEntitiesFrom(init);
      MatchEntitiesFrom(groups[n - 1], PatternKinds[n - 1]);
      forall e | e in PatternEntities(groups) ensures FromTable(e, groups) {
        if e in PatternEntities(init) {
          FromTablePrefix(e, groups, n - 1);
        } else {
          var j :| 0 <= j < |groups[n - 1]| && e == FromMatch(groups[n - 1][j], PatternKinds[n - 1]);
        }
      }
    }
  }

  /** An entity built from a match of the first `m` entries is built from a
      match of the table. */
  lemma FromTablePrefix(e: Entity, groups: seq<seq<Match>>, m: nat)
    requires m <= |groups| <= |PatternKinds|
    requires FromTable(e, groups[..m])
    ensures FromTable(e, groups)
  {
    var p, j :| 0 <= p < m && 0 <= j < |groups[..m][p]| && e == FromMatch(groups[..m][p][j], PatternKinds[p]);
    assert groups[..m][p] == groups[p];
  }

  /** Each entity of a group is built from one of its matches. */
  lemma MatchEntitiesFrom(ms: seq<Match>, k: Kind)
    ensures forall e :: e in MatchEntities(ms, k) ==> exists j :: 0 <= j < |ms| && e == FromMatch(ms[j], k)
  {
    MatchEntitiesAt(ms, k);
    forall e | e in MatchEntities(ms, k) ensures exists j :: 0 <= j < |ms| && e == FromMatch(ms[j], k) {
      var j :| 0 <= j < |MatchEntities(ms, k)| && MatchEntities(ms, k)[j] == e;
    }
  }

  /** Everything the three sources contribute, in collection order. */
  function Collected(text: string, nerEn: seq<NerSpan>, nerDe: seq<NerSpan>,
                     phraseGroups: seq<seq<Match>>, patternGroups: seq<seq<Match>>): seq<Entity>
    requires |patternGroups| <= |PatternKinds|
  {
    NerEntities(text, SelectedNer(text, nerEn, nerDe)) + PhraseEntities(phraseGroups) + PatternEntities(patternGroups)
  }

  /** The number of matches over all groups. */
  function MatchCount(groups: seq<seq<Match>>): nat
  {
    if groups == [] then 0 else MatchCount(groups[..|groups| - 1]) + |groups[|groups| - 1]|
  }

  /** No group has a match exactly when the count is zero. */
  lemma {:induction false} MatchCountZero(groups: seq<seq<Match>>)
    ensures MatchCount(groups) == 0 <==> forall g :: 0 <= g < |groups| ==> groups[g] == []
  {
    if groups != [] {
      var n := |groups|;
      MatchCountZero(groups[..n - 1]);
      assert forall g :: 0 <= g < n - 1 ==> groups[..n - 1][g] == groups[g];
    }
  }

  /** Every introduction-phrase match yields one entity; none is dropped or
      merged. */
  lemma {:induction false} PhraseEntitiesCount(groups: seq<seq<Match>>)
    ensures |PhraseEntities(groups)| == MatchCount(groups)
  {
    if groups != [] {
      var n := |groups|;
      PhraseEntitiesCount(groups[..n - 1]);
      MatchEntitiesAt(groups[n - 1], FullName);
    }
  }

  /** Every pattern match yields one entity; overlapping matches of
      different patterns are all kept. */
  lemma {:induction false} PatternEntitiesCount(groups: seq<seq<Match>>)
    requires |groups| <= |PatternKinds|
    ensures |PatternEntities(groups)| == MatchCount(groups)
  {
    if groups != [] {
      var n := |groups|;
      PatternEntitiesCount(groups[..n - 1]);
      MatchEntitiesAt(groups[n - 1], PatternKinds[n - 1]);
    }
  }

  /** The recogniser contributes nothing exactly when none of its spans
      qualifies on its own. */
  lemma NerEntitiesNone(text: string, doc: seq<NerSpan>)
    ensures NerEntities(text, doc) == [] <==> forall i :: 0 <= i < |doc| ==> NerEntity(text, doc[i]) == []
  {
    if forall i :: 0 <= i < |doc| ==> NerEntity(text, doc[i]) == [] {
      NoneQualifies(text, doc);
    } else {
      var i :| 0 <= i < |doc| && NerEntity(text, doc[i]) != [];
      OneQualifies(text, doc, i);
    }
  }

  lemma {:induction false} NoneQualifies(text: string, doc: seq<NerSpan>)
    requires forall i :: 0 <= i < |doc| ==> NerEntity(text, doc[i]) == []
    ensures NerEntities(text, doc) == []
  {
    if doc != [] {
      var n := |doc|;
      var p := doc[..n - 1];
      assert forall i :: 0 <= i < n - 1 ==> p[i] == doc[i];
      NoneQualifies(text, p);
    }
  }

  lemma {:induction false} OneQualifies(text: string, doc: seq<NerSpan>, i: nat)
    requires i < |doc| && NerEntity(text, doc[i]) != []
    ensures NerEntities(text, doc) != []
  {
    var n := |doc|;
    if i < n - 1 {
      var p := doc[..n - 1];
      assert p[i] == doc[i];
      OneQualifies(text, p, i);
    }
  }

  /** Nothing is collected exactly when no recogniser span of the selected
      language qualifies and no pattern matches. */
  lemma NothingDetected(text: string, nerEn: seq<NerSpan>, nerDe: seq<NerSpan>,
                        phraseGroups: seq<seq<Match>>, patternGroups: seq<seq<Match>>)
    requires |patternGroups| <= |PatternKinds|
    ensures var doc := SelectedNer(text, nerEn, nerDe);
      Collected(text, nerEn, nerDe, phraseGroups, patternGroups) == [] <==>
        (forall i :: 0 <= i < |doc| ==> NerEntity(text, doc[i]) == []) &&
        (forall g :: 0 <= g < |phraseGroups| ==> phraseGroups[g] == []) &&
        (forall g :: 0 <= g < |patternGroups| ==> patternGroups[g] == [])
  {
    NerEntitiesNone(text, SelectedNer(text, nerEn, nerDe));
    PhraseEntitiesCount(phraseGroups);
    PatternEntitiesCount(patternGroups);
    MatchCountZero(phraseGroups);
    MatchCountZero(patternGroups);
  }

  /** The entities of valid matches spell out the text they cover. */
  lemma MatchEntitiesWellFormed(text: string, ms: seq<Match>, k: Kind)
    requires ValidGroup(text, ms)
    ensures forall e :: e in MatchEntities(ms, k) ==> WellFormed(text, e)
  {
    MatchEntitiesAt(ms, k);
    forall e | e in MatchEntities(ms, k) ensures WellFormed(text, e) {
      var j :| 0 <= j < |ms| && MatchEntities(ms, k)[j] == e;
    }
  }

  lemma {:induction false} PhraseEntitiesWellFormed(text: string, groups: seq<seq<Match>>)
    requires ValidMatches(text, groups)
    ensures forall e :: e in PhraseEntities(groups) ==> WellFormed(text, e)
  {
    if groups != [] {
      var n := |groups|;
      assert ValidMatches(text, groups[..n - 1]);
      PhraseEntitiesWellFormed(text, groups[..n - 1]);
      MatchEntitiesWellFormed(text, groups[n - 1], FullName);
    }
  }

  lemma {:induction false} PatternEntitiesWellFormed(text: string, groups: seq<seq<Match>>)
    requires |groups| <= |PatternKinds| && ValidMatches(text, groups)
    ensures forall e :: e in PatternEntities(groups) ==> WellFormed(text, e)
  {
    if groups != [] {
      var n := |groups|;
      assert ValidMatches(text, groups[..n - 1]);
      PatternEntitiesWellFormed(text, groups[..n - 1]);
      MatchEntitiesWellFormed(text, groups[n - 1], PatternKinds[n - 1]);
    }
  }

  /** Every collected entity covers exactly its own characters of the text. */
  lemma CollectedWellFormed(text: string, nerEn: seq<NerSpan>, nerDe: seq<NerSpan>,
                            phraseGroups: seq<seq<Match>>, patternGroups: seq<seq<Match>>)
    requires |patternGroups| <= |PatternKinds|
    requires ValidMatches(text, phraseGroups) && ValidMatches(text, patternGroups)
    ensures forall e :: e in Collected(text, nerEn, nerDe, phraseGroups, patternGroups) ==> WellFormed(text, e)
  {
    NerEntitiesFullNames(text, SelectedNer(text, nerEn, nerDe));
    PhraseEntitiesWellFormed(text, phraseGroups);
    PatternEntitiesWellFormed(text, patternGroups);
  }

  /** What the stable sort of the collected entities keeps: their order by
      start, every entity, the collection order among equal starts, and the
      well-formedness of each. */
  lemma SortedCollected(text: string, collected: seq<Entity>)
    requires forall e :: e in collected ==> WellFormed(text, e)
    ensures Sorted(SortBy(collected, false), false)
    ensures multiset(SortBy(collected, false)) == multiset(collected)
    ensures forall k :: WithKey(SortBy(collected, false), k, false) == WithKey(collected, k, false)
    ensures forall e :: e in SortBy(collected, false) ==> WellFormed(text, e)
  {
    var sorted := SortBy(collected, false);
    forall k ensures WithKey(sorted, k, false) == WithKey(collected, k, false) {
      SortStable(collected, k, false);
    }
    forall e | e in sorted ensures WellFormed(text, e) {
      assert e in multiset(sorted);
    }
  }

  /** One more recogniser span adds its own entity, if any. */
  lemma NerEntitiesStep(text: string, doc: seq<NerSpan>, i: nat)
    requires i < |doc|
    ensures NerEntities(text, doc[..i + 1]) == NerEntities(text, doc[..i]) + NerEntity(text, doc[i])
  {
    assert doc[..i + 1][..i] == doc[..i];
  }

  /** One more introduction-phrase pattern adds its captures. */
  lemma PhraseEntitiesStep(groups: seq<seq<Match>>, p: nat)
    requires p < |groups|
    ensures PhraseEntities(groups[..p + 1]) == PhraseEntities(groups[..p]) + MatchEntities(groups[p], FullName)
  {
    assert groups[..p + 1][..p] == groups[..p];
  }

  /** One more table entry adds its matches, classified with its key. */
  lemma PatternEntitiesStep(groups: seq<seq<Match>>, p: nat)
    requires p < |groups| <= |PatternKinds|
    ensures PatternEntities(groups[..p + 1]) == PatternEntities(groups[..p]) + MatchEntities(groups[p], PatternKinds[p])
  {
    assert groups[..p + 1][..p] == groups[..p];
  }

  /** The recogniser loop of `extract_entities`: appends the entity of each
      span of `doc` that passes the name filter. */
  method AppendNerNames(entities: seq<Entity>, text: string, doc: seq<NerSpan>)
    returns (result: seq<Entity>)
    ensures result == entities + NerEntities(text, doc)
  {
    result := entities;
    for i := 0 to |doc|
      invariant result == entities + NerEntities(text, doc[..i])
    {
      NerEntitiesStep(text, doc, i);
      ConcatAssoc(entities, NerEntities(text, doc[..i]), NerEntity(text, doc[i]));
      result := AppendNerName(result, text, doc[i]);
    }
    assert doc[..|doc|] == doc;
  }

  /** The body of the recogniser loop: a `PERSON` span of two or more tokens
      is appended at the first occurrence of its text, if it occurs. */
  method AppendNerName(entities: seq<Entity>, text: string, ent: NerSpan)
    returns (result: seq<Entity>)
    ensures result == entities + NerEntity(text, ent)
  {
    result := entities;
    if ent.nerLabel == PersonLabel {
      if TokenCount(ent.text) > 1 {
        var startIdx := Find(text, ent.text);
        if startIdx != -1 {
          result := result + [Entity(startIdx, startIdx + |ent.text|, FullName, ent.text)];
        }
      }
    }
  }

  /** The inner loop over `re.finditer`: appends one entity of kind `k` per
      match, at the match's start and spanning its text. */
  method AppendMatches(entities: seq<Entity>, matches: seq<Match>, k: Kind)
    returns (result: seq<Entity>)
    ensures result == entities + MatchEntities(matches, k)
  {
    result := entities;
    for j := 0 to |matches|
      invariant result == entities + MatchEntities(matches[..j], k)
    {
      var value := matches[j].value;
      var startIdx := matches[j].start;
      assert matches[..j + 1][..j] == matches[..j];
      assert MatchEntities(matches[..j + 1], k) == MatchEntities(matches[..j], k) + [FromMatch(matches[j], k)];
      assert Entity(startIdx, startIdx + |value|, k, value) == FromMatch(matches[j], k);
      ConcatAssoc(entities, MatchEntities(matches[..j], k), [FromMatch(matches[j], k)]);
      result := result + [Entity(startIdx, startIdx + |value|, k, value)];
    }
    assert matches[..|matches|] == matches;
  }

  /** The introduction-phrase loop of `extract_entities`: the captured names
      of each pattern in turn, all classified as full names. */
  method AppendPhraseNames(entities: seq<Entity>, groups: seq<seq<Match>>)
    returns (result: seq<Entity>)
    ensures result == entities + PhraseEntities(groups)
  {
    result := entities;
    for p := 0 to |groups|
      invariant result == entities + PhraseEntities(groups[..p])
    {
      PhraseEntitiesStep(groups, p);
      ConcatAssoc(entities, PhraseEntities(groups[..p]), MatchEntities(groups[p], FullName));
      result := AppendMatches(result, groups[p], FullName);
    }
    assert groups[..|groups|] == groups;
  }

  /** The pattern-table loop of `extract_entities`: the matches of each entry
      in table order, classified with the entry's key. */
  method AppendPatternMatches(entities: seq<Entity>, groups: seq<seq<Match>>)
    returns (result: seq<Entity>)
    requires |groups| == |PatternKinds|
    ensures result == entities + PatternEntities(groups)
  {
    result := entities;
    for p := 0 to |groups|
      invariant result == entities + PatternEntities(groups[..p])
    {
      var entityType := PatternKinds[p];
      PatternEntitiesStep(groups, p);
      ConcatAssoc(entities, PatternEntities(groups[..p]), MatchEntities(groups[p], entityType));
      result := AppendMatches(result, groups[p], entityType);
    }
    assert groups[..|groups|] == groups;
  }

  /** `extract_entities`: choose the recogniser by language, collect from the
      three sources in order, and sort by start. The result is the stable
      sort of the collected entities. */
  method ExtractEntities(text: string, nerEn: seq<NerSpan>, nerDe: seq<NerSpan>,
                         phraseGroups: seq<seq<Match>>, patternGroups: seq<seq<Match>>)
    returns (entities: seq<Entity>)
    requires |phraseGroups| == NamePatternCount && |patternGroups| == |PatternKinds|
    requires ValidMatches(text, phraseGroups) && ValidMatches(text, patternGroups)
    ensures entities == SortBy(Collected(text, nerEn, nerDe, phraseGroups, patternGroups), false)
    ensures Sorted(entities, false)
    ensures multiset(entities) == multiset(Collected(text, nerEn, nerDe, phraseGroups, patternGroups))
    ensures forall k :: WithKey(entities, k, false) ==
                        WithKey(Collected(text, nerEn, nerDe, phraseGroups, patternGroups), k, false)
    ensures forall e :: e in entities ==> WellFormed(text, e)
  {
    entities := [];
    var isGerman := IsGerman(text);
    var doc := if isGerman then nerDe else nerEn;
    assert doc == SelectedNer(text, nerEn, nerDe);
    entities := AppendNerNames(entities, text, doc);
    assert entities == NerEntities(text, doc);
    entities := AppendPhraseNames(entities, phraseGroups);
    entities := AppendPatternMatches(entities, patternGroups);
    assert entities == Collected(text, nerEn, nerDe, phraseGroups, patternGroups);
    CollectedWellFormed(text, nerEn, nerDe, phraseGroups, patternGroups);
    SortedCollected(text, entities);
    entities := SortBy(entities, false);
  }
}
