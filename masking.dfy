/**
  PII masking: `mask_pii`.

  The entities are sorted by start in descending order (stable, so entities
  with equal starts keep their order) and the text is rewritten right to
  left, each span replaced by its bracketed classification. Slicing follows
  Python: a slice bound past the end of the string is clamped to it, which is
  what happens when an earlier replacement of an overlapping span has already
  shortened the text.

  For entities whose spans do not overlap, the masked text is proved equal to
  a left-to-right reference definition that splices the tags into the
  original text, and its length and untouched prefix follow from it.
 */
module Masking {
  import opened Entities
  import opened Ordering
  import opened Extraction

  /** Python's `s[:n]` for `n >= 0`. */
  function Head(s: string, n: nat): string
  {
    if n <= |s| then s[..n] else s
  }

  /** Python's `s[n:]` for `n >= 0`. */
  function Tail(s: string, n: nat): string
  {
    if n <= |s| then s[n..] else []
  }

  /** One replacement step: `s[:start] + "[classification]" + s[end:]`. */
  function Replace(s: string, e: Entity): string
  {
    Head(s, e.start) + Tag(e.classification) + Tail(s, e.end)
  }

  /** The text after the entities of `order` have been replaced one after
      another, first to last. */
  function MaskAll(text: string, order: seq<Entity>): string
  {
    if order == [] then text
    else Replace(MaskAll(text, order[..|order| - 1]), order[|order| - 1])
  }

  /** `mask_pii`: extract the entities, then replace their spans right to
      left. Returns the masked text and the extracted (ascending) list. */
  method MaskPii(text: string, nerEn: seq<NerSpan>, nerDe: seq<NerSpan>,
                 phraseGroups: seq<seq<Match>>, patternGroups: seq<seq<Match>>)
    returns (maskedText: string, entities: seq<Entity>)
    requires |phraseGroups| == NamePatternCount && |patternGroups| == |PatternKinds|
    requires ValidMatches(text, phraseGroups) && ValidMatches(text, patternGroups)
    ensures entities == SortBy(Collected(text, nerEn, nerDe, phraseGroups, patternGroups), false)
    ensures maskedText == MaskAll(text, SortBy(entities, true))
    ensures entities == [] ==> maskedText == text
    ensures forall e :: e in entities ==> WellFormed(text, e)
  {
    entities := ExtractEntities(text, nerEn, nerDe, phraseGroups, patternGroups);
    var entitiesReversed := SortBy(entities, true);
    maskedText := MaskInOrder(text, entitiesReversed);
  }

  /** The replacement loop of `mask_pii`: rewrite the spans of `order` one
      after another. */
  method MaskInOrder(text: string, order: seq<Entity>) returns (maskedText: string)
    ensures maskedText == MaskAll(text, order)
    ensures order == [] ==> maskedText == text
  {
    maskedText := text;
    for i := 0 to |order|
      invariant maskedText == MaskAll(text, order[..i])
    {
      var entity := order[i];
      var start, end := entity.start, entity.end;
      var entityType := entity.classification;
      assert order[..i + 1][..i] == order[..i];
      maskedText := Head(maskedText, start) + Tag(entityType) + Tail(maskedText, end);
    }
    assert order[..|order|] == order;
  }

  /** The order in which `mask_pii` visits the entities: non-increasing
      starts, every entity exactly as often as extracted, and entities with
      equal starts in their extracted order. */
  lemma VisitOrder(entities: seq<Entity>)
    ensures var order := SortBy(entities, true);
      (forall i, j :: 0 <= i < j < |order| ==> order[i].start >= order[j].start) &&
      multiset(order) == multiset(entities) &&
      forall k :: WithKey(order, k, true) == WithKey(entities, k, true)
  {
    var order := SortBy(entities, true);
    forall i, j | 0 <= i < j < |order| ensures order[i].start >= order[j].start {
      assert Key(order[i], true) <= Key(order[j], true);
    }
    forall k ensures WithKey(order, k, true) == WithKey(entities, k, true) {
      SortStable(entities, k, true);
    }
  }

  /** A single entity inside the text is replaced by its tag and nothing else
      changes. */
  lemma MaskSingle(text: string, e: Entity)
    requires e.start <= e.end <= |text|
    ensures MaskAll(text, [e]) == text[..e.start] + Tag(e.classification) + text[e.end..]
  {
    assert [e][..0] == [];
  }

  // ---------------------------------------------------------------------
  // Entities that do not overlap
  // ---------------------------------------------------------------------

  /** No two entities share a character. */
  predicate NonOverlapping(es: seq<Entity>)
  {
    forall i, j :: 0 <= i < j < |es| ==> es[i].end <= es[j].start || es[j].end <= es[i].start
  }

  /** Every entity ends before the next one starts. */
  predicate Chained(es: seq<Entity>)
  {
    forall i, j :: 0 <= i < j < |es| ==> es[i].end <= es[j].start
  }

  /** Every span is a non-empty interval that lies inside the text. */
  predicate Spans(text: string, es: seq<Entity>)
  {
    forall i :: 0 <= i < |es| ==> es[i].start < es[i].end <= |text|
  }

  /** Sorted non-overlapping spans are chained, so their starts differ. */
  lemma SortedNonOverlappingChained(text: string, es: seq<Entity>)
    requires Sorted(es, false) && NonOverlapping(es) && Spans(text, es)
    ensures Chained(es) && StrictlyAscending(es)
  {
  }

  /** The chained entities `asc` lie inside `text` at or after `from`. */
  predicate Fits(text: string, asc: seq<Entity>, from: nat)
  {
    from <= |text| && Chained(asc) &&
    forall i :: 0 <= i < |asc| ==> from <= asc[i].start <= asc[i].end <= |text|
  }

  /** What follows the first entity fits after its end. */
  lemma FitsTail(text: string, asc: seq<Entity>, from: nat)
    requires Fits(text, asc, from) && asc != []
    ensures Fits(text, asc[1..], asc[0].end)
  {
  }

  /** The reference masking: the original text from `from` on, with the
      spans of the chained entities `asc` replaced by their tags, left to
      right. */
  function Spliced(text: string, asc: seq<Entity>, from: nat): string
    requires Fits(text, asc, from)
    decreases |asc|
  {
    if asc == [] then text[from..]
    else
      FitsTail(text, asc, from);
      text[from..asc[0].start] + Tag(asc[0].classification) + Spliced(text, asc[1..], asc[0].end)
  }

  /** The characters the spans of `es` cover. */
  function Covered(es: seq<Entity>): int
  {
    if es == [] then 0 else es[0].end - es[0].start + Covered(es[1..])
  }

  /** The characters the tags of `es` take. */
  function TagsLength(es: seq<Entity>): nat
  {
    if es == [] then 0 else |Tag(es[0].classification)| + TagsLength(es[1..])
  }

  /** The spliced text loses the covered characters and gains the tags. */
  lemma {:induction false} SplicedLength(text: string, asc: seq<Entity>, from: nat)
    requires Fits(text, asc, from)
    ensures |Spliced(text, asc, from)| == |text| - from - Covered(asc) + TagsLength(asc)
    decreases |asc|
  {
    if asc != [] {
      FitsTail(text, asc, from);
      SplicedLength(text, asc[1..], asc[0].end);
    }
  }

  /** Splicing from 0 keeps the text before the first span. */
  lemma SplicedFrom(text: string, asc: seq<Entity>, k: nat)
    requires Fits(text, asc, k)
    ensures Fits(text, asc, 0)
    ensures Spliced(text, asc, 0) == text[..k] + Spliced(text, asc, k)
  {
    FitsFromZero(text, asc, k);
    if asc == [] {
      SliceSplit(text, 0, k, |text|);
    } else {
      var s := asc[0].start;
      var rest := SplicedUnfold(text, asc, k);
      var rest0 := SplicedUnfold(text, asc, 0);
      SliceSplit(text, 0, k, s);
      ConcatAssoc(text[..k], text[k..s], rest);
    }
  }

  /** Entities that fit after `k` fit after 0. */
  lemma FitsFromZero(text: string, asc: seq<Entity>, k: nat)
    requires Fits(text, asc, k)
    ensures Fits(text, asc, 0)
  {
  }

  lemma SliceSplit(t: string, a: nat, b: nat, c: nat)
    requires a <= b <= c <= |t|
    ensures t[a..c] == t[a..b] + t[b..c]
  {
  }

  /** One step of the reference splice: the text up to the first span, then
      everything from its tag on, which does not depend on `from`. */
  lemma SplicedUnfold(text: string, asc: seq<Entity>, from: nat) returns (rest: string)
    requires Fits(text, asc, from) && asc != []
    ensures rest == Tag(asc[0].classification) + Spliced(text, asc[1..], asc[0].end)
    ensures Spliced(text, asc, from) == text[from..asc[0].start] + rest
  {
    FitsTail(text, asc, from);
    rest := Tag(asc[0].classification) + Spliced(text, asc[1..], asc[0].end);
  }

  lemma ReverseSplit(asc: seq<Entity>)
    requires asc != []
    ensures Reverse(asc)[..|asc| - 1] == Reverse(asc[1..])
    ensures Reverse(asc)[|asc| - 1] == asc[0]
  {
  }

  /** Masking chained entities from the last to the first is the reference
      splice. */
  lemma {:induction false} MaskReversedIsSpliced(text: string, asc: seq<Entity>)
    requires Fits(text, asc, 0)
    ensures MaskAll(text, Reverse(asc)) == Spliced(text, asc, 0)
  {
    if asc != [] {
      var a := asc[0];
      var rest := asc[1..];
      ReverseSplit(asc);
      FitsTail(text, asc, 0);
      SplicedFrom(text, rest, a.end);
      MaskReversedIsSpliced(text, rest);
      var w := Spliced(text, rest, a.end);
      var m := text[..a.end] + w;
      assert MaskAll(text, Reverse(asc)) == Replace(m, a);
      assert Head(m, a.start) == text[..a.start];
      assert Tail(m, a.end) == w;
    }
  }

  /** For entities extracted from `text` whose spans are non-empty and do not
      overlap: the descending order is the ascending list reversed, and the
      masked text is the original with every span replaced by its tag, left
      to right; it is as long as the text minus the covered characters plus
      the tags, and the text before the first span is untouched. */
  lemma {:induction false} DisjointMasking(text: string, entities: seq<Entity>)
    requires Sorted(entities, false) && NonOverlapping(entities) && Spans(text, entities)
    ensures SortBy(entities, true) == Reverse(entities)
    ensures Fits(text, entities, 0)
    ensures MaskAll(text, SortBy(entities, true)) == Spliced(text, entities, 0)
    ensures |MaskAll(text, SortBy(entities, true))| == |text| - Covered(entities) + TagsLength(entities)
    ensures entities != [] ==>
      entities[0].start <= |MaskAll(text, SortBy(entities, true))| &&
      MaskAll(text, SortBy(entities, true))[..entities[0].start] == text[..entities[0].start]
  {
    SortedNonOverlappingChained(text, entities);
    assert Fits(text, entities, 0);
    DescendingIsReverse(entities);
    MaskReversedIsSpliced(text, entities);
    SplicedLength(text, entities, 0);
    if entities != [] {
      SplicedPrefix(text, entities);
    }
  }

  /** The reference splice starts with the text before the first span. */
  lemma SplicedPrefix(text: string, asc: seq<Entity>)
    requires Fits(text, asc, 0) && asc != []
    ensures asc[0].start <= |Spliced(text, asc, 0)|
    ensures Spliced(text, asc, 0)[..asc[0].start] == text[..asc[0].start]
  {
    FitsTail(text, asc, 0);
    var rest := Tag(asc[0].classification) + Spliced(text, asc[1..], asc[0].end);
    assert Spliced(text, asc, 0) == text[0..asc[0].start] + rest;
  }

  // ---------------------------------------------------------------------
  // The loop's view: replacements never touch what is still to be replaced
  // ---------------------------------------------------------------------

  /** Each entity of `order` lies wholly before every entity listed earlier. */
  predicate RightToLeft(order: seq<Entity>)
  {
    forall i, j :: 0 <= i < j < |order| ==> order[j].end <= order[i].start
  }

  /** Everything left of the last replaced span is still the original text. */
  function Untouched(text: string, order: seq<Entity>, i: nat): int
    requires i <= |order|
  {
    if i == 0 then |text| else order[i - 1].start
  }

  /** After `i` right-to-left replacements, the text before the last replaced
      span is unchanged. */
  lemma {:induction false} PrefixUnchanged(text: string, order: seq<Entity>, i: nat)
    requires RightToLeft(order) && i <= |order|
    requires forall k :: 0 <= k < |order| ==> order[k].start <= order[k].end <= |text|
    ensures Untouched(text, order, i) <= |MaskAll(text, order[..i])|
    ensures MaskAll(text, order[..i])[..Untouched(text, order, i)] == text[..Untouched(text, order, i)]
  {
    if i > 0 {
      PrefixUnchanged(text, order, i - 1);
      var m := MaskAll(text, order[..i - 1]);
      var e := order[i - 1];
      var u := Untouched(text, order, i - 1);
      assert e.end <= u by {
        if i > 1 {
          assert order[i - 1].end <= order[i - 2].start;
        }
      }
      MaskAllLast(text, order, i);
      ReplaceKeepsPrefix(m, e, e.start);
      SliceOfPrefix(m, text, u, 0, e.start);
    }
  }

  /** The `i`-th mask is one more replacement on the `i - 1`-th. */
  lemma MaskAllLast(text: string, order: seq<Entity>, i: nat)
    requires 0 < i <= |order|
    ensures MaskAll(text, order[..i]) == Replace(MaskAll(text, order[..i - 1]), order[i - 1])
  {
    assert order[..i][..i - 1] == order[..i - 1];
  }

  /** Two strings that agree up to `u` agree on every slice below `u`. */
  lemma SliceOfPrefix(a: string, b: string, u: nat, lo: nat, hi: nat)
    requires lo <= hi <= u <= |a| && u <= |b| && a[..u] == b[..u]
    ensures a[lo..hi] == b[lo..hi]
  {
    forall k | lo <= k < hi ensures a[k] == b[k] {
      assert a[k] == a[..u][k] && b[k] == b[..u][k];
    }
  }

  /** Every replacement of a right-to-left pass cuts the text at offsets that
      still hold the entity's original characters. */
  lemma ReplacementSeesOriginal(text: string, order: seq<Entity>, i: nat)
    requires RightToLeft(order) && i < |order|
    requires forall k :: 0 <= k < |order| ==> WellFormed(text, order[k])
    ensures order[i].start <= order[i].end <= |MaskAll(text, order[..i])|
    ensures MaskAll(text, order[..i])[order[i].start..order[i].end] == order[i].value
  {
    assert forall k :: 0 <= k < |order| ==> order[k].start <= order[k].end <= |text| by {
      forall k | 0 <= k < |order| ensures order[k].start <= order[k].end <= |text| {
        assert WellFormed(text, order[k]);
      }
    }
    PrefixUnchanged(text, order, i);
    var e := order[i];
    assert WellFormed(text, e);
    assert e.end <= Untouched(text, order, i) by {
      if i > 0 {
        assert order[i].end <= order[i - 1].start;
      }
    }
    SliceOfPrefix(MaskAll(text, order[..i]), text, Untouched(text, order, i), e.start, e.end);
  }

  /** Sorted non-overlapping spans, taken in descending order, run right to
      left. */
  lemma DescendingRightToLeft(text: string, entities: seq<Entity>)
    requires Sorted(entities, false) && NonOverlapping(entities) && Spans(text, entities)
    ensures RightToLeft(SortBy(entities, true))
  {
    SortedNonOverlappingChained(text, entities);
    DescendingIsReverse(entities);
    var r := Reverse(entities);
    forall i, j | 0 <= i < j < |r| ensures r[j].end <= r[i].start {
      ReverseAt(entities, i);
      ReverseAt(entities, j);
    }
  }

  lemma {:induction false} ReverseAt(s: seq<Entity>, i: nat)
    requires i < |s|
    ensures Reverse(s)[i] == s[|s| - 1 - i]
  {
    if i < |s| - 1 {
      ReverseAt(s[1..], i);
    }
  }

  // ---------------------------------------------------------------------
  // Overlapping spans
  // ---------------------------------------------------------------------

  /** Of two entities, the one that starts later is replaced first, and the
      other then cuts the rewritten text at its own original offsets. */
  lemma OverlapOrder(text: string, a: Entity, b: Entity)
    requires a.start < b.start <= b.end <= |text|
    ensures SortBy([a, b], true) == [b, a]
    ensures MaskAll(text, SortBy([a, b], true)) ==
            text[..a.start] + Tag(a.classification) + Tail(Replace(text, b), a.end)
  {
    LaterStartFirst(a, b);
    MaskTwo(text, b, a);
    ReplaceKeepsPrefix(text, b, a.start);
  }

  /** A replacement leaves the text before its start alone. */
  lemma ReplaceKeepsPrefix(s: string, e: Entity, n: nat)
    requires n <= e.start <= |s|
    ensures n <= |Replace(s, e)| && Replace(s, e)[..n] == s[..n]
  {
    var rest := Tag(e.classification) + Tail(s, e.end);
    assert Replace(s, e) == s[..e.start] + rest by {
      ConcatAssoc(s[..e.start], Tag(e.classification), Tail(s, e.end));
    }
    assert s[..e.start][..n] == s[..n];
  }

  /** A span nested inside another starts later, so it is masked first; when
      the outer span ends inside the inner tag, the rest of that tag survives
      right after the outer tag. */
  lemma NestedSpanArtifact(text: string, outer: Entity, inner: Entity)
    requires outer.start < inner.start <= inner.end <= outer.end <= |text|
    requires outer.end < inner.start + |Tag(inner.classification)|
    ensures var masked := MaskAll(text, SortBy([outer, inner], true));
            var at := outer.start + |Tag(outer.classification)|;
            at < |masked| && masked[at] == Tag(inner.classification)[outer.end - inner.start]
  {
    OverlapOrder(text, outer, inner);
    ReplaceWithin(text, inner);
    TagRemnant(text, outer.start, outer.end, inner.start, inner.end,
               Tag(outer.classification), Tag(inner.classification));
  }

  /** A replacement inside the text cuts it at exactly the span's offsets. */
  lemma ReplaceWithin(s: string, e: Entity)
    requires e.start <= e.end <= |s|
    ensures Replace(s, e) == s[..e.start] + Tag(e.classification) + s[e.end..]
  {
  }

  /** The string fact behind `NestedSpanArtifact`, for any two tags. */
  lemma TagRemnant(text: string, outerStart: nat, outerEnd: nat, innerStart: nat, innerEnd: nat,
                    outerTag: string, innerTag: string)
    requires outerStart < innerStart <= innerEnd <= outerEnd <= |text|
    requires outerEnd < innerStart + |innerTag|
    ensures var masked := text[..outerStart] + outerTag + Tail(text[..innerStart] + innerTag + text[innerEnd..], outerEnd);
            outerStart + |outerTag| < |masked| && masked[outerStart + |outerTag|] == innerTag[outerEnd - innerStart]
  {
    var once := text[..innerStart] + innerTag + text[innerEnd..];
    assert once[outerEnd] == innerTag[outerEnd - innerStart];
    IndexAfterPrefix(text[..outerStart] + outerTag, once, outerEnd);
  }

  /** The first character after a prefix is the first character of what
      follows it. */
  lemma IndexAfterPrefix(pre: string, s: string, n: nat)
    requires n < |s|
    ensures |pre| < |pre + Tail(s, n)| && (pre + Tail(s, n))[|pre|] == s[n]
  {
  }

  /** When the first replacement leaves the text shorter than the second
      entity's end, Python's `s[end:]` is empty and the second replacement
      drops everything after its own start. */
  lemma OverlapClampsSlice(text: string, left: Entity, right: Entity)
    requires left.start < right.start <= right.end <= |text|
    requires |Replace(text, right)| < left.end
    ensures MaskAll(text, SortBy([left, right], true)) == text[..left.start] + Tag(left.classification)
  {
    OverlapOrder(text, left, right);
  }

  /** Two entities over the same span, as when the recogniser and an
      introduction phrase both find the same name: they are masked in
      extracted order, and the second tag is written over the start of the
      first. Whatever of the first tag reaches past the span's length
      survives after the second tag. */
  lemma SameSpanArtifact(text: string, first: Entity, second: Entity)
    requires first.start == second.start && first.end == second.end
    requires first.start <= first.end <= |text|
    ensures SortBy([first, second], true) == [first, second]
    ensures MaskAll(text, SortBy([first, second], true)) ==
            text[..first.start] + Tag(second.classification)
              + Tail(Tag(first.classification) + text[first.end..], first.end - first.start)
    ensures first.end - first.start <= |Tag(first.classification)| ==>
            MaskAll(text, SortBy([first, second], true)) ==
            text[..first.start] + Tag(second.classification)
              + Tail(Tag(first.classification), first.end - first.start) + text[first.end..]
  {
    SameStartInOrder(first, second);
    MaskSameSpan(text, first, second);
    var n := first.end - first.start;
    if n <= |Tag(first.classification)| {
      var front := text[..first.start] + Tag(second.classification);
      TailOfAppend(Tag(first.classification), text[first.end..], n);
      ConcatAssoc(front, Tail(Tag(first.classification), n), text[first.end..]);
    }
  }

  /** Masking two entities over the same span, in the given order. */
  lemma MaskSameSpan(text: string, first: Entity, second: Entity)
    requires first.start == second.start && first.end == second.end
    requires first.start <= first.end <= |text|
    ensures MaskAll(text, [first, second]) ==
            text[..first.start] + Tag(second.classification)
              + Tail(Tag(first.classification) + text[first.end..], first.end - first.start)
  {
    MaskTwo(text, first, second);
    ReplaceSameSpan(text, first, second);
  }

  /** The second replacement over the same span cuts the once-replaced text
      at the span's original offsets. */
  lemma ReplaceSameSpan(text: string, first: Entity, second: Entity)
    requires first.start == second.start && first.end == second.end
    requires first.start <= first.end <= |text|
    ensures Replace(Replace(text, first), second) ==
            text[..first.start] + Tag(second.classification)
              + Tail(Tag(first.classification) + text[first.end..], first.end - first.start)
  {
    TwoReplacements(text, first.start, first.end, Tag(first.classification), Tag(second.classification));
  }

  /** Two replacements of the span `[start, end)`, first by `firstTag`, then
      by `secondTag`: the second cuts the once-replaced text at the same
      offsets. */
  lemma TwoReplacements(text: string, start: nat, end: nat, firstTag: string, secondTag: string)
    requires start <= end <= |text|
    ensures var once := Head(text, start) + firstTag + Tail(text, end);
            Head(once, start) + secondTag + Tail(once, end) ==
            text[..start] + secondTag + Tail(firstTag + text[end..], end - start)
  {
    var once := Head(text, start) + firstTag + Tail(text, end);
    assert once == text[..start] + (firstTag + text[end..]);
    assert once[..start] == text[..start];
  }

  /** Python's `(a + b)[n:]` is `a[n:] + b` when `n` is within `a`. */
  lemma TailOfAppend(a: string, b: string, n: nat)
    requires n <= |a|
    ensures Tail(a + b, n) == Tail(a, n) + b
  {
    assert (a + b)[n..] == a[n..] + b;
  }

  /** Of two entities with the same start, the first extracted is masked first. */
  lemma SameStartInOrder(a: Entity, b: Entity)
    requires a.start == b.start
    ensures SortBy([a, b], true) == [a, b]
  {
    assert [a, b][1..] == [b];
    assert SortBy([b], true) == [b] by {
      assert [b][1..] == [];
    }
  }

  /** A ten-character name found twice, as "Jane Smith" in
      "My name is Jane Smith." is found by both the recogniser and the
      introduction phrase: the eleven-character tag `[full_name]` is written
      twice over the same span and one closing bracket is left over, giving
      "My name is [full_name]].". */
  lemma DuplicateNameArtifact(text: string, name: Entity)
    requires name.classification == FullName
    requires name.end - name.start == 10 && name.end <= |text|
    ensures MaskAll(text, SortBy([name, name], true)) ==
            text[..name.start] + Tag(FullName) + "]" + text[name.end..]
  {
    SameSpanArtifact(text, name, name);
    TagShape(FullName);
    assert Tail(Tag(FullName), 10) == "]";
  }

  /** Of two entities, the one that starts later is masked first. */
  lemma LaterStartFirst(a: Entity, b: Entity)
    requires a.start < b.start
    ensures SortBy([a, b], true) == [b, a]
  {
    assert [a, b][1..] == [b];
    assert SortBy([b], true) == [b] by {
      assert [b][1..] == [];
    }
    assert Insert(a, [b], true) == [b, a] by {
      assert [b][1..] == [];
    }
  }

  /** Masking two entities is two replacements in a row. */
  lemma MaskTwo(text: string, first: Entity, second: Entity)
    ensures MaskAll(text, [first, second]) == Replace(Replace(text, first), second)
  {
    assert [first, second][..1] == [first];
    assert [first][..0] == [];
    assert MaskAll(text, [first]) == Replace(text, first);
  }
}
