# PII entity collection and masking

This project models the PII detection and masking layer of an email-triage
service in Dafny. The layer works on free email text. It collects
personally identifiable information from three sources:

- person names found by a named-entity recogniser;
- names captured by "my name is …" introduction phrases;
- a fixed table of regular expressions: email, phone number, date of birth,
  Aadhaar number, card number, CVV and expiry date.

It sorts the entities by position. It then rewrites the text right to left,
replacing every span with its bracketed classification, e.g. `[email]`.

The model has five modules:

- `Entities`: the entity record, the closed vocabulary of classifications,
  and the placeholder tag.
- `TextSearch`: Python's `str.find`, the token count of `str.split()`, and the
  whole-text German heuristic.
- `Ordering`: Python's stable sort by start, ascending and with
  `reverse=True`.
  - It is specified three ways: ordered, a permutation, and every group of
    equal starts kept in input order.
  - The three are proved to pin the result down.
- `Extraction`: `extract_entities`.
  - One method appends in the same nested loops as the source.
  - It is proved equal to the stable sort of a specification function,
    `Collected`.
- `Masking`: `mask_pii`.
  - The replacement loop is proved equal to `MaskAll`, which replaces one
    span after another with Python's clamping slices `s[:n]` and `s[n:]` (`Head`, `Tail`).
  - For non-overlapping spans, the masked text is proved equal to a
    left-to-right reference splice, `Spliced`. Its length and untouched
    prefix follow from that.
  - For overlapping spans, the artifacts of the source are stated as
    lemmas. This includes the common case where the recogniser and an
    introduction phrase both report the same name over the same span.

The regular-expression engine and the recogniser are not modelled. They
become parameters:

- The recogniser's output is a sequence of `(label, text)` spans for each
  language model.
- The matches are one sequence of `(start, value)` per pattern, in the
  source's pattern order.
- The only thing assumed of a match is that its value occurs in the text at
  its start, which is what `re.finditer` guarantees.

## Model

| member | source | states |
|---|---|---|
| Entities.TagShape | utils.py:108 | the placeholder is the classification between `[` and `]`, two characters longer than it |
| Entities.NamesDistinct | utils.py:7-15 | the eight classification strings (seven pattern keys and `full_name`) are pairwise different, so the vocabulary is closed and unambiguous |
| TextSearch.FindFirst | utils.py:45-46 | `text.find(s)` is -1 exactly when `s` does not occur, and otherwise the least index where it occurs |
| TextSearch.FindFromFirst | utils.py:45 | the search from an offset finds the first occurrence at or after it, and fails exactly when there is none there |
| TextSearch.TokenCountPositive | utils.py:44 | `s.split()` is non-empty exactly when `s` has a character that is not whitespace |
| TextSearch.MoreThanOneToken | utils.py:44 | `len(s.split()) > 1` exactly when a whitespace character lies between two non-whitespace characters |
| TextSearch.AnyCharIn | utils.py:32 | `any(c in text for c in cs)` holds exactly when some character of `cs` is in the text |
| TextSearch.IsGerman | utils.py:32 | the text counts as German exactly when one of its characters is one of `äöüÄÖÜß` |
| Extraction.SelectedNer | utils.py:32-38 | German text is given to the German model and all other text to the English one |
| Extraction.NerEntityKept | utils.py:42-46 | a recogniser span is kept exactly when its label is `PERSON`, its text has at least two whitespace-separated tokens, and its text occurs in the email |
| Extraction.NerEntityFirstOccurrence | utils.py:45-51 | a kept recogniser span becomes one well-formed `full_name` entity at the first occurrence of its text, whatever offset the recogniser found it at |
| Extraction.NerEntitiesFullNames | utils.py:41-51 | every recogniser entity is a well-formed `full_name`, and there are no more of them than recogniser spans |
| Extraction.NerEntitiesNone | utils.py:41-51 | the recogniser contributes nothing exactly when none of its spans qualifies on its own |
| Extraction.MatchEntitiesAt | utils.py:61-68 | the j-th entity of a group is built from the j-th match: position `[start, start + len(value)]`, that match's value, the group's classification; one entity per match |
| Extraction.PhraseEntitiesFullNames | utils.py:59-68 | every introduction-phrase entity is classified `full_name` |
| Extraction.PatternEntitiesKinds | utils.py:71-80 | every pattern entity is built from the j-th match of some table entry p, at that match's position and value, and classified with entry p's key; so its classification is a table key and never `full_name` |
| Extraction.MatchCountZero | utils.py:59-80 | no pattern group has a match exactly when the total match count is zero |
| Extraction.PhraseEntitiesCount | utils.py:59-68 | every introduction-phrase match yields exactly one entity; nothing is dropped or merged |
| Extraction.PatternEntitiesCount | utils.py:71-80 | every pattern match yields exactly one entity, including matches of different patterns over the same text |
| Extraction.NothingDetected | utils.py:29-80 | nothing is collected exactly when no recogniser span of the selected language qualifies and no pattern of either table matches |
| Extraction.MatchEntitiesWellFormed | utils.py:74-80 | the entity of a valid match spells out the characters of the text at its position |
| Extraction.PhraseEntitiesWellFormed | utils.py:62-68 | every introduction-phrase entity covers exactly its captured name in the text |
| Extraction.PatternEntitiesWellFormed | utils.py:74-80 | every pattern entity covers exactly its matched text |
| Extraction.CollectedWellFormed | utils.py:29-80 | every collected entity satisfies `position == [s, s + len(entity)]` and `text[s:s + len(entity)] == entity` |
| Extraction.SortedCollected | utils.py:83 | the sorted list is ordered by start, a permutation of the collected list, stable for every start, and still well formed |
| Extraction.AppendNerNames | utils.py:41-51 | the recogniser loop appends exactly the recogniser entities, in recogniser order |
| Extraction.AppendNerName | utils.py:42-51 | the nested checks on one recogniser span append exactly its entity, if it qualifies |
| Extraction.AppendMatches | utils.py:61-68 | the loop over one pattern's matches appends one entity per match, in match order |
| Extraction.AppendPhraseNames | utils.py:59-68 | the introduction-phrase loops append the phrase entities, pattern by pattern |
| Extraction.AppendPatternMatches | utils.py:71-80 | the pattern-table loops append the pattern entities in table order |
| Extraction.ExtractEntities | utils.py:29-85 | the result is the stable ascending sort of the collected entities: ordered by start, a permutation of them, equal starts in collection order (recogniser, phrases, table), every entity well formed |
| Ordering.SortBy | utils.py:83 | the sort's result is ordered by the key and is a permutation of its input |
| Ordering.InsertPermutes | utils.py:83 | inserting one entity adds exactly that entity and loses none |
| Ordering.InsertSorted | utils.py:83 | inserting into an ordered list keeps it ordered |
| Ordering.SortStable | utils.py:83 | for every key value, the entities with that key keep their input order, ascending and with `reverse=True` alike |
| Ordering.SortedGroupsDetermine | utils.py:83 | two ordered lists with the same group for every key are equal |
| Ordering.SortUnique | utils.py:83 | any ordered list that keeps every key's group in input order is the sort's result |
| Ordering.DescendingIsReverse | utils.py:102 | when all starts differ, the descending sort of the ascending list is its reversal |
| Masking.MaskPii | utils.py:99-110 | returns the extracted list unchanged, and the text masked in the descending stable order; an empty list leaves the text unchanged |
| Masking.MaskInOrder | utils.py:104-108 | the replacement loop performs the replacements of `MaskAll` in the given order |
| Masking.VisitOrder | utils.py:102 | the loop visits entities in non-increasing start order, each as often as extracted, equal starts in extracted order |
| Masking.MaskSingle | utils.py:104-108 | one entity `(s, e, c)` yields `text[:s] + "[c]" + text[e:]` |
| Masking.SortedNonOverlappingChained | utils.py:101-102 | sorted non-overlapping non-empty spans each end before the next starts, so their starts are distinct |
| Masking.MaskReversedIsSpliced | utils.py:101-108 | masking chained spans from the last to the first equals splicing the tags into the original text from left to right |
| Masking.SplicedLength | utils.py:108 | the spliced text is as long as the text minus the covered characters plus the tags |
| Masking.DisjointMasking | utils.py:101-108 | for non-overlapping spans: the descending order is the reversal; masked text equals the reference splice; `len(masked) == len(text) - Σ(end - start) + Σ len("[c]")`; the text before the first span is unchanged |
| Masking.PrefixUnchanged | utils.py:105-108 | after any number of right-to-left replacements, the text before the last replaced span is still the original |
| Masking.ReplacementSeesOriginal | utils.py:101-108 | in a right-to-left pass, every replacement cuts the text at offsets that still hold that entity's original characters |
| Masking.DescendingRightToLeft | utils.py:102 | sorted non-overlapping spans, in descending order, each lie wholly left of every span already replaced |
| Masking.OverlapOrder | utils.py:102-108 | of two entities, the later-starting one is replaced first, and the other then cuts the rewritten text at its original offsets |
| Masking.NestedSpanArtifact | utils.py:108 | when a nested span's tag reaches past the outer span's end, part of the inner tag survives right after the outer tag |
| Masking.SameSpanArtifact | utils.py:101-108 | two entities over the same span are masked in extracted order; the second tag overwrites the start of the first, and the part of the first tag longer than the span survives after it |
| Masking.DuplicateNameArtifact | utils.py:101-108 | a ten-character full name reported twice over one span leaves `[full_name]]`: "My name is Jane Smith." becomes "My name is [full_name]]." |
| Masking.OverlapClampsSlice | utils.py:108 | when the first replacement shortens the text below the second span's end, `masked_text[end:]` is empty and everything after the second span's start is dropped |

## Left out

- Regular-expression semantics of the pattern table and the introduction-phrase templates (utils.py:7-15, 54-60), including `re.IGNORECASE`.
  - Matches are inputs, one sequence per pattern, each value occurring at its start.
  - Which substrings a pattern accepts is not modelled.
- The named-entity recogniser (utils.py:38) is inputs: one span sequence for each language model.
  - Its label set is the recogniser's own. A German model that labels persons `PER` contributes no recogniser names, because the source tests for `PERSON` only.
  - A name such as "Anna Müller" also fails the phrase template's `[a-z]+`. Whether a German name is found therefore depends on the foreign pieces.
- `Extraction.ExtractEntities`, `Masking.MaskPii`: require exactly two phrase groups and seven pattern groups. This is the shape of the inputs above, not a demand on callers of the source.
- Python's Timsort is modelled as a stable insertion sort. The result is the same, because `Ordering.SortUnique` shows a stable sorted order is unique. Running time is not modelled.
- Collection order follows the code: recogniser names, then phrase names, then the pattern table. This governs ties in the stable sort.
- An empty match value would give an entity with `start == end`. No pattern of the table matches the empty string, but the model does not rely on that. The non-overlap lemmas require non-empty spans.
- The category classifier, model training and persistence, the HTTP layer (its empty-body rejection included), the test client and the command-line trainer are not part of this model.
