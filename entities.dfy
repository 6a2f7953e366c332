/**
  The records that the PII extractor produces and consumes.

  An entity is one detected occurrence of personally identifiable information:
  a half-open span [start, end) of the email text, the kind of information it
  is, and the exact characters it covers. The two kinds of candidate that the
  foreign recognisers hand over (regular-expression matches and named-entity
  spans) are records here as well, so that the extractor can be stated over
  them without modelling a regular-expression engine or a statistical model.
 */
module Entities {

  /** The closed vocabulary of classifications: the keys of the pattern table
      plus the one kind the name extractors produce. */
  datatype Kind =
    | Email
    | PhoneNumber
    | Dob
    | AadharNum
    | CreditDebitNo
    | CvvNo
    | ExpiryNo
    | FullName

  /** The classification string the service reports for a kind. */
  function Name(k: Kind): string
  {
    match k
    case Email => "email"
    case PhoneNumber => "phone_number"
    case Dob => "dob"
    case AadharNum => "aadhar_num"
    case CreditDebitNo => "credit_debit_no"
    case CvvNo => "cvv_no"
    case ExpiryNo => "expiry_no"
    case FullName => "full_name"
  }

  /** The placeholder that replaces a masked span: the classification in
      square brackets. */
  function Tag(k: Kind): string
  {
    "[" + Name(k) + "]"
  }

  /** A tag is the classification between a pair of square brackets. */
  lemma TagShape(k: Kind)
    ensures var t := Tag(k);
      |t| == |Name(k)| + 2 && t[0] == '[' && t[|t| - 1] == ']' && t[1..|t| - 1] == Name(k)
  {
  }

  /** Different kinds are reported under different classification strings. */
  lemma NamesDistinct(k1: Kind, k2: Kind)
    ensures Name(k1) == Name(k2) <==> k1 == k2
  {
  }

  /** One detected entity; the service reports it as
      {position: [start, end], classification, entity: value}. */
  datatype Entity = Entity(start: nat, end: nat, classification: Kind, value: string)

  /** One match of a regular expression (or of its capture group): where it
      starts and the characters it matched. */
  datatype Match = Match(start: nat, value: string)

  /** One entity of the named-entity recogniser's output: its label and its
      surface text (the recogniser's own offsets are not used by the source). */
  datatype NerSpan = NerSpan(nerLabel: string, text: string)

  /** `value` occurs in `text` beginning at index `start`. */
  predicate OccursAt(text: string, value: string, start: int)
  {
    0 <= start && start + |value| <= |text| && text[start..start + |value|] == value
  }

  /** `value` occurs somewhere in `text`. */
  predicate Occurs(text: string, value: string)
  {
    exists i :: 0 <= i <= |text| - |value| && OccursAt(text, value, i)
  }

  /** An entity is well formed for `text` when its span is exactly as long as
      its value and its value is what the text holds there. */
  predicate WellFormed(text: string, e: Entity)
  {
    e.end == e.start + |e.value| && OccursAt(text, e.value, e.start)
  }

  /** Every match of a group occurs in `text` where it says it starts: what a
      regular-expression engine guarantees of its matches. */
  predicate ValidGroup(text: string, ms: seq<Match>)
  {
    forall j :: 0 <= j < |ms| ==> OccursAt(text, ms[j].value, ms[j].start)
  }

  /** Every group of matches is valid. */
  predicate ValidMatches(text: string, groups: seq<seq<Match>>)
  {
    forall g :: 0 <= g < |groups| ==> ValidGroup(text, groups[g])
  }

  /** The entity built from a match: position [start, start + len(value)]. */
  function FromMatch(m: Match, k: Kind): Entity
  {
    Entity(m.start, m.start + |m.value|, k, m.value)
  }

  /** Concatenation is associative; stated once so that proofs can regroup
      appended pieces explicitly. */
  lemma ConcatAssoc<T>(a: seq<T>, b: seq<T>, c: seq<T>)
    ensures (a + b) + c == a + (b + c)
  {
  }
}
