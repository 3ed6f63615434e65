/**
 * The recursive text normalisation applied to every row before import
 * (`ImportCsv::utf8Encode`). Arrays are mapped element by element with
 * their keys kept, strings go through `mb_convert_encoding($s, 'UTF-8',
 * 'UTF-8')`, and every other value is returned as it is.
 *
 * The byte-level conversion lives in a library outside this model; it is
 * the parameter `convert`.
 */
module Utf8Encoding {
  import opened PhpValues

  function Utf8Encode(v: Value, convert: string -> string): (r: Value)
    ensures r.Str? <==> v.Str?
    ensures r.Arr? <==> v.Arr?
    ensures v.Arr? ==> KeysOf(r.entries) == KeysOf(v.entries)
    ensures !v.Str? && !v.Arr? ==> r == v
  {
    match v
    case Str(s) => Str(convert(s))
    case Arr(es) => Arr(seq(|es|, i requires 0 <= i < |es| => (es[i].0, Utf8Encode(es[i].1, convert))))
    case _ => v
  }

  /** `array_map($this->utf8Encode(...), $es)`: a single array, so every
      key stays at its position. */
  function Utf8EncodeEntries(es: Entries, convert: string -> string): (r: Entries)
    ensures KeysOf(r) == KeysOf(es)
  {
    Utf8Encode(Arr(es), convert).entries
  }

  /** Two values have the same shape: the same kind at every position and,
      for arrays, the same keys in the same order. */
  predicate SameShape(a: Value, b: Value) {
    match a
    case Str(_) => b.Str?
    case Arr(es) =>
      b.Arr? && |es| == |b.entries| &&
      forall i :: 0 <= i < |es| ==> es[i].0 == b.entries[i].0 && SameShape(es[i].1, b.entries[i].1)
    case _ => a == b
  }

  predicate SameShapeEntries(es: Entries, fs: Entries) {
    SameShape(Arr(es), Arr(fs))
  }

  /** The normalisation keeps the shape of the value at every depth. */
  lemma {:induction false} Utf8EncodeKeepsShape(v: Value, convert: string -> string)
    ensures SameShape(v, Utf8Encode(v, convert))
  {
    match v
    case Arr(es) =>
      forall i | 0 <= i < |es| ensures SameShape(es[i].1, Utf8Encode(es[i].1, convert)) {
        Utf8EncodeKeepsShape(es[i].1, convert);
      }
    case _ =>
  }

  lemma Utf8EncodeEntriesKeepsShape(es: Entries, convert: string -> string)
    ensures SameShapeEntries(es, Utf8EncodeEntries(es, convert))
  {
    forall i | 0 <= i < |es| ensures SameShape(es[i].1, Utf8Encode(es[i].1, convert)) {
      Utf8EncodeKeepsShape(es[i].1, convert);
    }
  }

  /** Every string inside the value is a fixed point of `convert`. */
  predicate AllStringsFixed(v: Value, convert: string -> string) {
    match v
    case Str(s) => convert(s) == s
    case Arr(es) => forall i :: 0 <= i < |es| ==> AllStringsFixed(es[i].1, convert)
    case _ => true
  }

  /** A value whose strings are all fixed points of the conversion (for
      `mb_convert_encoding`, text that is already valid UTF-8) comes back
      unchanged. */
  lemma {:induction false} Utf8EncodeFixesConverted(v: Value, convert: string -> string)
    requires AllStringsFixed(v, convert)
    ensures Utf8Encode(v, convert) == v
  {
    match v
    case Arr(es) =>
      forall i | 0 <= i < |es| ensures Utf8Encode(es[i].1, convert) == es[i].1 {
        Utf8EncodeFixesConverted(es[i].1, convert);
      }
      assert Utf8EncodeEntries(es, convert) == es;
    case _ =>
  }

  /** When the conversion is idempotent, every string in the normalised
      value is already a fixed point of it. */
  lemma {:induction false} Utf8EncodeOutputIsFixed(v: Value, convert: string -> string)
    requires forall s :: convert(convert(s)) == convert(s)
    ensures AllStringsFixed(Utf8Encode(v, convert), convert)
  {
    match v
    case Arr(es) =>
      forall i | 0 <= i < |es| ensures AllStringsFixed(Utf8Encode(es[i].1, convert), convert) {
        Utf8EncodeOutputIsFixed(es[i].1, convert);
      }
    case _ =>
  }

  /** Normalising a second time changes nothing, provided the conversion is
      idempotent (as replacing invalid byte sequences is). */
  lemma {:induction false} Utf8EncodeIdempotent(v: Value, convert: string -> string)
    requires forall s :: convert(convert(s)) == convert(s)
    ensures Utf8Encode(Utf8Encode(v, convert), convert) == Utf8Encode(v, convert)
  {
    Utf8EncodeOutputIsFixed(v, convert);
    Utf8EncodeFixesConverted(Utf8Encode(v, convert), convert);
  }

  lemma Utf8EncodeEntriesIdempotent(es: Entries, convert: string -> string)
    requires forall s :: convert(convert(s)) == convert(s)
    ensures Utf8EncodeEntries(Utf8EncodeEntries(es, convert), convert) == Utf8EncodeEntries(es, convert)
  {
    Utf8EncodeIdempotent(Arr(es), convert);
  }
}
