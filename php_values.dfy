/**
 * PHP values as the import job sees them once a row has been decoded.
 *
 * A PHP array is an ordered dictionary whose keys are integers or strings;
 * it is modelled as the sequence of its key/value pairs, in iteration order.
 * Floats, objects and resources carry no structure the job looks at and are
 * folded into `Opaque`, distinguished only by an identity.
 */
module PhpValues {

  datatype Option<+T> = None | Some(value: T)

  datatype Key = IntKey(i: int) | StrKey(s: string)

  datatype Value =
    | Null
    | Bool(b: bool)
    | Int(i: int)
    | Opaque(id: nat)
    | Str(s: string)
    | Arr(entries: seq<(Key, Value)>)

  /** The contents of a PHP array, in iteration order. */
  type Entries = seq<(Key, Value)>

  /** The keys of an array, in iteration order (`array_keys`). */
  function KeysOf(es: Entries): (ks: seq<Key>)
    ensures |ks| == |es|
    ensures forall i :: 0 <= i < |es| ==> ks[i] == es[i].0
  {
    if es == [] then [] else [es[0].0] + KeysOf(es[1..])
  }

  /** `array_key_exists($k, $es)` */
  predicate KeyExists(es: Entries, k: Key) {
    exists i :: 0 <= i < |es| && es[i].0 == k
  }
}
