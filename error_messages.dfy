/**
 * How a validation failure becomes the one-line reason stored with a failed
 * row: `collect($exception->errors())->flatten()->implode(' ')`. The errors
 * of a validation exception are a dictionary from field name to the list of
 * messages for that field.
 */
module ErrorMessages {

  /** `ValidationException::errors()`: field name and its messages, in order. */
  type ValidationErrors = seq<(string, seq<string>)>

  /** `flatten()`: every message of every field, fields in order. */
  function Flatten(errors: ValidationErrors): (ms: seq<string>)
    ensures ms == [] <==> forall i :: 0 <= i < |errors| ==> errors[i].1 == []
  {
    if errors == [] then [] else errors[0].1 + Flatten(errors[1..])
  }

  /** A message is in the flattened list exactly when some field carries it. */
  lemma {:induction false} FlattenContains(errors: ValidationErrors, m: string)
    ensures m in Flatten(errors) <==> exists i :: 0 <= i < |errors| && m in errors[i].1
  {
    if errors != [] {
      FlattenContains(errors[1..], m);
      if m in Flatten(errors[1..]) {
        var i :| 0 <= i < |errors[1..]| && m in errors[1..][i].1;
        assert m in errors[i + 1].1;
      }
      if exists i :: 0 <= i < |errors| && m in errors[i].1 {
        var i :| 0 <= i < |errors| && m in errors[i].1;
        if i > 0 { assert m in errors[1..][i - 1].1; }
      }
    }
  }

  /** Flattening distributes over concatenation of the field list. */
  lemma {:induction false} FlattenAppend(a: ValidationErrors, b: ValidationErrors)
    ensures Flatten(a + b) == Flatten(a) + Flatten(b)
  {
    if a != [] {
      assert (a + b)[1..] == a[1..] + b;
      FlattenAppend(a[1..], b);
    } else {
      assert a + b == b;
    }
  }

  /** `implode($sep, $ms)`: as long as all messages together plus one
      separator between each two, and a single message joins to itself. */
  function Join(ms: seq<string>, sep: char): (s: string)
    ensures |ms| >= 1 ==> |s| == TotalLength(ms) + |ms| - 1
    ensures |ms| == 1 ==> s == ms[0]
  {
    if ms == [] then ""
    else if |ms| == 1 then ms[0]
    else ms[0] + [sep] + Join(ms[1..], sep)
  }

  function TotalLength(ms: seq<string>): nat {
    if ms == [] then 0 else |ms[0]| + TotalLength(ms[1..])
  }

  /** Where the `k`-th message starts in the joined text: after every
      earlier message and the separator that follows it. */
  function Offset(ms: seq<string>, k: nat): nat
    requires k <= |ms|
  {
    if k == 0 then 0 else |ms[0]| + 1 + Offset(ms[1..], k - 1)
  }

  /** `s` is the messages `ms` written one after the other with `sep`
      between each two: every message sits whole at its offset, the
      separator follows every message but the last, and the length leaves
      room for nothing more. */
  predicate SeparatedBy(s: string, ms: seq<string>, sep: char) {
    |s| == TotalLength(ms) + |ms| - 1 &&
    (forall k :: 0 <= k < |ms| ==>
      Offset(ms, k) + |ms[k]| <= |s| && s[Offset(ms, k)..Offset(ms, k) + |ms[k]|] == ms[k]) &&
    (forall k :: 0 <= k < |ms| - 1 ==>
      Offset(ms, k) + |ms[k]| < |s| && s[Offset(ms, k) + |ms[k]|] == sep)
  }

  /** Every message appears whole at its offset in the joined text and,
      unless it is the last, is followed by the separator. Nothing is
      required of the messages: they may contain the separator. */
  lemma {:induction false} JoinAt(ms: seq<string>, sep: char, k: nat)
    requires k < |ms|
    ensures Offset(ms, k) + |ms[k]| <= |Join(ms, sep)|
    ensures Join(ms, sep)[Offset(ms, k)..Offset(ms, k) + |ms[k]|] == ms[k]
    ensures k < |ms| - 1 ==> Offset(ms, k) + |ms[k]| < |Join(ms, sep)|
    ensures k < |ms| - 1 ==> Join(ms, sep)[Offset(ms, k) + |ms[k]|] == sep
  {
    if |ms| > 1 {
      var head := ms[0] + [sep];
      var rest := Join(ms[1..], sep);
      assert Join(ms, sep) == head + rest;
      if k > 0 {
        JoinAt(ms[1..], sep, k - 1);
        var o := Offset(ms[1..], k - 1);
        assert ms[1..][k - 1] == ms[k];
        assert (head + rest)[|head| + o..|head| + o + |ms[k]|] == rest[o..o + |ms[k]|];
        if k < |ms| - 1 {
          assert (head + rest)[|head| + o + |ms[k]|] == rest[o + |ms[k]|];
        }
      }
    }
  }

  /** `explode($sep, $s)`: the inverse against which `Join` is checked. */
  function Split(s: string, sep: char): (parts: seq<string>)
    ensures |parts| >= 1
    ensures forall i :: 0 <= i < |parts| ==> sep !in parts[i]
    decreases |s|
  {
    var k := IndexOf(s, sep);
    if k == |s| then [s] else [s[..k]] + Split(s[k + 1..], sep)
  }

  /** Position of the first `c` in `s`, or `|s|` when there is none. */
  function IndexOf(s: string, c: char): (k: nat)
    ensures k <= |s|
    ensures c !in s[..k]
    ensures k < |s| ==> s[k] == c
  {
    if s == [] then 0
    else if s[0] == c then 0
    else
      var k := 1 + IndexOf(s[1..], c);
      assert s[..k] == [s[0]] + s[1..][..k - 1];
      k
  }

  lemma IndexOfAfter(a: string, c: char, b: string)
    requires c !in a
    ensures IndexOf(a + [c] + b, c) == |a|
  {
    var s := a + [c] + b;
    assert s[|a|] == c;
    assert forall j :: 0 <= j < |a| ==> s[j] == a[j];
  }

  lemma SplitNoSeparator(a: string, sep: char)
    requires sep !in a
    ensures Split(a, sep) == [a]
  {
  }

  lemma SplitAtFirst(a: string, sep: char, b: string)
    requires sep !in a
    ensures Split(a + [sep] + b, sep) == [a] + Split(b, sep)
  {
    var s := a + [sep] + b;
    IndexOfAfter(a, sep, b);
    assert s[..|a|] == a;
    assert s[|a| + 1..] == b;
  }

  /** Joining puts the messages one after the other with the separator
      between each two and nothing else, whatever the messages contain. */
  lemma JoinSeparated(ms: seq<string>, sep: char)
    requires ms != []
    ensures SeparatedBy(Join(ms, sep), ms, sep)
  {
    var s := Join(ms, sep);
    forall k | 0 <= k < |ms|
      ensures Offset(ms, k) + |ms[k]| <= |s|
      ensures s[Offset(ms, k)..Offset(ms, k) + |ms[k]|] == ms[k]
    {
      JoinAt(ms, sep, k);
    }
    forall k | 0 <= k < |ms| - 1
      ensures Offset(ms, k) + |ms[k]| < |s| && s[Offset(ms, k) + |ms[k]|] == sep
    {
      JoinAt(ms, sep, k);
    }
  }

  /** Joining messages that do not contain the separator loses nothing:
      splitting the joined text gives back the messages. */
  lemma {:induction false} SplitJoin(ms: seq<string>, sep: char)
    requires |ms| >= 1
    requires forall i :: 0 <= i < |ms| ==> sep !in ms[i]
    ensures Split(Join(ms, sep), sep) == ms
    decreases |ms|
  {
    if |ms| == 1 {
      SplitNoSeparator(ms[0], sep);
    } else {
      SplitAtFirst(ms[0], sep, Join(ms[1..], sep));
      SplitJoin(ms[1..], sep);
      assert [ms[0]] + ms[1..] == ms;
    }
  }
}
