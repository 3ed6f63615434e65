/**
 * Removal of sensitive columns from a failed row before it is stored
 * (`ImportCsv::filterSensitiveData`): a left fold over the importer's
 * columns that, for each sensitive column whose mapped CSV header is set
 * and present in the row, unsets that header's key.
 */
module SensitiveData {
  import opened PhpValues

  /** The parts of an `ImportColumn` the filter reads. */
  datatype Column = Column(name: string, sensitive: bool)

  /** The job's column map: importer column name to CSV header. */
  type ColumnMap = map<string, string>

  /** The characters PHP's `trim` strips by default: space, tab, line feed,
      carriage return, NUL and vertical tab. */
  const TrimmedChars: set<char> := {' ', '\t', '\n', '\r', '\0', 11 as char}

  /** PHP's `trim` with its default character list: strips those
      characters from both ends. */
  function Trim(s: string): string {
    TrimEnd(TrimStart(s))
  }

  /** `ltrim`: what is left is empty exactly when every character was
      stripped, and otherwise starts with a character that is kept. */
  function TrimStart(s: string): (t: string)
    ensures t == [] <==> forall i :: 0 <= i < |s| ==> s[i] in TrimmedChars
    ensures t != [] ==> t[0] !in TrimmedChars
  {
    if s != [] && s[0] in TrimmedChars then TrimStart(s[1..]) else s
  }

  /** `rtrim`: what is left is empty exactly when every character was
      stripped. */
  function TrimEnd(s: string): (t: string)
    ensures t == [] <==> forall i :: 0 <= i < |s| ==> s[i] in TrimmedChars
  {
    if s != [] && s[|s| - 1] in TrimmedChars then TrimEnd(s[..|s| - 1]) else s
  }

  /** Laravel's `blank()` on a string-or-null: null, or a string that trims
      to the empty string, that is, one made only of trimmed characters. */
  predicate Blank(h: Option<string>): (b: bool)
    ensures b <==> h.None? || forall i :: 0 <= i < |h.value| ==> h.value[i] in TrimmedChars
  {
    h.None? || Trim(h.value) == ""
  }

  /** `$this->columnMap[$column->getName()] ?? null`: the mapped header,
      or null when the column is not mapped. */
  function HeaderOf(column: Column, columnMap: ColumnMap): (h: Option<string>)
    ensures h.None? <==> column.name !in columnMap
    ensures h.Some? ==> columnMap[column.name] == h.value
  {
    if column.name in columnMap then Some(columnMap[column.name]) else None
  }

  /** The pairs of `es` whose key is not in `ks`, in their original order. */
  function Without(es: Entries, ks: set<Key>): (r: Entries)
    ensures |r| <= |es|
  {
    if es == [] then []
    else (if es[0].0 in ks then [] else [es[0]]) + Without(es[1..], ks)
  }

  /** A pair is kept exactly when its key is not one of those removed. */
  lemma {:induction false} WithoutContains(es: Entries, ks: set<Key>, p: (Key, Value))
    ensures p in Without(es, ks) <==> p in es && p.0 !in ks
  {
    if es != [] {
      WithoutContains(es[1..], ks, p);
    }
  }

  /** No removed key is left in the result. */
  lemma {:induction false} WithoutRemovesKey(es: Entries, ks: set<Key>, k: Key)
    requires k in ks
    ensures !KeyExists(Without(es, ks), k)
  {
    if es != [] {
      WithoutRemovesKey(es[1..], ks, k);
    }
  }

  /** One step of the `array_reduce`: the closure applied to one column.
      Its early returns all drop nothing, and the key-exists guard changes
      no result: the step removes exactly the keys the column asks to drop. */
  function RemoveColumn(carry: Entries, column: Column, columnMap: ColumnMap): (r: Entries)
    ensures r == Without(carry, ColumnKeys(column, columnMap))
  {
    if !column.sensitive then
      WithoutNothing(carry);
      carry
    else
      var header := HeaderOf(column, columnMap);
      if Blank(header) then
        WithoutNothing(carry);
        carry
      else if !KeyExists(carry, StrKey(header.value)) then
        WithoutAbsent(carry, StrKey(header.value));
        carry
      else Without(carry, {StrKey(header.value)})
  }

  /** `array_reduce($columns, $closure, initial: $data)`: the row without
      exactly the sensitive headers, the other pairs unchanged and in their
      original order. */
  function FilterSensitiveData(columns: seq<Column>, columnMap: ColumnMap, data: Entries): (r: Entries)
    ensures r == Without(data, SensitiveKeys(columns, columnMap))
  {
    if columns == [] then
      WithoutNothing(data);
      assert SensitiveKeys(columns, columnMap) == {};
      data
    else
      var step := RemoveColumn(data, columns[0], columnMap);
      WithoutTwice(data, ColumnKeys(columns[0], columnMap), SensitiveKeys(columns[1..], columnMap));
      SensitiveKeysCons(columns, columnMap);
      FilterSensitiveData(columns[1..], columnMap, step)
  }

  /** The keys one column asks to drop: its header, when the column is
      sensitive and the header is mapped and not blank. */
  function ColumnKeys(column: Column, columnMap: ColumnMap): (ks: set<Key>)
    ensures |ks| <= 1
  {
    var header := HeaderOf(column, columnMap);
    if column.sensitive && !Blank(header) then {StrKey(header.value)} else {}
  }

  /** Every key the filter is meant to drop. */
  function SensitiveKeys(columns: seq<Column>, columnMap: ColumnMap): set<Key> {
    set c | c in columns && c.sensitive && !Blank(HeaderOf(c, columnMap)) :: StrKey(HeaderOf(c, columnMap).value)
  }

  lemma {:induction false} WithoutAbsent(es: Entries, k: Key)
    requires !KeyExists(es, k)
    ensures Without(es, {k}) == es
  {
    if es != [] {
      WithoutAbsent(es[1..], k);
    }
  }

  lemma {:induction false} WithoutTwice(es: Entries, a: set<Key>, b: set<Key>)
    ensures Without(Without(es, a), b) == Without(es, a + b)
  {
    if es != [] {
      WithoutTwice(es[1..], a, b);
      var t := Without(es[1..], a);
      if es[0].0 !in a {
        var s := [es[0]] + t;
        assert Without(es, a) == s;
        assert s[0] == es[0] && s[1..] == t;
        assert Without(s, b) == (if es[0].0 in b then [] else [es[0]]) + Without(t, b);
      } else {
        assert Without(es, a) == [] + t;
        assert [] + t == t;
      }
    }
  }

  lemma {:induction false} WithoutNothing(es: Entries)
    ensures Without(es, {}) == es
  {
    if es != [] {
      WithoutNothing(es[1..]);
    }
  }

  lemma SensitiveKeysCons(columns: seq<Column>, columnMap: ColumnMap)
    requires columns != []
    ensures SensitiveKeys(columns, columnMap)
         == ColumnKeys(columns[0], columnMap) + SensitiveKeys(columns[1..], columnMap)
  {
  }

  /** A pair survives the filter exactly when it was in the row and its key
      is not the header of a sensitive column; no key is added. */
  lemma FilterSensitiveDataKeeps(columns: seq<Column>, columnMap: ColumnMap, data: Entries, p: (Key, Value))
    ensures p in FilterSensitiveData(columns, columnMap, data)
        <==> p in data && p.0 !in SensitiveKeys(columns, columnMap)
  {
    WithoutContains(data, SensitiveKeys(columns, columnMap), p);
  }

  /** No sensitive header is left as a key of the filtered row. */
  lemma FilterSensitiveDataRemoves(columns: seq<Column>, columnMap: ColumnMap, data: Entries, c: Column)
    requires c in columns && c.sensitive && !Blank(HeaderOf(c, columnMap))
    ensures !KeyExists(FilterSensitiveData(columns, columnMap, data), StrKey(HeaderOf(c, columnMap).value))
  {
    WithoutRemovesKey(data, SensitiveKeys(columns, columnMap), StrKey(HeaderOf(c, columnMap).value));
  }

  /** The filter leaves the row as it is exactly when no key of the row is
      a sensitive header (in particular when no column is sensitive, or every
      sensitive column's header is unmapped or blank). */
  lemma FilterSensitiveDataUnchanged(columns: seq<Column>, columnMap: ColumnMap, data: Entries)
    ensures FilterSensitiveData(columns, columnMap, data) == data
        <==> forall i :: 0 <= i < |data| ==> data[i].0 !in SensitiveKeys(columns, columnMap)
  {
    var ks := SensitiveKeys(columns, columnMap);
    if forall i :: 0 <= i < |data| ==> data[i].0 !in ks {
      WithoutNoneMatch(data, ks);
    }
    if Without(data, ks) == data {
      forall i | 0 <= i < |data| ensures data[i].0 !in ks {
        WithoutContains(data, ks, data[i]);
      }
    }
  }

  lemma {:induction false} WithoutNoneMatch(es: Entries, ks: set<Key>)
    requires forall i :: 0 <= i < |es| ==> es[i].0 !in ks
    ensures Without(es, ks) == es
  {
    if es != [] {
      WithoutNoneMatch(es[1..], ks);
    }
  }

  /** Filtering a second time removes nothing more. */
  lemma FilterSensitiveDataIdempotent(columns: seq<Column>, columnMap: ColumnMap, data: Entries)
    ensures FilterSensitiveData(columns, columnMap, FilterSensitiveData(columns, columnMap, data))
         == FilterSensitiveData(columns, columnMap, data)
  {
    var ks := SensitiveKeys(columns, columnMap);
    WithoutTwice(data, ks, ks);
    assert ks + ks == ks;
  }

  /** The order of the importer's columns does not matter. */
  lemma FilterSensitiveDataOrderIrrelevant(c1: seq<Column>, c2: seq<Column>, columnMap: ColumnMap, data: Entries)
    requires forall c :: c in c1 <==> c in c2
    ensures FilterSensitiveData(c1, columnMap, data) == FilterSensitiveData(c2, columnMap, data)
  {
    assert SensitiveKeys(c1, columnMap) == SensitiveKeys(c2, columnMap);
  }
}
