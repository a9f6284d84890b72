/**
  The fixed four-column record, its column index enumeration, the column name
  registry and the per-column match predicate.
*/
module Records {
  import opened Wrappers
  import opened Decimal

  /** `unsigned int`, the key type of a record (`KeyType`). */
  type UInt = x: int | 0 <= x < 0x1_0000_0000
  type KeyType = UInt

  /** `long`, which is 32 bits wide on the compiler the code is built with. */
  type Long = x: int | -0x8000_0000 <= x < 0x8000_0000

  /** `int` as a parameter type. */
  type Int32 = x: int | -0x8000_0000 <= x < 0x8000_0000

  /** The `ColumnIndex` enumeration, whose enumerators count up from `Invalid`. */
  type ColumnIndex = int

  const Invalid: ColumnIndex := -1
  const Column0: ColumnIndex := Invalid + 1
  const Column1: ColumnIndex := Column0 + 1
  const Column2: ColumnIndex := Column1 + 1
  const Column3: ColumnIndex := Column2 + 1
  const First: ColumnIndex := Column0
  const Last: ColumnIndex := Column3
  const ColumnsCount: ColumnIndex := Last + 1

  /** A record: unique unsigned id, text, signed number, text. */
  datatype QbRecord = QbRecord(column0: KeyType, column1: string, column2: Long, column3: string)

  /** The enumeration's layout. */
  lemma ColumnIndexLayout()
    ensures Column0 == 0 && Column1 == 1 && Column2 == 2 && Column3 == 3
    ensures First == Column0 && Last == Column3
    ensures Invalid == -1 && !(First <= Invalid <= Last)
    ensures ColumnsCount == Last + 1 == 4
  {
  }

  /**
    `isColumnIndexValid`: the valid indices are exactly the four columns;
    `Invalid` and `ColumnsCount` are not among them.
  */
  function IsColumnIndexValid(c: ColumnIndex): (b: bool)
    ensures b <==> c == Column0 || c == Column1 || c == Column2 || c == Column3
    ensures c == Invalid || c == ColumnsCount ==> !b
  {
    First <= c <= Last
  }

  /** `needle` occurs in `hay` starting at position j. */
  predicate OccursAt(needle: string, hay: string, j: int) {
    0 <= j && j + |needle| <= |hay| && hay[j..j + |needle|] == needle
  }

  /** `hay.find(needle, from)`: the first occurrence at or after `from`, `None` for `npos`. */
  function FindFrom(hay: string, needle: string, from: nat): (r: Option<nat>)
    ensures r.Some? ==> from <= r.value && OccursAt(needle, hay, r.value)
    ensures needle == [] && from <= |hay| ==> r == Some(from)
    decreases |hay| - from
  {
    if from + |needle| > |hay| then None
    else if hay[from..from + |needle|] == needle then Some(from)
    else FindFrom(hay, needle, from + 1)
  }

  /** `find` returns the first occurrence at or after `from`, and `npos` only when there is none. */
  lemma {:induction false} FindFromFirstOccurrence(hay: string, needle: string, from: nat)
    ensures var r := FindFrom(hay, needle, from);
      && (r.Some? ==> from <= r.value && OccursAt(needle, hay, r.value))
      && (r.Some? ==> forall j :: from <= j < r.value ==> !OccursAt(needle, hay, j))
      && (r.None? ==> forall j :: from <= j ==> !OccursAt(needle, hay, j))
    decreases |hay| - from
  {
    if from + |needle| <= |hay| && hay[from..from + |needle|] != needle {
      FindFromFirstOccurrence(hay, needle, from + 1);
    }
  }

  /** `hay.find(needle)`: a position where the needle occurs; the empty needle is found at 0. */
  function Find(hay: string, needle: string): (r: Option<nat>)
    ensures r.Some? ==> OccursAt(needle, hay, r.value)
    ensures needle == [] ==> r == Some(0)
  {
    FindFrom(hay, needle, 0)
  }

  /** `columnContentMatches`: does the column of `r` selected by `c` match `expected`? */
  function ColumnContentMatches(r: QbRecord, c: ColumnIndex, expected: string): (b: bool)
    ensures !IsColumnIndexValid(c) ==> !b
    ensures (c == Column1 || c == Column3) && expected == [] ==> b
    ensures b && c == Column1 ==> |expected| <= |r.column1|
    ensures b && c == Column3 ==> |expected| <= |r.column3|
    ensures b && (c == Column0 || c == Column2) ==> expected != []
  {
    if c == Column0 then
      match ParseUnsigned(expected)
      case Some(v) => v == r.column0
      case None => false
    else if c == Column2 then
      match ParseSigned(expected)
      case Some(v) => v == r.column2
      case None => false
    else if c == Column1 || c == Column3 then
      Find(if c == Column1 then r.column1 else r.column3, expected).Some?
    else
      false
  }

  /** The text columns match exactly when the expected text is a contiguous substring. */
  lemma TextColumnMatchesIffSubstring(r: QbRecord, expected: string)
    ensures ColumnContentMatches(r, Column1, expected) <==> exists j :: OccursAt(expected, r.column1, j)
    ensures ColumnContentMatches(r, Column3, expected) <==> exists j :: OccursAt(expected, r.column3, j)
  {
    FindFromFirstOccurrence(r.column1, expected, 0);
    FindFromFirstOccurrence(r.column3, expected, 0);
  }

  /** The empty text matches every record on both text columns: a named corollary of `ColumnContentMatches`' contract. */
  lemma EmptyTextMatchesTextColumns(r: QbRecord)
    ensures ColumnContentMatches(r, Column1, "") && ColumnContentMatches(r, Column3, "")
  {
    assert OccursAt("", r.column1, 0);
    assert OccursAt("", r.column3, 0);
    TextColumnMatchesIffSubstring(r, "");
  }

  /** The id column matches exactly the texts that parse to the id; its decimal form is one. */
  lemma IdColumnMatches(r: QbRecord, expected: string)
    ensures ColumnContentMatches(r, Column0, expected) <==> ParseUnsigned(expected) == Some(r.column0 as nat)
    ensures ColumnContentMatches(r, Column0, NatToString(r.column0))
  {
    ParseUnsignedRoundTrip(r.column0, []);
    assert NatToString(r.column0) + [] == NatToString(r.column0);
  }

  /** The id column matches the decimal form of k exactly when k is the id. */
  lemma IdColumnMatchesDecimal(r: QbRecord, k: nat)
    ensures ColumnContentMatches(r, Column0, NatToString(k)) <==> r.column0 == k
  {
    ParseUnsignedRoundTrip(k, []);
    assert NatToString(k) + [] == NatToString(k);
  }

  /** The signed column matches exactly the texts that parse to its value; its decimal form is one. */
  lemma SignedColumnMatches(r: QbRecord, expected: string)
    ensures ColumnContentMatches(r, Column2, expected) <==> ParseSigned(expected) == Some(r.column2 as int)
    ensures ColumnContentMatches(r, Column2, IntToString(r.column2))
  {
    ParseSignedRoundTrip(r.column2, []);
    assert IntToString(r.column2) + [] == IntToString(r.column2);
  }

  /**
    A failed parse is no match, never an error: text that is empty, or starts
    with neither a sign nor a digit, matches neither numeric column. This
    covers whitespace-led text too, where the model differs from `stoul` and
    `stol`, which skip leading whitespace.
  */
  lemma NonNumericTextNeverMatchesNumericColumns(r: QbRecord, expected: string)
    requires expected == [] || (!IsDigit(expected[0]) && expected[0] != '+' && expected[0] != '-')
    ensures !ColumnContentMatches(r, Column0, expected) && !ColumnContentMatches(r, Column2, expected)
  {
    ParseRejectsNonNumeric(expected);
  }

  /** `Invalid`, or any index outside the four columns, never matches: a named corollary of `ColumnContentMatches`' contract. */
  lemma InvalidColumnNeverMatches(r: QbRecord, c: ColumnIndex, expected: string)
    requires !IsColumnIndexValid(c)
    ensures !ColumnContentMatches(r, c, expected)
  {
  }

  /**
    `columnName`: "column" and the decimal index for a valid index, empty
    otherwise. A valid column's name is "column" and its one digit.
  */
  function ColumnName(c: ColumnIndex): (name: string)
    ensures IsColumnIndexValid(c) ==> name == "column" + [DigitChar(c)]
    ensures !IsColumnIndexValid(c) ==> name == ""
  {
    if IsColumnIndexValid(c) then "column" + IntToString(c) else ""
  }

  lemma ColumnNameInjective(c: ColumnIndex, d: ColumnIndex)
    requires IsColumnIndexValid(c) && IsColumnIndexValid(d)
    requires ColumnName(c) == ColumnName(d)
    ensures c == d
  {
    assert ColumnName(c)[6] == ColumnName(d)[6];
  }

  lemma ColumnNamesDistinct()
    ensures forall c, d :: IsColumnIndexValid(c) && IsColumnIndexValid(d) && ColumnName(c) == ColumnName(d) ==> c == d
  {
    forall c, d | IsColumnIndexValid(c) && IsColumnIndexValid(d) && ColumnName(c) == ColumnName(d)
      ensures c == d
    {
      ColumnNameInjective(c, d);
    }
  }

  /** The value of the static `s_columnIndexByNameProvider` table. */
  function ColumnIndexByName(): (m: map<string, ColumnIndex>)
    ensures forall c :: IsColumnIndexValid(c) ==> ColumnName(c) in m && m[ColumnName(c)] == c
    ensures forall name :: name in m ==> IsColumnIndexValid(m[name]) && ColumnName(m[name]) == name
  {
    ColumnNamesDistinct();
    map c | First <= c <= Last :: ColumnName(c) := c
  }

  /** `createColumnIndexByNameProvider`: inserts each valid column's name, First to Last. */
  method CreateColumnIndexByNameProvider() returns (m: map<string, ColumnIndex>)
    ensures m == ColumnIndexByName()
    ensures forall c :: IsColumnIndexValid(c) ==> ColumnName(c) in m && m[ColumnName(c)] == c
    ensures forall name :: name in m ==> IsColumnIndexValid(m[name]) && ColumnName(m[name]) == name
  {
    m := map[];
    var raw := First;
    while raw <= Last
      invariant First <= raw <= Last + 1
      invariant forall c :: First <= c < raw ==> ColumnName(c) in m && m[ColumnName(c)] == c
      invariant forall name :: name in m ==> First <= m[name] < raw && ColumnName(m[name]) == name
    {
      forall c | First <= c < raw
        ensures ColumnName(c) != ColumnName(raw)
      {
        if ColumnName(c) == ColumnName(raw) {
          ColumnNameInjective(c, raw);
        }
      }
      m := m[ColumnName(raw) := raw];
      raw := raw + 1;
    }
    assert m.Keys == ColumnIndexByName().Keys;
  }

  /** `columnIndex`: the table entry for the name, `Invalid` for an unknown name. */
  function ColumnIndexOf(name: string): (c: ColumnIndex)
    ensures IsColumnIndexValid(c) ==> ColumnName(c) == name
    ensures !IsColumnIndexValid(c) ==> c == Invalid
  {
    var table := ColumnIndexByName();
    if name in table then table[name] else Invalid
  }

  /** Resolving a valid column's name gives that column back. */
  lemma ColumnIndexOfColumnName(c: ColumnIndex)
    requires IsColumnIndexValid(c)
    ensures ColumnIndexOf(ColumnName(c)) == c
  {
  }

  /**
    A name resolves to a valid column exactly when it is that column's name;
    every other name, a different-case one included, resolves to `Invalid`.
  */
  lemma ColumnIndexOfResolvesOnlyNames(name: string)
    ensures IsColumnIndexValid(ColumnIndexOf(name)) <==> name in {"column0", "column1", "column2", "column3"}
    ensures IsColumnIndexValid(ColumnIndexOf(name)) ==> ColumnName(ColumnIndexOf(name)) == name
    ensures !IsColumnIndexValid(ColumnIndexOf(name)) ==> ColumnIndexOf(name) == Invalid
  {
    assert ColumnName(0) == "column0";
    assert ColumnName(1) == "column1";
    assert ColumnName(2) == "column2";
    assert ColumnName(3) == "column3";
  }
}
