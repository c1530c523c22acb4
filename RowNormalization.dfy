/**
 * The per-row part of `transform`: each spreadsheet row's `hex`, `name` and
 * `range` cells are normalised, and a row with a missing or empty value is
 * skipped.
 */
module RowNormalization {
  import opened Wrappers
  import opened JsStrings

  /** One row as the spreadsheet export delivers it; a cell may be absent. */
  datatype Row = Row(hex: Option<string>, name: Option<string>, range: Option<string>)

  /** One `{name, range}` equivalent. */
  datatype Entry = Entry(name: string, range: string)

  /** A row that survived normalisation: its grouping key and its entry. */
  datatype Item = Item(hex: string, entry: Entry)

  predicate NoUpper(s: string)
  {
    forall k | 0 <= k < |s| :: !IsUpper(s[k])
  }

  /** What every surviving row looks like: a lower-case key and trimmed, non-empty names. */
  predicate Clean(it: Item)
  {
    && it.hex != []
    && NoUpper(it.hex)
    && Trimmed(it.entry.name)
    && Trimmed(it.entry.range)
  }

  /**
   * `hex.replace('#', '').toLowerCase()`: the first `#` anywhere in the cell
   * is removed and ASCII letters are lower-cased. Surrounding whitespace is
   * kept.
   */
  function NormHex(h: string): (k: string)
    ensures NoUpper(k)
    ensures |k| == if '#' in h then |h| - 1 else |h|
    ensures k == [] <==> h == "" || h == "#"
  {
    RemoveFirstCount(h, '#');
    ToLower(RemoveFirst(h, '#'))
  }

  /** `NormHex` is the same as lower-casing first and then removing the first `#`. */
  lemma NormHexLowersFirst(h: string)
    ensures NormHex(h) == RemoveFirst(ToLower(h), '#')
  {
    RemoveFirstHashCommutesWithLower(h);
  }

  /** Cells that differ only in letter case fall into one group. */
  lemma NormHexIgnoresCase(h1: string, h2: string)
    requires ToLower(h1) == ToLower(h2)
    ensures NormHex(h1) == NormHex(h2)
  {
    NormHexLowersFirst(h1);
    NormHexLowersFirst(h2);
  }

  /** A `#` in front of a cell that holds no other `#` makes no difference. */
  lemma NormHexIgnoresLeadingHash(h: string)
    requires '#' !in h
    ensures NormHex("#" + h) == NormHex(h)
  {
    RemoveFirstSplices(h, '#');
    assert ("#" + h)[1..] == h;
  }

  /** JavaScript truthiness of `string | undefined`: present and not the empty string. */
  predicate Truthy(v: Option<string>)
  {
    v.Some? && v.value != ""
  }

  /**
   * The three `const` cell normalisations and
   * `if (!hex || !name || !range) continue;`: normalise the three cells (an
   * absent cell stays absent, as with `?.`) and skip the row when any result
   * is falsy.
   */
  function Normalize(row: Row): Option<Item>
  {
    var hex := if row.hex.Some? then Some(NormHex(row.hex.value)) else None;
    var name := if row.name.Some? then Some(Trim(row.name.value)) else None;
    var range := if row.range.Some? then Some(Trim(row.range.value)) else None;
    if !Truthy(hex) || !Truthy(name) || !Truthy(range) then None
    else Some(Item(hex.value, Entry(name.value, range.value)))
  }

  /**
   * A row survives exactly when all three cells are present, the colour
   * cell is neither empty nor a lone `#`, and name and range each hold a
   * non-whitespace character; it then carries its own normalised cells.
   */
  lemma NormalizeSurvives(row: Row)
    ensures Normalize(row).Some? <==>
      && row.hex.Some? && row.hex.value != "" && row.hex.value != "#"
      && row.name.Some? && !AllWhitespace(row.name.value)
      && row.range.Some? && !AllWhitespace(row.range.value)
    ensures Normalize(row).Some? ==>
      Normalize(row).value == Item(NormHex(row.hex.value), Entry(Trim(row.name.value), Trim(row.range.value)))
  {
  }

  /** A surviving row has a non-empty lower-case key and a trimmed, non-empty name and range. */
  lemma NormalizeClean(row: Row)
    ensures Normalize(row).Some? ==> Clean(Normalize(row).value)
  {
  }

  /** A cell without `#` is only lower-cased. */
  lemma NormHexWithoutHash(h: string)
    requires '#' !in h
    ensures NormHex(h) == ToLower(h)
  {
    RemoveFirstSplices(h, '#');
  }

  /** A cell made of `#` and a `#`-free rest normalises to the lower-cased rest. */
  lemma NormHexOfHashed(h: string)
    requires '#' !in h
    ensures NormHex("#" + h) == ToLower(h)
  {
    NormHexIgnoresLeadingHash(h);
    NormHexWithoutHash(h);
  }

  /** The first colour cell of the worked example loses its `#` and its capitals. */
  lemma NormHexHashedExample()
    ensures NormHex("#ABC123") == "abc123"
  {
    var upper: string := "ABC123";
    assert upper == ['A', 'B', 'C', '1', '2', '3'];
    assert "#ABC123" == "#" + upper;
    NormHexOfHashed(upper);
    var l := ToLower(upper);
    assert l[0] == LowerChar('A') == 'a';
    assert l[1] == LowerChar('B') == 'b';
    assert l[2] == LowerChar('C') == 'c';
    assert l[3] == '1' && l[4] == '2' && l[5] == '3';
  }

  /** A key that is already normal normalises to itself. */
  lemma NormHexKeepsNormal(h: string)
    requires '#' !in h && NoUpper(h)
    ensures NormHex(h) == h
  {
    NormHexWithoutHash(h);
  }

  /** The second colour cell of the worked example is already normal. */
  lemma NormHexPlainExample()
    ensures NormHex("abc123") == "abc123"
  {
    var plain: string := "abc123";
    assert plain == ['a', 'b', 'c', '1', '2', '3'];
    NormHexKeepsNormal(plain);
  }

  /** Whitespace before the `#` is kept: the colour cell is not trimmed. */
  lemma NormHexSpacedExample()
    ensures NormHex(" #FF") == " ff"
  {
    var spaced: string := " #FF";
    RemoveFirstSplices(spaced, '#');
    assert FirstIndexOf(spaced, '#') == 1;
    assert RemoveFirst(spaced, '#') == " FF";
    assert ToLower(" FF") == " ff";
  }

  /** Rows with an empty, `#`-only or absent colour or an all-whitespace name are skipped. */
  lemma SkippedExamples()
    ensures Normalize(Row(Some(""), Some("Ignore"), Some("Set C"))) == None
    ensures Normalize(Row(Some("#"), Some("X"), Some("Y"))) == None
    ensures Normalize(Row(Some("ff"), Some(" \t "), Some("Y"))) == None
    ensures Normalize(Row(None, Some("X"), Some("Y"))) == None
  {
    assert AllWhitespace(" \t ");
  }

  /** A row whose cells are already clean and whose colour normalises to `key`. */
  lemma NormalizeCleanRow(hex: string, key: string, name: string, range: string)
    requires NormHex(hex) == key && key != []
    requires Trimmed(name) && Trimmed(range)
    ensures Normalize(Row(Some(hex), Some(name), Some(range))) == Some(Item(key, Entry(name, range)))
  {
    TrimKeepsTrimmed(name);
    TrimKeepsTrimmed(range);
  }

  /** The first row of the worked example. */
  lemma WorkedExampleFirstRow()
    ensures Normalize(Row(Some("#ABC123"), Some("Red X"), Some("Set A"))) == Some(Item("abc123", Entry("Red X", "Set A")))
  {
    NormHexHashedExample();
    NormalizeCleanRow("#ABC123", "abc123", "Red X", "Set A");
  }

  /** The second row of the worked example. */
  lemma WorkedExampleSecondRow()
    ensures Normalize(Row(Some("abc123"), Some("Red Y"), Some("Set B"))) == Some(Item("abc123", Entry("Red Y", "Set B")))
  {
    NormHexPlainExample();
    NormalizeCleanRow("abc123", "abc123", "Red Y", "Set B");
  }
}
