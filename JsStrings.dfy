/**
 * The three ECMAScript string operations the transform relies on:
 * `String.prototype.trim`, `String.prototype.toLowerCase` (on ASCII letters)
 * and `String.prototype.replace` with a one-character string pattern.
 */
module JsStrings {

  /** The WhiteSpace and LineTerminator code points that `trim` strips. */
  predicate IsWhitespace(c: char)
  {
    || c == '\t' || c == '\n' || c == '\U{000B}' || c == '\U{000C}' || c == '\r'
    || c == ' ' || c == '\U{00A0}' || c == '\U{1680}'
    || ('\U{2000}' <= c <= '\U{200A}')
    || c == '\U{2028}' || c == '\U{2029}' || c == '\U{202F}' || c == '\U{205F}'
    || c == '\U{3000}' || c == '\U{FEFF}'
  }

  predicate AllWhitespace(s: string)
  {
    forall k | 0 <= k < |s| :: IsWhitespace(s[k])
  }

  /** Non-empty, with no whitespace at either end: what a non-empty `trim` result looks like. */
  predicate Trimmed(s: string)
  {
    s != [] && !IsWhitespace(s[0]) && !IsWhitespace(s[|s| - 1])
  }

  /** Drops the leading whitespace: the result is a suffix of `s`. */
  function TrimStart(s: string): (r: string)
    ensures |r| <= |s| && r == s[|s| - |r|..]
    ensures forall k | 0 <= k < |s| - |r| :: IsWhitespace(s[k])
    ensures r == [] || !IsWhitespace(r[0])
  {
    if s != [] && IsWhitespace(s[0]) then TrimStart(s[1..]) else s
  }

  /** Drops the trailing whitespace: the result is a prefix of `s`. */
  function TrimEnd(s: string): (r: string)
    ensures |r| <= |s| && r == s[..|r|]
    ensures forall k | |r| <= k < |s| :: IsWhitespace(s[k])
    ensures r == [] || !IsWhitespace(r[|r| - 1])
  {
    if s != [] && IsWhitespace(s[|s| - 1]) then TrimEnd(s[..|s| - 1]) else s
  }

  /** `s.trim()`. */
  function Trim(s: string): (r: string)
    ensures r == [] || Trimmed(r)
    ensures r == [] <==> AllWhitespace(s)
  {
    TrimEnd(TrimStart(s))
  }

  /** `r` stands at offset `i` of `s` with nothing but whitespace around it. */
  predicate SliceBetweenWhitespace(s: string, i: nat, r: string)
  {
    && i + |r| <= |s|
    && r == s[i..i + |r|]
    && (forall k | 0 <= k < i :: IsWhitespace(s[k]))
    && (forall k | i + |r| <= k < |s| :: IsWhitespace(s[k]))
  }

  /**
   * `Trim(s)` is the slice of `s` left once the whitespace before it and
   * the whitespace after it are taken away.
   */
  lemma TrimIsSlice(s: string)
    ensures exists i: nat :: SliceBetweenWhitespace(s, i, Trim(s))
  {
    var t := TrimStart(s);
    var i: nat := |s| - |t|;
    var r := TrimEnd(t);
    assert r == Trim(s);
    assert r == t[..|r|] && t == s[i..];
    assert r == s[i..i + |r|];
    assert forall k | 0 <= k < i :: IsWhitespace(s[k]);
    WhitespaceAfterSuffix(s, i, |r|);
    assert SliceBetweenWhitespace(s, i, r);
  }

  lemma WhitespaceAfterSuffix(s: string, i: nat, n: nat)
    requires i + n <= |s|
    requires forall k | n <= k < |s[i..]| :: IsWhitespace(s[i..][k])
    ensures forall k | i + n <= k < |s| :: IsWhitespace(s[k])
  {
    forall k | i + n <= k < |s| ensures IsWhitespace(s[k]) {
      assert s[k] == s[i..][k - i];
    }
  }

  /** A string with no whitespace at either end is left alone. */
  lemma TrimKeepsTrimmed(s: string)
    requires Trimmed(s)
    ensures Trim(s) == s
  {
    assert TrimStart(s) == s;
    assert TrimEnd(s) == s;
  }

  /** Trimming twice is trimming once. */
  lemma TrimIdempotent(s: string)
    ensures Trim(Trim(s)) == Trim(s)
  {
    if Trim(s) != [] {
      TrimKeepsTrimmed(Trim(s));
    }
  }

  predicate IsUpper(c: char)
  {
    'A' <= c <= 'Z'
  }

  function LowerChar(c: char): (d: char)
    ensures !IsUpper(d)
    ensures d == '#' <==> c == '#'
  {
    if IsUpper(c) then (c as int + 32) as char else c
  }

  /** `s.toLowerCase()` over the ASCII letters; every other character is kept. */
  function ToLower(s: string): (r: string)
    ensures |r| == |s|
    ensures forall k | 0 <= k < |r| :: !IsUpper(r[k])
    ensures forall k | 0 <= k < |s| && !IsUpper(s[k]) :: r[k] == s[k]
    ensures forall k | 0 <= k < |s| && IsUpper(s[k]) :: r[k] as int == s[k] as int + 32
  {
    seq(|s|, k requires 0 <= k < |s| => LowerChar(s[k]))
  }

  /** The position of the first `c` in `s`. */
  function FirstIndexOf(s: string, c: char): (i: nat)
    requires c in s
    ensures i < |s| && s[i] == c
    ensures forall k | 0 <= k < i :: s[k] != c
  {
    if s[0] == c then 0 else 1 + FirstIndexOf(s[1..], c)
  }

  /**
   * `s.replace(c, '')` with a one-character string pattern: the first `c`,
   * wherever it stands, is removed; a string without `c` is unchanged.
   */
  function RemoveFirst(s: string, c: char): (r: string)
    ensures |r| <= |s|
  {
    if s == [] then []
    else if s[0] == c then s[1..]
    else [s[0]] + RemoveFirst(s[1..], c)
  }

  /** `RemoveFirst` splices out exactly the character at the first index of `c`. */
  lemma {:induction false} RemoveFirstSplices(s: string, c: char)
    ensures c !in s ==> RemoveFirst(s, c) == s
    ensures c in s ==> RemoveFirst(s, c) == s[..FirstIndexOf(s, c)] + s[FirstIndexOf(s, c) + 1..]
  {
    if s != [] && s[0] != c {
      var tail := s[1..];
      RemoveFirstSplices(tail, c);
      if c in s {
        assert c in tail;
        var j := FirstIndexOf(tail, c);
        assert FirstIndexOf(s, c) == j + 1;
        assert [s[0]] + tail[..j] == s[..j + 1];
        assert tail[j + 1..] == s[j + 2..];
      } else {
        assert s == [s[0]] + tail;
      }
    }
  }

  /** Exactly one `c` goes, when there is one, and nothing else. */
  lemma RemoveFirstCount(s: string, c: char)
    ensures multiset(RemoveFirst(s, c)) == multiset(s) - multiset{c}
    ensures |RemoveFirst(s, c)| == if c in s then |s| - 1 else |s|
  {
    RemoveFirstSplices(s, c);
    if c in s {
      var i := FirstIndexOf(s, c);
      var before, after := s[..i], s[i + 1..];
      MultisetSplice(s, i);
      assert RemoveFirst(s, c) == before + after;
    }
  }

  lemma MultisetSplice(s: string, i: int)
    requires 0 <= i < |s|
    ensures multiset(s[..i] + s[i + 1..]) == multiset(s) - multiset{s[i]}
  {
    assert s == s[..i] + [s[i]] + s[i + 1..];
  }

  /** Lower-casing keeps every `#` where it stands. */
  lemma ToLowerKeepsFirstHash(s: string)
    ensures '#' in ToLower(s) <==> '#' in s
    ensures '#' in s ==> FirstIndexOf(ToLower(s), '#') == FirstIndexOf(s, '#')
  {
    var l := ToLower(s);
    assert forall k | 0 <= k < |s| :: l[k] == '#' <==> s[k] == '#' by {
      forall k | 0 <= k < |s| ensures l[k] == '#' <==> s[k] == '#' {
        assert l[k] == LowerChar(s[k]);
      }
    }
    if '#' in s {
      var i := FirstIndexOf(s, '#');
      assert l[i] == '#';
    } else {
      assert forall k | 0 <= k < |l| :: l[k] != '#';
    }
  }

  /** Lower-casing commutes with cutting out one position. */
  lemma ToLowerSplice(s: string, i: int)
    requires 0 <= i < |s|
    ensures ToLower(s)[..i] + ToLower(s)[i + 1..] == ToLower(s[..i] + s[i + 1..])
  {
    var l := ToLower(s);
    var a := l[..i] + l[i + 1..];
    var b := ToLower(s[..i] + s[i + 1..]);
    assert |a| == |b|;
    forall k | 0 <= k < |a| ensures a[k] == b[k] {
      if k < i {
        assert a[k] == l[k] == LowerChar(s[k]);
      } else {
        assert a[k] == l[k + 1] == LowerChar(s[k + 1]);
      }
    }
  }

  /** Removing the first `#` and lower-casing can be done in either order. */
  lemma RemoveFirstHashCommutesWithLower(s: string)
    ensures RemoveFirst(ToLower(s), '#') == ToLower(RemoveFirst(s, '#'))
  {
    RemoveFirstSplices(s, '#');
    RemoveFirstSplices(ToLower(s), '#');
    ToLowerKeepsFirstHash(s);
    if '#' in s {
      ToLowerSplice(s, FirstIndexOf(s, '#'));
    }
  }
}
