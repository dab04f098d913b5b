/**
 * The string handling the query layer relies on: Python's `str.split`,
 * `int(...)` on one piece of a query string, `str(...)` of an integer (the
 * rendering `int` must read back), ASCII lower-casing for `icontains`, and
 * the code-point order used to sort titles.
 */
module Text {
  import opened Wrappers

  // ---------------------------------------------------------------------
  // Characters
  // ---------------------------------------------------------------------

  /**
   * The whitespace `int()` skips around a number: the ASCII \t to \r and
   * space, and the non-ASCII characters `str.isspace()` accepts (U+0085,
   * no-break space, the Unicode space separators, and the line and paragraph
   * separators). The ASCII separators U+001C to U+001F are not among them:
   * `int()` leaves ASCII characters untouched and then skips only C
   * whitespace, although `str.isspace()` accepts them.
   */
  predicate IsSpace(c: char) {
    || '\t' <= c <= '\r'
    || c == ' '
    || c == '\U{85}' || c == '\U{A0}' || c == '\U{1680}'
    || '\U{2000}' <= c <= '\U{200A}'
    || c == '\U{2028}' || c == '\U{2029}' || c == '\U{202F}' || c == '\U{205F}' || c == '\U{3000}'
  }

  predicate IsDigit(c: char) {
    '0' <= c <= '9'
  }

  function DigitValue(c: char): (d: nat)
    requires IsDigit(c)
    ensures d < 10
  {
    c as int - '0' as int
  }

  function DigitChar(d: nat): (c: char)
    requires d < 10
    ensures IsDigit(c) && DigitValue(c) == d
  {
    ('0' as int + d) as char
  }

  /** ASCII lower-casing of one character. */
  function LowerChar(c: char): (l: char)
    ensures !('A' <= l <= 'Z')
    ensures !('A' <= c <= 'Z') ==> l == c
  {
    if 'A' <= c <= 'Z' then (c as int + 32) as char else c
  }

  function Lower(s: string): (r: string)
    ensures |r| == |s|
    ensures forall i :: 0 <= i < |s| ==> r[i] == LowerChar(s[i])
  {
    seq(|s|, i requires 0 <= i < |s| => LowerChar(s[i]))
  }

  // ---------------------------------------------------------------------
  // Substrings (SQL `LIKE '%q%'`)
  // ---------------------------------------------------------------------

  predicate IsPrefix(p: string, s: string) {
    |p| <= |s| && s[..|p|] == p
  }

  /** `sub` occurs somewhere in `s`. */
  predicate Contains(s: string, sub: string)
    decreases |s|
  {
    IsPrefix(sub, s) || (|s| > 0 && Contains(s[1..], sub))
  }

  /** `sub` occurs in `s` starting at position `i`. */
  predicate OccursAt(s: string, sub: string, i: int) {
    0 <= i <= |s| - |sub| && s[i..i + |sub|] == sub
  }

  /** The recursive search agrees with "`sub` occurs at some position of `s`". */
  lemma {:induction false} ContainsIffOccurs(s: string, sub: string)
    ensures Contains(s, sub) <==> exists i :: OccursAt(s, sub, i)
    decreases |s|
  {
    if IsPrefix(sub, s) {
      assert OccursAt(s, sub, 0);
    }
    if |s| > 0 {
      var t := s[1..];
      ContainsIffOccurs(t, sub);
      if Contains(t, sub) {
        var i :| OccursAt(t, sub, i);
        assert s[i + 1..i + 1 + |sub|] == t[i..i + |sub|];
        assert OccursAt(s, sub, i + 1);
      }
      if exists i :: OccursAt(s, sub, i) {
        var i :| OccursAt(s, sub, i);
        if i == 0 {
          assert IsPrefix(sub, s);
        } else {
          assert t[i - 1..i - 1 + |sub|] == s[i..i + |sub|];
          assert OccursAt(t, sub, i - 1);
        }
      }
    } else {
      if exists i :: OccursAt(s, sub, i) {
        var i :| OccursAt(s, sub, i);
        assert IsPrefix(sub, s);
      }
    }
  }

  /**
   * Django's `icontains` with ASCII case folding: `sub` matches, letter for
   * letter up to case, at some position of `s`.
   */
  predicate ContainsIgnoringCase(s: string, sub: string)
    ensures ContainsIgnoringCase(s, sub) <==> exists i :: MatchesIgnoringCaseAt(s, sub, i)
  {
    ContainsIffOccurs(Lower(s), Lower(sub));
    OccursIgnoringCase(s, sub);
    Contains(Lower(s), Lower(sub))
  }

  /** Every character of `sub` equals, up to case, the one of `s` at offset `i`. */
  predicate MatchesIgnoringCaseAt(s: string, sub: string, i: int) {
    0 <= i <= |s| - |sub| && forall j :: 0 <= j < |sub| ==> LowerChar(s[i + j]) == LowerChar(sub[j])
  }

  lemma OccursIgnoringCase(s: string, sub: string)
    ensures forall i :: OccursAt(Lower(s), Lower(sub), i) <==> MatchesIgnoringCaseAt(s, sub, i)
  {
    forall i
      ensures OccursAt(Lower(s), Lower(sub), i) <==> MatchesIgnoringCaseAt(s, sub, i)
    {
      if OccursAt(Lower(s), Lower(sub), i) {
        forall j | 0 <= j < |sub|
          ensures LowerChar(s[i + j]) == LowerChar(sub[j])
        {
          assert Lower(s)[i..i + |sub|][j] == Lower(sub)[j];
        }
      }
      if MatchesIgnoringCaseAt(s, sub, i) {
        assert Lower(s)[i..i + |sub|] == Lower(sub);
      }
    }
  }

  // ---------------------------------------------------------------------
  // Splitting and joining (Python `str.split(sep)` and `sep.join`)
  // ---------------------------------------------------------------------

  function Occurrences(s: string, c: char): nat {
    if s == [] then 0 else (if s[0] == c then 1 else 0) + Occurrences(s[1..], c)
  }

  /**
   * `s.split(sep)`: the pieces between separators, empty pieces kept, one
   * more piece than there are separators (`"".split(",") == [""]`).
   */
  function Split(s: string, sep: char): (parts: seq<string>)
    ensures |parts| == Occurrences(s, sep) + 1
    ensures forall i :: 0 <= i < |parts| ==> sep !in parts[i]
    decreases |s|
  {
    if s == [] then [[]]
    else
      var rest := Split(s[1..], sep);
      if s[0] == sep then [[]] + rest else [[s[0]] + rest[0]] + rest[1..]
  }

  /** `sep.join(parts)`. */
  function Join(parts: seq<string>, sep: char): string
    requires |parts| > 0
  {
    if |parts| == 1 then parts[0] else parts[0] + [sep] + Join(parts[1..], sep)
  }

  /** Every character of a joined string other than the separator comes from one of the parts. */
  lemma {:induction false} CharOfJoin(parts: seq<string>, sep: char, k: nat)
    requires |parts| > 0 && k < |Join(parts, sep)| && Join(parts, sep)[k] != sep
    ensures exists i, j :: 0 <= i < |parts| && 0 <= j < |parts[i]| && parts[i][j] == Join(parts, sep)[k]
    decreases |parts|
  {
    var s := Join(parts, sep);
    if |parts| == 1 {
      assert parts[0][k] == s[k];
    } else if k < |parts[0]| {
      assert parts[0][k] == s[k];
    } else {
      var rest := Join(parts[1..], sep);
      assert s == parts[0] + [sep] + rest;
      assert s[|parts[0]|] == sep;
      var k' := k - |parts[0]| - 1;
      assert rest[k'] == s[k];
      CharOfJoin(parts[1..], sep, k');
      var i, j :| 0 <= i < |parts[1..]| && 0 <= j < |parts[1..][i]| && parts[1..][i][j] == rest[k'];
      assert parts[i + 1][j] == s[k];
    }
  }

  /** Splitting loses nothing: joining the pieces gives the string back. */
  lemma {:induction false} JoinSplit(s: string, sep: char)
    ensures Join(Split(s, sep), sep) == s
    decreases |s|
  {
    if s != [] {
      JoinSplit(s[1..], sep);
      var rest := Split(s[1..], sep);
      if s[0] == sep {
        assert Split(s, sep)[1..] == rest;
      } else if |rest| == 1 {
        assert s == [s[0]] + rest[0];
      } else {
        assert rest[1..] == Split(s, sep)[1..];
        assert Join(rest, sep) == rest[0] + [sep] + Join(rest[1..], sep);
        assert s == [s[0]] + s[1..];
      }
    }
  }

  lemma {:induction false} SplitSeparatorFree(p: string, sep: char)
    requires sep !in p
    ensures Split(p, sep) == [p]
    decreases |p|
  {
    if p != [] {
      assert sep !in p[1..];
      SplitSeparatorFree(p[1..], sep);
      assert [p[0]] + p[1..] == p;
    }
  }

  lemma {:induction false} SplitAfterPiece(p: string, rest: string, sep: char)
    requires sep !in p
    ensures Split(p + [sep] + rest, sep) == [p] + Split(rest, sep)
    decreases |p|
  {
    var s := p + [sep] + rest;
    if p == [] {
      assert s[1..] == rest;
    } else {
      assert s[1..] == p[1..] + [sep] + rest;
      assert sep !in p[1..];
      SplitAfterPiece(p[1..], rest, sep);
      assert [p[0]] + p[1..] == p;
    }
  }

  /** Joining separator-free pieces and splitting again gives the pieces back. */
  lemma {:induction false} SplitJoin(parts: seq<string>, sep: char)
    requires |parts| > 0
    requires forall i :: 0 <= i < |parts| ==> sep !in parts[i]
    ensures Split(Join(parts, sep), sep) == parts
    decreases |parts|
  {
    if |parts| == 1 {
      SplitSeparatorFree(parts[0], sep);
    } else {
      SplitJoin(parts[1..], sep);
      SplitAfterPiece(parts[0], Join(parts[1..], sep), sep);
      assert [parts[0]] + parts[1..] == parts;
    }
  }

  // ---------------------------------------------------------------------
  // Python int(piece) for base 10
  // ---------------------------------------------------------------------

  /** Drops leading whitespace. */
  function TrimStart(s: string): (r: string)
    ensures |r| <= |s| && r == s[|s| - |r|..]
    ensures forall j :: 0 <= j < |s| - |r| ==> IsSpace(s[j])
    ensures r == [] || !IsSpace(r[0])
    decreases |s|
  {
    if s != [] && IsSpace(s[0]) then TrimStart(s[1..]) else s
  }

  /** Drops trailing whitespace. */
  function TrimEnd(s: string): (r: string)
    ensures |r| <= |s| && r == s[..|r|]
    ensures forall j :: |r| <= j < |s| ==> IsSpace(s[j])
    ensures r == [] || !IsSpace(r[|r| - 1])
    decreases |s|
  {
    if s != [] && IsSpace(s[|s| - 1]) then TrimEnd(s[..|s| - 1]) else s
  }

  function Strip(s: string): string {
    TrimEnd(TrimStart(s))
  }

  predicate IsNumeralChar(c: char) {
    IsDigit(c) || c == '_'
  }

  /** Decimal digits, optionally grouped by single underscores between digits (`"1_000"`). */
  predicate IsDigitRun(s: string) {
    && |s| > 0
    && IsDigit(s[0])
    && IsDigit(s[|s| - 1])
    && (forall i :: 0 <= i < |s| ==> IsNumeralChar(s[i]))
    && (forall i :: 0 <= i < |s| - 1 ==> s[i] == '_' ==> s[i + 1] != '_')
  }

  /** The value of a digit run; underscores carry no value. */
  function DigitsValue(s: string): nat
    requires forall c :: c in s ==> IsNumeralChar(c)
    decreases |s|
  {
    if s == [] then 0
    else
      var init, last := s[..|s| - 1], s[|s| - 1];
      assert last in s && IsNumeralChar(last);
      if last == '_' then DigitsValue(init)
      else DigitsValue(init) * 10 + DigitValue(last)
  }

  /**
   * The default of `sys.get_int_max_str_digits()`: `int()` refuses a decimal
   * string of more digits, and `str()` an integer that would need more.
   */
  const MaxStrDigits: nat := 4300

  /** How many decimal digits a string holds; underscores and signs do not count. */
  function DigitCount(s: string): (r: nat)
    ensures r <= |s|
  {
    if s == [] then 0 else (if IsDigit(s[0]) then 1 else 0) + DigitCount(s[1..])
  }

  lemma {:induction false} DigitCountOfDigits(s: string)
    requires forall i :: 0 <= i < |s| ==> IsDigit(s[i])
    ensures DigitCount(s) == |s|
  {
    if s != [] {
      DigitCountOfDigits(s[1..]);
    }
  }

  /**
   * `int(s)` in base 10: surrounding whitespace is ignored, one optional
   * sign, then a digit run of at most `MaxStrDigits` digits; anything else
   * is a `ValueError` (here `None`).
   */
  function ParseInt(s: string): (r: Option<int>)
    ensures r.Some? ==> Strip(s) != [] && (r.value < 0 ==> Strip(s)[0] == '-')
    ensures r.Some? ==> DigitCount(Strip(s)) <= MaxStrDigits
  {
    var t := Strip(s);
    if |t| > 0 && (t[0] == '+' || t[0] == '-') then
      var digits := t[1..];
      if IsDigitRun(digits) && DigitCount(digits) <= MaxStrDigits then
        var magnitude: int := DigitsValue(digits);
        Some(if t[0] == '-' then -magnitude else magnitude)
      else None
    else if IsDigitRun(t) && DigitCount(t) <= MaxStrDigits then Some(DigitsValue(t))
    else None
  }

  /** A piece holding a character that no integer literal can hold is rejected. */
  lemma ParseIntRejectsForeignChar(s: string, i: nat)
    requires i < |s|
    requires !IsSpace(s[i]) && !IsNumeralChar(s[i]) && s[i] != '+' && s[i] != '-'
    ensures ParseInt(s) == None
  {
    var u := TrimStart(s);
    var t := TrimEnd(u);
    var a := |s| - |u|;
    assert s[a..] == u;
    assert u[..|t|] == t;
    assert a <= i;
    assert u[i - a] == s[i];
    assert i - a < |t|;
    assert t[i - a] == s[i];
  }

  /** Empty or blank pieces are rejected (`int("")` raises). */
  lemma ParseIntRejectsBlank(s: string)
    requires forall i :: 0 <= i < |s| ==> IsSpace(s[i])
    ensures ParseInt(s) == None
  {
    TrimStartOfBlank(s);
  }

  /** `int("\u30007\x85")` is 7: ideographic space and next-line are skipped around the number. */
  lemma ParseIntSkipsUnicodeSpace()
    ensures ParseInt(['\U{3000}', '7', '\U{85}']) == Some(7)
  {
    StripPadded('\U{3000}', "7", '\U{85}');
    assert ['\U{3000}'] + "7" + ['\U{85}'] == ['\U{3000}', '7', '\U{85}'];
    assert DigitsValue("7") == DigitsValue([]) * 10 + 7;
  }

  /**
   * `int()` raises on a piece that starts with an ASCII information
   * separator (U+001C to U+001F), as in `int("\x1c7")`: these are not
   * whitespace to `int()`.
   */
  lemma ParseIntRejectsSeparatorPrefix(c: char, rest: string)
    requires '\U{1C}' <= c <= '\U{1F}'
    ensures ParseInt([c] + rest) == None
  {
    ParseIntRejectsForeignChar([c] + rest, 0);
  }

  /** One blank on each side of an unpadded string is stripped, and nothing more. */
  lemma StripPadded(a: char, t: string, b: char)
    requires IsSpace(a) && IsSpace(b)
    requires t != [] && !IsSpace(t[0]) && !IsSpace(t[|t| - 1])
    ensures Strip([a] + t + [b]) == t
  {
    var s := [a] + t + [b];
    assert s[1..] == t + [b];
    assert TrimStart(s) == t + [b];
    assert (t + [b])[..|t|] == t;
    assert TrimEnd(t + [b]) == TrimEnd(t);
    StripUnpadded(t);
    assert TrimStart(t) == t;
  }

  lemma {:induction false} TrimStartOfBlank(s: string)
    requires forall i :: 0 <= i < |s| ==> IsSpace(s[i])
    ensures TrimStart(s) == []
    decreases |s|
  {
    if s != [] {
      TrimStartOfBlank(s[1..]);
    }
  }

  /** Python `str(n)` for a natural number. */
  function ShowNat(n: nat): (r: string)
    ensures |r| > 0
    ensures forall i :: 0 <= i < |r| ==> IsDigit(r[i])
    decreases n
  {
    if n < 10 then [DigitChar(n)] else ShowNat(n / 10) + [DigitChar(n % 10)]
  }

  /** `str(n)` stays within the digit limit, so `int` can read it back. */
  predicate Showable(n: int) {
    |ShowNat(if n < 0 then -n else n)| <= MaxStrDigits
  }

  /** Python `str(n)`. */
  function Show(n: int): (r: string)
    ensures r != []
  {
    if n < 0 then "-" + ShowNat(-n) else ShowNat(n)
  }

  lemma {:induction false} DigitsValueOfShowNat(n: nat)
    ensures DigitsValue(ShowNat(n)) == n
    decreases n
  {
    var s := ShowNat(n);
    if n >= 10 {
      DigitsValueOfShowNat(n / 10);
      assert s[..|s| - 1] == ShowNat(n / 10);
    }
  }

  lemma StripUnpadded(s: string)
    requires s != [] && !IsSpace(s[0]) && !IsSpace(s[|s| - 1])
    ensures Strip(s) == s
  {
    assert TrimStart(s) == s;
  }

  lemma ShowNatIsDigitRun(n: nat)
    ensures IsDigitRun(ShowNat(n))
    ensures DigitsValue(ShowNat(n)) == n
  {
    DigitsValueOfShowNat(n);
  }

  /** `int(str(n)) == n`: the rendering of an integer within the digit limit reads back as that integer. */
  lemma ParseIntOfShow(n: int)
    requires Showable(n)
    ensures ParseInt(Show(n)) == Some(n)
  {
    var s := Show(n);
    var m := if n < 0 then -n else n;
    var digits := ShowNat(m);
    ShowNatIsDigitRun(m);
    DigitCountOfDigits(digits);
    assert IsDigit(digits[|digits| - 1]);
    if n < 0 {
      assert s[1..] == digits;
      assert s[|s| - 1] == digits[|digits| - 1];
      StripUnpadded(s);
    } else {
      assert IsDigit(digits[0]);
      StripUnpadded(s);
    }
  }

  /** Renderings of integers never hold a comma, so they survive a split. */
  lemma ShowHasNoComma(n: int)
    ensures ',' !in Show(n)
  {
    var m := if n < 0 then -n else n;
    assert forall i :: 0 <= i < |ShowNat(m)| ==> ShowNat(m)[i] != ',';
  }

  // ---------------------------------------------------------------------
  // Code-point order of strings (ORDER BY title)
  // ---------------------------------------------------------------------

  /** `a` sorts no later than `b`: lexicographic by code point, a prefix first. */
  predicate StrLe(a: string, b: string)
    decreases |a|
  {
    a == [] || (b != [] && (a[0] < b[0] || (a[0] == b[0] && StrLe(a[1..], b[1..]))))
  }

  lemma {:induction false} StrLeTotal(a: string, b: string)
    ensures StrLe(a, b) || StrLe(b, a)
    decreases |a|
  {
    if a != [] && b != [] && a[0] == b[0] {
      StrLeTotal(a[1..], b[1..]);
    }
  }

  lemma {:induction false} StrLeTransitive(a: string, b: string, c: string)
    requires StrLe(a, b) && StrLe(b, c)
    ensures StrLe(a, c)
    decreases |a|
  {
    if a != [] && a[0] == b[0] && b[0] == c[0] {
      StrLeTransitive(a[1..], b[1..], c[1..]);
    }
  }
}
