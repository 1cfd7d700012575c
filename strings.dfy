/**
 * The two string operations the cleaning step relies on: Python's
 * `str.split(sep)` with a one-character separator (what pandas' `.str.split`
 * applies to every cell) and the conversion of a string to a 64-bit integer
 * that `astype(int)` performs (Python's `int(str)`, then a store into int64).
 */
module Strings {
  import opened Results

  // ---------------------------------------------------------------------------
  // str.split(sep)

  /** The pieces of `s` between occurrences of `sep`; there is always at least one. */
  function Split(s: string, sep: char): (parts: seq<string>)
    ensures |parts| == 1 + CountChar(s, sep)
    ensures |parts| == 1 <==> sep !in s
    ensures forall i :: 0 <= i < |parts| ==> sep !in parts[i]
  {
    if s == [] then [[]]
    else
      var rest := Split(s[1..], sep);
      if s[0] == sep then [[]] + rest
      else [[s[0]] + rest[0]] + rest[1..]
  }

  /** `sep.join(parts)` */
  function Join(parts: seq<string>, sep: char): string
    requires |parts| >= 1
  {
    if |parts| == 1 then parts[0] else parts[0] + [sep] + Join(parts[1..], sep)
  }

  function CountChar(s: string, c: char): nat
  {
    if s == [] then 0 else (if s[0] == c then 1 else 0) + CountChar(s[1..], c)
  }

  lemma {:induction false} CountCharZero(s: string, c: char)
    ensures CountChar(s, c) == 0 <==> c !in s
  {
    if s != [] {
      CountCharZero(s[1..], c);
      assert s == [s[0]] + s[1..];
    }
  }

  /** Joining the pieces again gives back the original string. */
  lemma {:induction false} JoinSplit(s: string, sep: char)
    ensures Join(Split(s, sep), sep) == s
  {
    if s != [] {
      var rest := Split(s[1..], sep);
      JoinSplit(s[1..], sep);
      assert Join(rest, sep) == s[1..];
      assert s == [s[0]] + s[1..];
      if s[0] == sep {
        var parts := [[]] + rest;
        assert Split(s, sep) == parts;
        assert parts[0] == [] && parts[1..] == rest;
        assert Join(parts, sep) == [] + [sep] + Join(rest, sep);
      } else if |rest| > 1 {
        var parts := [[s[0]] + rest[0]] + rest[1..];
        assert Split(s, sep) == parts;
        assert parts[1..] == rest[1..];
        calc {
          Join(parts, sep);
          ([s[0]] + rest[0]) + [sep] + Join(rest[1..], sep);
          [s[0]] + (rest[0] + [sep] + Join(rest[1..], sep));
          [s[0]] + Join(rest, sep);
        }
      } else {
        assert Split(s, sep) == [[s[0]] + rest[0]];
        assert Join(rest, sep) == rest[0];
      }
    }
  }

  /** A string without the separator is a single piece. */
  lemma {:induction false} SplitNoSeparator(p: string, sep: char)
    requires sep !in p
    ensures Split(p, sep) == [p]
  {
    if p != [] {
      SplitNoSeparator(p[1..], sep);
      assert [p[0]] + p[1..] == p;
    }
  }

  /** A separator-free head splits off as the first piece. */
  lemma {:induction false} SplitHead(p: string, t: string, sep: char)
    requires sep !in p
    ensures Split(p + [sep] + t, sep) == [p] + Split(t, sep)
  {
    if p == [] {
      assert p + [sep] + t == [sep] + t;
      assert ([sep] + t)[1..] == t;
    } else {
      var s := p + [sep] + t;
      assert s[0] == p[0];
      assert s[1..] == p[1..] + [sep] + t;
      SplitHead(p[1..], t, sep);
      var r := Split(s[1..], sep);
      assert r == [p[1..]] + Split(t, sep);
      assert r[0] == p[1..] && r[1..] == Split(t, sep);
      assert Split(s, sep) == [[p[0]] + r[0]] + r[1..];
      assert [p[0]] + p[1..] == p;
    }
  }

  /** Splitting a join of separator-free pieces gives back the pieces. */
  lemma {:induction false} SplitJoin(parts: seq<string>, sep: char)
    requires |parts| >= 1
    requires forall i :: 0 <= i < |parts| ==> sep !in parts[i]
    ensures Split(Join(parts, sep), sep) == parts
  {
    if |parts| == 1 {
      SplitNoSeparator(parts[0], sep);
    } else {
      SplitJoin(parts[1..], sep);
      SplitHead(parts[0], Join(parts[1..], sep), sep);
      assert [parts[0]] + parts[1..] == parts;
    }
  }

  /**
   * The first piece is the text before the first separator: a separator-free
   * prefix of `s` that is either all of `s` or followed by the separator.
   */
  lemma FirstPieceBeforeSeparator(s: string, sep: char)
    ensures var p := Split(s, sep)[0];
      && p <= s && sep !in p
      && (p == s <==> sep !in s)
      && (p != s ==> s[|p|] == sep)
  {
  }

  /**
   * The second piece is the text between the first and second separator:
   * `s` is the first piece, the separator, the second piece, and a rest that
   * is empty or starts with the separator.
   */
  lemma SecondPieceBetweenSeparators(s: string, sep: char)
    requires sep in s
    ensures var parts := Split(s, sep);
      && |parts| >= 2
      && var head := parts[0] + [sep] + parts[1];
      && head <= s
      && sep !in parts[1]
      && (|head| == |s| || s[|head|] == sep)
  {
    var parts := Split(s, sep);
    JoinSplit(s, sep);
    CountCharZero(s, sep);
    assert s == parts[0] + [sep] + Join(parts[1..], sep);
    var tail := parts[1..];
    if |tail| == 1 {
      assert s == parts[0] + [sep] + parts[1];
    } else {
      assert tail[1..] == parts[2..];
      assert s == parts[0] + [sep] + parts[1] + ([sep] + Join(parts[2..], sep));
    }
  }

  // ---------------------------------------------------------------------------
  // int(str) stored into int64

  const Int64Min: int := -0x8000_0000_0000_0000
  const Int64Max: int := 0x7FFF_FFFF_FFFF_FFFF

  /**
   * The characters `int()` strips from both ends: the ASCII space, tab, line
   * feed, vertical tab, form feed and carriage return, and the non-ASCII
   * characters `str.isspace` accepts. The ASCII separators U+001C to U+001F
   * pass `str.isspace` but are not stripped, so `int()` rejects them.
   */
  predicate IsSpace(c: char)
  {
    || c == ' ' || c == '\t' || c == '\n' || c == '\r'
    || c == '\U{000B}' || c == '\U{000C}'
    || c == '\U{0085}' || c == '\U{00A0}' || c == '\U{1680}'
    || ('\U{2000}' <= c <= '\U{200A}')
    || c == '\U{2028}' || c == '\U{2029}' || c == '\U{202F}' || c == '\U{205F}' || c == '\U{3000}'
  }

  function TrimStart(s: string): string
  {
    if s != [] && IsSpace(s[0]) then TrimStart(s[1..]) else s
  }

  function TrimEnd(s: string): string
  {
    if s != [] && IsSpace(s[|s| - 1]) then TrimEnd(s[..|s| - 1]) else s
  }

  predicate IsDigit(c: char)
  {
    '0' <= c <= '9'
  }

  /**
   * A run of decimal digits in which single underscores may separate two
   * digits, as Python's `int()` accepts for base 10.
   */
  predicate IsDigitRun(s: string)
  {
    |s| > 0 && forall i :: 0 <= i < |s| ==> DigitOrJoiner(s, i)
  }

  /** Position `i` holds a digit, or an underscore between two digits. */
  predicate DigitOrJoiner(s: string, i: nat)
    requires i < |s|
  {
    IsDigit(s[i]) || (s[i] == '_' && 0 < i < |s| - 1 && IsDigit(s[i - 1]) && IsDigit(s[i + 1]))
  }

  /** The value of the digits of `s`, underscores ignored. */
  function DigitsValue(s: string): nat
  {
    if s == [] then 0
    else if IsDigit(s[|s| - 1]) then 10 * DigitsValue(s[..|s| - 1]) + (s[|s| - 1] as int - '0' as int)
    else DigitsValue(s[..|s| - 1])
  }

  /**
   * `int(s)` followed by a store into an int64 cell: surrounding whitespace is
   * ignored, an optional sign, then a digit run; anything else, and any value
   * outside the int64 range, is an error (None).
   */
  function ParseInt(s: string): (r: Option<int>)
    ensures r.Some? ==> Int64Min <= r.value <= Int64Max
  {
    var t := TrimEnd(TrimStart(s));
    var negative := t != [] && t[0] == '-';
    var digits := if t != [] && (t[0] == '-' || t[0] == '+') then t[1..] else t;
    if !IsDigitRun(digits) then None
    else
      var v: int := DigitsValue(digits);
      var n := if negative then -v else v;
      if Int64Min <= n <= Int64Max then Some(n) else None
  }

  /** A number padded with an ASCII information separator is not an integer. */
  /** A number padded with an ASCII information separator is not an integer. */
  lemma ParseIntRejectsSeparator(d: char)
    requires '0' <= d <= '9'
    ensures ParseInt(['\U{001C}', d]) == None
    ensures ParseInt([d, '\U{001F}']) == None
  {
    var lead, trail := ['\U{001C}', d], [d, '\U{001F}'];
    assert TrimEnd(TrimStart(lead)) == lead;
    assert TrimStart(trail) == trail && TrimEnd(trail) == trail;
    NotDigitRun(lead, 0);
    NotDigitRun(trail, 1);
  }

  lemma NotDigitRun(s: string, i: nat)
    requires i < |s| && !IsDigit(s[i]) && s[i] != '_'
    ensures !IsDigitRun(s)
  {
    assert !DigitOrJoiner(s, i);
  }

  /** Decimal rendering of a natural number, the inverse partner of the digit parser. */
  function ShowNat(n: nat): (s: string)
    ensures |s| > 0 && forall i :: 0 <= i < |s| ==> IsDigit(s[i])
  {
    if n < 10 then [('0' as int + n) as char]
    else ShowNat(n / 10) + [('0' as int + n % 10) as char]
  }

  function ShowInt(n: int): string
  {
    if n < 0 then "-" + ShowNat(-n) else ShowNat(n)
  }

  lemma {:induction false} DigitsValueShowNat(n: nat)
    ensures DigitsValue(ShowNat(n)) == n
  {
    var s := ShowNat(n);
    if n >= 10 {
      DigitsValueShowNat(n / 10);
      assert s[..|s| - 1] == ShowNat(n / 10);
    }
  }

  /** Every int64 value renders to a string that parses back to it. */
  lemma ParseShowInt(n: int)
    requires Int64Min <= n <= Int64Max
    ensures ParseInt(ShowInt(n)) == Some(n)
  {
    var s := ShowInt(n);
    var d := ShowNat(if n < 0 then -n else n);
    DigitsValueShowNat(if n < 0 then -n else n);
    assert !IsSpace(s[0]);
    assert TrimStart(s) == s;
    assert !IsSpace(s[|s| - 1]);
    assert TrimEnd(s) == s;
    if n < 0 {
      assert s[1..] == d;
    }
    assert IsDigitRun(d);
  }
}
