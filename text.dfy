/**
 * The JavaScript string built-ins the handlers rely on: `String.prototype.trim`,
 * `String.prototype.split` with a one-character separator, and the global `parseInt`
 * without a radix argument (section 19.2.5 of ECMA-262).
 */
module Text {
  import opened Common

  /**
   * ECMAScript WhiteSpace and LineTerminator code points: what `trim` removes and what
   * `parseInt` skips before the number.
   */
  predicate IsJsSpace(c: char)
  {
    || c == '\t' || c == '\n' || c == '\U{000B}' || c == '\U{000C}' || c == '\r'
    || c == ' ' || c == '\U{00A0}' || c == '\U{1680}' || ('\U{2000}' <= c <= '\U{200A}')
    || c == '\U{2028}' || c == '\U{2029}' || c == '\U{202F}' || c == '\U{205F}'
    || c == '\U{3000}' || c == '\U{FEFF}'
  }

  /** Every character of `s` is white space (vacuously so for `""`). */
  ghost predicate AllSpace(s: string)
  {
    forall i :: 0 <= i < |s| ==> IsJsSpace(s[i])
  }

  /** The first index at or after `k` whose character is not white space, or `|s|`. */
  function SkipSpace(s: string, k: nat): (n: nat)
    requires k <= |s|
    decreases |s| - k
    ensures k <= n <= |s|
    ensures forall j :: k <= j < n ==> IsJsSpace(s[j])
    ensures n == |s| || !IsJsSpace(s[n])
  {
    if k < |s| && IsJsSpace(s[k]) then SkipSpace(s, k + 1) else k
  }

  /**
   * Going back from `k` no further than `lo`: the index just past the last character that
   * is not white space, or `lo`.
   */
  function BackSpace(s: string, lo: nat, k: nat): (n: nat)
    requires lo <= k <= |s|
    ensures lo <= n <= k
    ensures forall j :: n <= j < k ==> IsJsSpace(s[j])
    ensures n == lo || !IsJsSpace(s[n - 1])
  {
    if k > lo && IsJsSpace(s[k - 1]) then BackSpace(s, lo, k - 1) else k
  }

  /**
   * `s` with its leading white space removed, as `parseInt` first does: a suffix of `s`
   * that does not start with white space, and everything cut off before it was white space.
   */
  function TrimStart(s: string): (r: string)
    ensures |r| <= |s| && r == s[|s| - |r|..]
    ensures AllSpace(s[..|s| - |r|])
    ensures r == [] || !IsJsSpace(r[0])
  {
    var i := SkipSpace(s, 0);
    SpaceOutside(s, i, |s|);
    s[i..]
  }

  /**
   * `s.trim()`: what is left is a slice of `s` that neither starts nor ends with white
   * space, and everything removed on either side was white space.
   */
  function Trim(s: string): (r: string)
    ensures var i := SkipSpace(s, 0);
      i + |r| <= |s| && r == s[i..i + |r|] && AllSpace(s[..i]) && AllSpace(s[i + |r|..])
    ensures r == [] || (!IsJsSpace(r[0]) && !IsJsSpace(r[|r| - 1]))
  {
    var i := SkipSpace(s, 0);
    var j := BackSpace(s, i, |s|);
    SpaceOutside(s, i, j);
    s[i..j]
  }

  /** Characters outside `i..j` that are white space make both cut-off parts all white space. */
  lemma SpaceOutside(s: string, i: nat, j: nat)
    requires i <= j <= |s|
    requires forall k :: 0 <= k < i ==> IsJsSpace(s[k])
    requires forall k :: j <= k < |s| ==> IsJsSpace(s[k])
    ensures AllSpace(s[..i]) && AllSpace(s[j..])
  {
    assert forall k :: 0 <= k < i ==> s[..i][k] == s[k];
    assert forall k :: 0 <= k < |s| - j ==> s[j..][k] == s[j + k];
  }

  /** `!x?.trim()`: the field is absent or holds only white space. */
  predicate Blank(x: Option<string>)
  {
    x.None? || Trim(x.value) == ""
  }

  /** The trimmed text is empty exactly when the text is all white space. */
  lemma TrimEmptyIffBlank(s: string)
    ensures Trim(s) == "" <==> AllSpace(s)
  {
    var i := SkipSpace(s, 0);
    var j := BackSpace(s, i, |s|);
    assert AllSpace(s) ==> i == |s|;
    if Trim(s) == "" {
      assert i == j;
      forall k | 0 <= k < |s| ensures IsJsSpace(s[k]) {
      }
    }
  }

  /** Trimming twice is trimming once. */
  lemma TrimIdempotent(s: string)
    ensures Trim(Trim(s)) == Trim(s)
  {
    var r := Trim(s);
    assert SkipSpace(r, 0) == 0;
    assert BackSpace(r, 0, |r|) == |r|;
    assert r[0..|r|] == r;
  }

  // ---------------------------------------------------------------- split

  /** `s.split(sep)`: the maximal runs between separators, empty runs included. */
  function Split(s: string, sep: char): (fields: seq<string>)
    ensures |fields| >= 1
    ensures forall i :: 0 <= i < |fields| ==> sep !in fields[i]
  {
    if s == [] then [""]
    else
      var rest := Split(s[1..], sep);
      if s[0] == sep then [""] + rest
      else [[s[0]] + rest[0]] + rest[1..]
  }

  /** `fields.join(sep)`. */
  function Join(fields: seq<string>, sep: char): string
  {
    if fields == [] then ""
    else if |fields| == 1 then fields[0]
    else fields[0] + [sep] + Join(fields[1..], sep)
  }

  /** Joining the fields of a split gives back the string. */
  lemma {:induction false} JoinSplit(s: string, sep: char)
    ensures Join(Split(s, sep), sep) == s
  {
    if s != [] {
      var rest := Split(s[1..], sep);
      JoinSplit(s[1..], sep);
      if s[0] == sep {
        assert Split(s, sep) == [""] + rest;
      } else {
        var fields := Split(s, sep);
        assert fields == [[s[0]] + rest[0]] + rest[1..];
        if |rest| == 1 {
          assert Join(fields, sep) == [s[0]] + rest[0];
        } else {
          assert fields[1..] == rest[1..];
          assert Join(fields, sep) == [s[0]] + rest[0] + [sep] + Join(rest[1..], sep);
        }
      }
    }
  }

  /** A word without separators followed by a separator is split off as the first field. */
  lemma {:induction false} SplitAfterWord(w: string, sep: char, rest: string)
    requires sep !in w
    ensures Split(w + [sep] + rest, sep) == [w] + Split(rest, sep)
  {
    var s := w + [sep] + rest;
    if w != [] {
      assert s[1..] == w[1..] + [sep] + rest;
      SplitAfterWord(w[1..], sep, rest);
      assert [w[0]] + w[1..] == w;
    } else {
      assert s[1..] == rest;
    }
  }

  /**
   * The first field of a split is the longest prefix without a separator: it is followed
   * by a separator or by the end of the string.
   */
  lemma {:induction false} FirstField(s: string, sep: char)
    ensures var f := Split(s, sep)[0];
      |f| <= |s| && f == s[..|f|] && sep !in f && (|f| == |s| || s[|f|] == sep)
  {
    if s != [] {
      FirstField(s[1..], sep);
      if s[0] != sep {
        var rest := Split(s[1..], sep);
        assert Split(s, sep)[0] == [s[0]] + rest[0];
        assert s == [s[0]] + s[1..];
      }
    }
  }

  // ---------------------------------------------------------------- parseInt

  /**
   * The value of a digit in radix up to 36; 36 for a character that is no digit. Decimal
   * digits count from 0, letters from 10 in alphabet order, and case does not matter.
   */
  function DigitValue(c: char): (v: nat)
    ensures v <= 36
    ensures v < 10 <==> '0' <= c <= '9'
    ensures v < 36 <==> '0' <= c <= '9' || 'a' <= c <= 'z' || 'A' <= c <= 'Z'
    ensures '0' <= c <= '9' ==> c == '0' + v as char
    ensures 'a' <= c <= 'z' ==> c == 'a' + (v - 10) as char
    ensures 'A' <= c <= 'Z' ==> c == 'A' + (v - 10) as char
  {
    if '0' <= c <= '9' then c as nat - '0' as nat
    else if 'a' <= c <= 'z' then c as nat - 'a' as nat + 10
    else if 'A' <= c <= 'Z' then c as nat - 'A' as nat + 10
    else 36
  }

  predicate IsDigit(c: char, radix: nat)
  {
    DigitValue(c) < radix
  }

  /** The longest prefix of `s` made of digits of the radix. */
  function DigitRun(s: string, radix: nat): (d: string)
    ensures |d| <= |s| && d == s[..|d|]
    ensures forall i :: 0 <= i < |d| ==> IsDigit(d[i], radix)
    ensures |d| == |s| || !IsDigit(s[|d|], radix)
  {
    if s != [] && IsDigit(s[0], radix) then
      var d := DigitRun(s[1..], radix);
      assert s[..|d| + 1] == [s[0]] + s[1..][..|d|];
      [s[0]] + d
    else []
  }

  /** The number a run of digits denotes, read most significant digit first. */
  function DigitsValue(d: string, radix: nat): nat
  {
    if d == [] then 0
    else DigitsValue(d[..|d| - 1], radix) * radix + DigitValue(d[|d| - 1])
  }

  /**
   * `parseInt(s)`: `None` stands for `NaN`. Leading white space is skipped, one sign is
   * read, a `0x`/`0X` prefix selects radix 16, and the longest run of digits after that
   * is the number; whatever follows the run is ignored. Without digits the result is `NaN`.
   */
  function ParseInt(s: string): (r: Option<int>)
    ensures r.Some? ==> exists i :: 0 <= i < |s| && '0' <= s[i] <= '9'
    ensures r.Some? && r.value < 0 ==> '-' in s
  {
    var t := TrimStart(s);
    var negative := |t| > 0 && t[0] == '-';
    var u := if |t| > 0 && (t[0] == '-' || t[0] == '+') then t[1..] else t;
    var hex := |u| >= 2 && u[0] == '0' && (u[1] == 'x' || u[1] == 'X');
    var radix := if hex then 16 else 10;
    var digits := DigitRun(if hex then u[2..] else u, radix);
    if digits == [] then None
    else
      var n: int := DigitsValue(digits, radix);
      Some(if negative then -n else n)
  }

  /** The decimal text of a natural number, as `String(n)` writes it. */
  function Decimal(n: nat): (s: string)
    ensures |s| >= 1
    ensures forall i :: 0 <= i < |s| ==> '0' <= s[i] <= '9'
    ensures s[0] == '0' ==> n == 0
  {
    if n < 10 then ['0' + n as char]
    else Decimal(n / 10) + ['0' + (n % 10) as char]
  }

  lemma {:induction false} DecimalValue(n: nat)
    ensures DigitsValue(Decimal(n), 10) == n
  {
    var s := Decimal(n);
    if n >= 10 {
      DecimalValue(n / 10);
      assert s[..|s| - 1] == Decimal(n / 10);
    }
  }

  /** A string made only of digits is its own digit run. */
  lemma {:induction false} DigitRunAll(s: string, radix: nat)
    requires forall i :: 0 <= i < |s| ==> IsDigit(s[i], radix)
    ensures DigitRun(s, radix) == s
  {
    if s != [] {
      DigitRunAll(s[1..], radix);
    }
  }

  /** Two digits denote the first times the radix plus the second. */
  lemma DigitsValueTwo(a: char, b: char, radix: nat)
    ensures DigitsValue([a, b], radix) == DigitValue(a) * radix + DigitValue(b)
  {
    var d := [a, b];
    assert d[..|d| - 1] == [a] && [a][..0] == [];
    assert DigitsValue([a], radix) == DigitsValue([], radix) * radix + DigitValue(a);
    assert DigitsValue(d, radix) == DigitsValue([a], radix) * radix + DigitValue(b);
  }

  /** The digit run of digits followed by a non-digit, or by nothing, is those digits. */
  lemma {:induction false} DigitRunPrefix(w: string, t: string, radix: nat)
    requires forall i :: 0 <= i < |w| ==> IsDigit(w[i], radix)
    requires t == [] || !IsDigit(t[0], radix)
    ensures DigitRun(w + t, radix) == w
  {
    if w == [] {
      assert w + t == t;
    } else {
      assert (w + t)[1..] == w[1..] + t;
      DigitRunPrefix(w[1..], t, radix);
    }
  }

  /** `parseInt(String(n)) === n`: the route parameter of an id reads back as that id. */
  lemma ParseIntDecimal(n: nat)
    ensures ParseInt(Decimal(n)) == Some(n)
  {
    ParseIntDigits(Decimal(n));
    DecimalValue(n);
  }

  /** A nonempty string of decimal digits is read as the number they denote. */
  lemma ParseIntDigits(s: string)
    requires |s| > 0 && forall i :: 0 <= i < |s| ==> '0' <= s[i] <= '9'
    ensures ParseInt(s) == Some(DigitsValue(s, 10))
  {
    assert !IsJsSpace(s[0]) && s[0] != '-' && s[0] != '+';
    assert !(|s| >= 2 && (s[1] == 'x' || s[1] == 'X'));
    ParseIntPlain(s);
    DigitRunAll(s, 10);
  }

  /**
   * Text that starts with neither white space, a sign nor a `0x` prefix is read as the
   * decimal digit run it starts with, and is `NaN` without one.
   */
  lemma ParseIntPlain(s: string)
    requires |s| > 0 && !IsJsSpace(s[0]) && s[0] != '-' && s[0] != '+'
    requires !(|s| >= 2 && s[0] == '0' && (s[1] == 'x' || s[1] == 'X'))
    ensures var d := DigitRun(s, 10); ParseInt(s) == if d == [] then None else Some(DigitsValue(d, 10))
  {
    assert SkipSpace(s, 0) == 0;
    assert TrimStart(s) == s;
  }

  /** `0x` followed by text is read as the hexadecimal digit run after the prefix. */
  lemma ParseIntHex(d: string)
    ensures var h := DigitRun(d, 16); ParseInt("0x" + d) == if h == [] then None else Some(DigitsValue(h, 16))
  {
    var s := "0x" + d;
    assert !IsJsSpace(s[0]);
    assert SkipSpace(s, 0) == 0;
    assert TrimStart(s) == s;
    assert s[2..] == d;
  }

  /** `0x`, a run of hexadecimal digits, and text that does not go on with one: the run's value. */
  lemma ParseIntHexRun(w: string, t: string)
    requires |w| > 0 && forall i :: 0 <= i < |w| ==> IsDigit(w[i], 16)
    requires t == [] || !IsDigit(t[0], 16)
    ensures ParseInt("0x" + (w + t)) == Some(DigitsValue(w, 16))
  {
    DigitRunPrefix(w, t, 16);
    ParseIntHex(w + t);
  }
}
