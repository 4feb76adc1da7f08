/** The string operations the questionnaire relies on, written after
    Python's built-ins: `str(n)`, `int(s)`, `str.strip()` and `str.split(',')`. */
module Text {
  import opened Base

  predicate IsDigit(c: char) {
    '0' <= c <= '9'
  }

  function DigitValue(c: char): nat
    requires IsDigit(c)
  {
    c as int - '0' as int
  }

  function DigitChar(d: nat): (c: char)
    requires d < 10
    ensures IsDigit(c) && DigitValue(c) == d
  {
    ('0' as int + d) as char
  }

  predicate AllDigits(s: string) {
    forall i :: 0 <= i < |s| ==> IsDigit(s[i])
  }

  /** The characters for which Python's `str.isspace()` holds. */
  predicate IsSpace(c: char) {
    var k := c as int;
    k == 0x20 || 0x09 <= k <= 0x0D || 0x1C <= k <= 0x1F || k == 0x85 || k == 0xA0
    || k == 0x1680 || 0x2000 <= k <= 0x200A || k == 0x2028 || k == 0x2029
    || k == 0x202F || k == 0x205F || k == 0x3000
  }

  /** The two sets of surrounding whitespace the program's input loses.
      `str.strip()` drops every `str.isspace()` character. `int()` passes
      ASCII through unchanged and then skips only space and `\t\n\v\f\r`
      there, so it keeps the separators U+001C..U+001F; beyond ASCII it
      skips what `str.isspace()` calls whitespace. */
  datatype Spaces = StripSpaces | IntSpaces

  predicate IsBlank(w: Spaces, c: char) {
    IsSpace(c) && (w.IntSpaces? ==> !(0x1C <= c as int <= 0x1F))
  }

  // ---------------------------------------------------------------------------
  // str(n) and its inverse
  // ---------------------------------------------------------------------------

  /** Python's `str(n)` for a non-negative integer: decimal digits without a
      leading zero. */
  function Decimal(n: nat): (s: string)
    ensures |s| > 0 && AllDigits(s)
    ensures s[0] == '0' <==> n == 0
    decreases n
  {
    if n < 10 then [DigitChar(n)] else Decimal(n / 10) + [DigitChar(n % 10)]
  }

  /** The number a string of decimal digits denotes (leading zeros allowed). */
  function DigitsValue(s: string): nat
    requires AllDigits(s)
    decreases |s|
  {
    if |s| == 0 then 0 else 10 * DigitsValue(s[..|s| - 1]) + DigitValue(s[|s| - 1])
  }

  lemma {:induction false} DecimalRoundTrip(n: nat)
    ensures DigitsValue(Decimal(n)) == n
    decreases n
  {
    if n >= 10 {
      var s := Decimal(n);
      assert s[..|s| - 1] == Decimal(n / 10);
      DecimalRoundTrip(n / 10);
    }
  }

  /** Distinct numbers print differently. */
  lemma DecimalInjective(a: nat, b: nat)
    ensures Decimal(a) == Decimal(b) <==> a == b
  {
    DecimalRoundTrip(a);
    DecimalRoundTrip(b);
  }

  // ---------------------------------------------------------------------------
  // str.strip()
  // ---------------------------------------------------------------------------

  /** `s.lstrip()`, for the whitespace set `w`. */
  function TrimStart(w: Spaces, s: string): (r: string)
    ensures |r| <= |s|
    decreases |s|
  {
    if |s| > 0 && IsBlank(w, s[0]) then TrimStart(w, s[1..]) else s
  }

  /** `s.rstrip()`, for the whitespace set `w`. */
  function TrimEnd(w: Spaces, s: string): (r: string)
    ensures |r| <= |s|
    decreases |s|
  {
    if |s| > 0 && IsBlank(w, s[|s| - 1]) then TrimEnd(w, s[..|s| - 1]) else s
  }

  /** Both ends trimmed of the whitespace set `w`. */
  function Trim(w: Spaces, s: string): string {
    TrimEnd(w, TrimStart(w, s))
  }

  /** Python's `str.strip()`. */
  function Strip(s: string): string {
    Trim(StripSpaces, s)
  }

  /** `lstrip` removes exactly the leading whitespace: what remains is a
      suffix that does not start with whitespace, and everything cut off is
      whitespace. */
  lemma {:induction false} TrimStartSpec(w: Spaces, s: string)
    ensures var r := TrimStart(w, s);
            && r == s[|s| - |r|..]
            && (forall i :: 0 <= i < |s| - |r| ==> IsBlank(w, s[i]))
            && (|r| > 0 ==> !IsBlank(w, r[0]))
    decreases |s|
  {
    if |s| > 0 && IsBlank(w, s[0]) {
      TrimStartSpec(w, s[1..]);
      var r := TrimStart(w, s[1..]);
      assert forall i :: 1 <= i < |s| - |r| ==> s[i] == s[1..][i - 1];
    }
  }

  /** `rstrip` removes exactly the trailing whitespace. */
  lemma {:induction false} TrimEndSpec(w: Spaces, s: string)
    ensures var r := TrimEnd(w, s);
            && r == s[..|r|]
            && (forall i :: |r| <= i < |s| ==> IsBlank(w, s[i]))
            && (|r| > 0 ==> !IsBlank(w, r[|r| - 1]))
    decreases |s|
  {
    if |s| > 0 && IsBlank(w, s[|s| - 1]) {
      TrimEndSpec(w, s[..|s| - 1]);
      var r := TrimEnd(w, s[..|s| - 1]);
      assert forall i :: |r| <= i < |s| - 1 ==> s[i] == s[..|s| - 1][i];
    }
  }

  /** Trimming leaves the infix of `s` between its leading and its trailing
      whitespace; that infix neither starts nor ends with whitespace. */
  lemma TrimSpec(w: Spaces, s: string)
    ensures var r, k := Trim(w, s), |s| - |TrimStart(w, s)|;
            && k + |r| <= |s| && r == s[k..k + |r|]
            && (forall i :: 0 <= i < k ==> IsBlank(w, s[i]))
            && (forall i :: k + |r| <= i < |s| ==> IsBlank(w, s[i]))
            && (|r| > 0 ==> !IsBlank(w, r[0]) && !IsBlank(w, r[|r| - 1]))
  {
    var t := TrimStart(w, s);
    TrimStartSpec(w, s);
    TrimEndSpec(w, t);
    var r, k := Trim(w, s), |s| - |t|;
    assert forall i :: k + |r| <= i < |s| ==> s[i] == t[i - k];
  }

  /** Text that neither starts nor ends with whitespace is left alone. */
  lemma TrimUnpadded(w: Spaces, s: string)
    requires |s| > 0 && !IsBlank(w, s[0]) && !IsBlank(w, s[|s| - 1])
    ensures Trim(w, s) == s
  {
  }

  /** Text made only of whitespace trims to nothing. */
  lemma {:induction false} TrimBlank(w: Spaces, s: string)
    requires forall i :: 0 <= i < |s| ==> IsBlank(w, s[i])
    ensures Trim(w, s) == ""
    decreases |s|
  {
    if |s| > 0 {
      TrimBlank(w, s[1..]);
      assert TrimStart(w, s) == TrimStart(w, s[1..]);
    }
  }

  /** Trimming twice is trimming once. */
  lemma TrimIdempotent(w: Spaces, s: string)
    ensures Trim(w, Trim(w, s)) == Trim(w, s)
  {
    TrimSpec(w, s);
    var r := Trim(w, s);
    if |r| > 0 {
      TrimUnpadded(w, r);
    }
  }

  /** Whatever the whitespace set, trimming finds the same infix wherever `s`
      is that infix between runs of whitespace: the infix is determined by the
      first and last characters that are not whitespace. */
  lemma TrimAround(w: Spaces, s: string, k: nat, t: string)
    requires k + |t| <= |s| && |t| > 0 && s[k..k + |t|] == t
    requires !IsBlank(w, t[0]) && !IsBlank(w, t[|t| - 1])
    requires forall i :: 0 <= i < k ==> IsBlank(w, s[i])
    requires forall i :: k + |t| <= i < |s| ==> IsBlank(w, s[i])
    ensures Trim(w, s) == t
  {
    TrimSpec(w, s);
    var r, j := Trim(w, s), |s| - |TrimStart(w, s)|;
    assert s[k] == t[0] && s[k + |t| - 1] == t[|t| - 1];
    if |r| > 0 {
      assert s[j] == r[0] && s[j + |r| - 1] == r[|r| - 1];
    }
    assert j == k;
    assert |r| == |t|;
  }

  // ---------------------------------------------------------------------------
  // int(s)
  // ---------------------------------------------------------------------------

  /** Digits with single underscores between them: the magnitude part of a
      string Python's `int()` accepts. */
  predicate IsDigitRun(s: string)
    decreases |s|
  {
    && |s| > 0 && IsDigit(s[0])
    && (|s| == 1 || IsDigitRun(s[1..]) || (s[1] == '_' && IsDigitRun(s[2..])))
  }

  /** Every non-empty string of digits is a run. */
  lemma {:induction false} DigitsAreRun(s: string)
    requires |s| > 0 && AllDigits(s)
    ensures IsDigitRun(s)
    decreases |s|
  {
    if |s| > 1 {
      DigitsAreRun(s[1..]);
    }
  }

  /** A run starts and ends with a digit, holds only digits and underscores,
      and never two underscores in a row. */
  lemma {:induction false} DigitRunShape(s: string)
    requires IsDigitRun(s)
    ensures IsDigit(s[0]) && IsDigit(s[|s| - 1])
    ensures forall i :: 0 <= i < |s| ==> IsDigit(s[i]) || s[i] == '_'
    ensures forall i :: 0 <= i < |s| - 1 ==> s[i] == '_' ==> s[i + 1] != '_'
    decreases |s|
  {
    if |s| > 1 {
      if IsDigitRun(s[1..]) {
        DigitRunShape(s[1..]);
        assert forall i :: 1 <= i < |s| ==> s[i] == s[1..][i - 1];
      } else {
        DigitRunShape(s[2..]);
        assert forall i :: 2 <= i < |s| ==> s[i] == s[2..][i - 2];
      }
    }
  }

  function DropUnderscores(s: string): (r: string)
    decreases |s|
  {
    if |s| == 0 then ""
    else if s[0] == '_' then DropUnderscores(s[1..])
    else [s[0]] + DropUnderscores(s[1..])
  }

  lemma {:induction false} DropUnderscoresOfRun(s: string)
    requires forall i :: 0 <= i < |s| ==> IsDigit(s[i]) || s[i] == '_'
    ensures AllDigits(DropUnderscores(s))
    ensures AllDigits(s) ==> DropUnderscores(s) == s
    decreases |s|
  {
    if |s| > 0 {
      DropUnderscoresOfRun(s[1..]);
    }
  }

  /** The number a digit run denotes. */
  function Magnitude(run: string): nat
    requires IsDigitRun(run)
  {
    DigitRunShape(run);
    DropUnderscoresOfRun(run);
    DigitsValue(DropUnderscores(run))
  }

  /** Python's `int(s)` on a string: optional surrounding whitespace of the
      set `int()` skips, an optional sign, then a digit run; `None` where
      Python raises `ValueError`. */
  function PyInt(s: string): Option<int> {
    var t := Trim(IntSpaces, s);
    if |t| > 0 && (t[0] == '+' || t[0] == '-') then
      if IsDigitRun(t[1..]) then
        Some(if t[0] == '-' then -(Magnitude(t[1..]) as int) else Magnitude(t[1..]))
      else None
    else if IsDigitRun(t) then Some(Magnitude(t))
    else None
  }

  /** `int()` ignores the surrounding whitespace it skips. */
  lemma PyIntStrip(s: string)
    ensures PyInt(Trim(IntSpaces, s)) == PyInt(s)
  {
    TrimIdempotent(IntSpaces, s);
  }

  /** What `int()` accepts it accepts after `str.strip()` too, with the same
      value: `str.strip()` removes all the whitespace `int()` skips and stops
      at the same sign or digit. */
  lemma PyIntOfStripped(s: string)
    requires PyInt(s).Some?
    ensures PyInt(Strip(s)) == PyInt(s)
  {
    var t, k := Trim(IntSpaces, s), |s| - |TrimStart(IntSpaces, s)|;
    TrimSpec(IntSpaces, s);
    if |t| > 0 && (t[0] == '+' || t[0] == '-') {
      DigitRunShape(t[1..]);
      assert t[|t| - 1] == t[1..][|t[1..]| - 1];
    } else {
      DigitRunShape(t);
    }
    TrimAround(StripSpaces, s, k, t);
    PyIntStrip(s);
  }

  /** The converse fails: `str.strip()` removes the separator U+001C, which
      `int()` refuses. */
  lemma PyIntRefusesSeparator()
    ensures Strip("\U{1C}20") == "20"
    ensures PyInt("\U{1C}20") == None
  {
    TrimAround(StripSpaces, "\U{1C}20", 1, "20");
  }

  /** The digits of `str(n)` form a run whose magnitude is `n`. */
  lemma DecimalIsDigitRun(n: nat)
    ensures IsDigitRun(Decimal(n)) && Magnitude(Decimal(n)) == n
  {
    var d := Decimal(n);
    DigitsAreRun(d);
    DropUnderscoresOfRun(d);
    DecimalRoundTrip(n);
  }

  /** `int(str(n)) == n`. */
  lemma PyIntDecimal(n: nat)
    ensures PyInt(Decimal(n)) == Some(n)
  {
    var d := Decimal(n);
    TrimUnpadded(IntSpaces, d);
    DecimalIsDigitRun(n);
  }

  /** `int('-' + str(n)) == -n`. */
  lemma PyIntNegDecimal(n: nat)
    ensures PyInt("-" + Decimal(n)) == Some(-(n as int))
  {
    var d := Decimal(n);
    var m := "-" + d;
    assert !IsBlank(IntSpaces, m[0]) && !IsBlank(IntSpaces, m[|m| - 1]);
    TrimUnpadded(IntSpaces, m);
    assert m[1..] == d;
    DecimalIsDigitRun(n);
  }

  /** A reply made only of whitespace is not a number, including the
      separators `int()` does not skip. */
  lemma PyIntBlank(s: string)
    requires forall i :: 0 <= i < |s| ==> IsSpace(s[i])
    ensures PyInt(s) == None
  {
    var t, k := Trim(IntSpaces, s), |s| - |TrimStart(IntSpaces, s)|;
    TrimSpec(IntSpaces, s);
    if |t| > 0 {
      assert t[0] == s[k];
    }
  }

  // ---------------------------------------------------------------------------
  // str.split(sep) and its inverse
  // ---------------------------------------------------------------------------

  /** Python's `s.split(sep)` for a one-character separator: always at least
      one piece, and no piece holds the separator. */
  function Split(s: string, sep: char): (parts: seq<string>)
    ensures |parts| >= 1
    decreases |s|
  {
    if |s| == 0 then [""]
    else
      var rest := Split(s[1..], sep);
      if s[0] == sep then [""] + rest
      else [[s[0]] + rest[0]] + rest[1..]
  }

  /** No piece holds the separator. */
  lemma {:induction false} SplitSpec(s: string, sep: char)
    ensures forall i :: 0 <= i < |Split(s, sep)| ==> sep !in Split(s, sep)[i]
    decreases |s|
  {
    if |s| > 0 {
      SplitSpec(s[1..], sep);
      var parts, rest := Split(s, sep), Split(s[1..], sep);
      if s[0] == sep {
        assert forall i :: 0 < i < |parts| ==> parts[i] == rest[i - 1];
      } else {
        assert forall i :: 0 < i < |parts| ==> parts[i] == rest[i];
      }
    }
  }

  /** Python's `sep.join(parts)`. */
  function Join(parts: seq<string>, sep: char): string
    requires |parts| >= 1
    decreases |parts|
  {
    if |parts| == 1 then parts[0] else parts[0] + [sep] + Join(parts[1..], sep)
  }

  lemma {:induction false} JoinSplit(s: string, sep: char)
    ensures Join(Split(s, sep), sep) == s
    decreases |s|
  {
    if |s| > 0 {
      var rest := Split(s[1..], sep);
      JoinSplit(s[1..], sep);
      if s[0] == sep {
        assert Split(s, sep)[1..] == rest;
      } else {
        var parts := Split(s, sep);
        if |rest| == 1 {
          assert parts == [[s[0]] + rest[0]];
        } else {
          assert parts[1..] == rest[1..];
          assert Join(rest, sep) == rest[0] + [sep] + Join(rest[1..], sep);
        }
      }
    }
  }

  lemma {:induction false} SplitPiece(x: string, sep: char)
    requires sep !in x
    ensures Split(x, sep) == [x]
    decreases |x|
  {
    if |x| > 0 {
      SplitPiece(x[1..], sep);
      assert [x[0]] + x[1..] == x;
    }
  }

  lemma {:induction false} SplitAfterPiece(x: string, sep: char, y: string)
    requires sep !in x
    ensures Split(x + [sep] + y, sep) == [x] + Split(y, sep)
    decreases |x|
  {
    var s := x + [sep] + y;
    if |x| == 0 {
      assert s[1..] == y;
    } else {
      assert s[1..] == x[1..] + [sep] + y;
      SplitAfterPiece(x[1..], sep, y);
      assert [x[0]] + x[1..] == x;
    }
  }

  lemma {:induction false} SplitJoin(parts: seq<string>, sep: char)
    requires |parts| >= 1
    requires forall i :: 0 <= i < |parts| ==> sep !in parts[i]
    ensures Split(Join(parts, sep), sep) == parts
    decreases |parts|
  {
    if |parts| == 1 {
      SplitPiece(parts[0], sep);
    } else {
      SplitJoin(parts[1..], sep);
      SplitAfterPiece(parts[0], sep, Join(parts[1..], sep));
    }
  }

  /** Every piece is empty exactly when the string holds nothing but
      separators (in particular when it is empty). */
  lemma {:induction false} SplitAllEmpty(s: string, sep: char)
    ensures (forall i :: 0 <= i < |Split(s, sep)| ==> Split(s, sep)[i] == "")
            <==> (forall k :: 0 <= k < |s| ==> s[k] == sep)
    decreases |s|
  {
    if |s| > 0 {
      SplitAllEmpty(s[1..], sep);
      var parts, rest := Split(s, sep), Split(s[1..], sep);
      if s[0] == sep {
        assert parts == [""] + rest;
        assert (forall i :: 0 <= i < |parts| ==> parts[i] == "")
               <==> (forall i :: 0 <= i < |rest| ==> rest[i] == "") by {
          assert forall i :: 0 <= i < |rest| ==> rest[i] == parts[i + 1];
        }
        assert (forall k :: 0 <= k < |s| ==> s[k] == sep)
               <==> (forall k :: 0 <= k < |s[1..]| ==> s[1..][k] == sep) by {
          assert forall k :: 0 <= k < |s| - 1 ==> s[1..][k] == s[k + 1];
        }
      } else {
        assert parts[0] != "";
      }
    }
  }
}
