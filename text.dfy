/** The stock optional value. */
module Options {
  datatype Option<T> = None | Some(value: T)
}

/**
 * The string operations the intersection tool relies on, as Python defines
 * them: `str.strip()`, `str.split(',')`, `int(...)` on a decimal string,
 * `str(n)`, and zero-padded decimal fields of `strftime`.
 */
module Text {
  import opened Options

  /** Python's `str.isspace()`: the characters `strip()` removes. */
  predicate IsSpace(c: char) {
    var n := c as int;
    || (9 <= n <= 13) || (28 <= n <= 32) || n == 0x85 || n == 0xA0 || n == 0x1680
    || (0x2000 <= n <= 0x200A) || n == 0x2028 || n == 0x2029 || n == 0x202F || n == 0x205F || n == 0x3000
  }

  /** `s` with its leading whitespace removed. */
  function TrimStart(s: string): (r: string)
    ensures |r| <= |s| && r == s[|s| - |r|..]
    ensures r == [] || !IsSpace(r[0])
  {
    if s != [] && IsSpace(s[0]) then TrimStart(s[1..]) else s
  }

  /** Only whitespace is removed from the start. */
  lemma {:induction false} TrimStartSpaces(s: string)
    ensures forall i | 0 <= i < |s| - |TrimStart(s)| :: IsSpace(s[i])
    decreases |s|
  {
    if s != [] && IsSpace(s[0]) {
      TrimStartSpaces(s[1..]);
      forall i | 1 <= i < |s| - |TrimStart(s)| ensures IsSpace(s[i]) {
        assert s[i] == s[1..][i - 1];
      }
    }
  }

  /** `s` with its trailing whitespace removed. */
  function TrimEnd(s: string): (r: string)
    ensures |r| <= |s| && r == s[..|r|]
    ensures r == [] || !IsSpace(r[|r| - 1])
  {
    if s != [] && IsSpace(s[|s| - 1]) then TrimEnd(s[..|s| - 1]) else s
  }

  /** Only whitespace is removed from the end. */
  lemma {:induction false} TrimEndSpaces(s: string)
    ensures forall i | |TrimEnd(s)| <= i < |s| :: IsSpace(s[i])
    decreases |s|
  {
    if s != [] && IsSpace(s[|s| - 1]) {
      TrimEndSpaces(s[..|s| - 1]);
      forall i | |TrimEnd(s)| <= i < |s| - 1 ensures IsSpace(s[i]) {
        assert s[i] == s[..|s| - 1][i];
      }
    }
  }

  /** Python's `s.strip()`. */
  function Strip(s: string): (r: string)
    ensures r != [] ==> !IsSpace(r[0]) && !IsSpace(r[|r| - 1])
  {
    TrimEnd(TrimStart(s))
  }

  /** `s.strip()` is empty exactly when every character of `s` is whitespace. */
  lemma StripEmpty(s: string)
    ensures Strip(s) == [] <==> forall i | 0 <= i < |s| :: IsSpace(s[i])
  {
    TrimStartSpaces(s);
    TrimEndSpaces(TrimStart(s));
  }

  /** Stripping a string that neither starts nor ends with whitespace leaves it alone. */
  lemma StripUnchanged(s: string)
    requires s != [] && !IsSpace(s[0]) && !IsSpace(s[|s| - 1])
    ensures Strip(s) == s
  {
    assert TrimStart(s) == s;
  }

  /** Position of the first occurrence of `c` in `s`. */
  function IndexOf(s: string, c: char): (i: nat)
    requires c in s
    ensures i < |s| && s[i] == c && c !in s[..i]
  {
    if s[0] == c then 0 else 1 + IndexOf(s[1..], c)
  }

  /** Python's `sep.join(parts)` for a one-character separator. */
  function Join(parts: seq<string>, sep: char): string
    requires |parts| >= 1
  {
    if |parts| == 1 then parts[0] else parts[0] + [sep] + Join(parts[1..], sep)
  }

  /** Python's `s.split(sep)` for a one-character separator. */
  function Split(s: string, sep: char): (parts: seq<string>)
    ensures |parts| >= 1
    ensures forall p | p in parts :: sep !in p
    ensures Join(parts, sep) == s
    decreases |s|
  {
    if sep !in s then [s]
    else
      var i := IndexOf(s, sep);
      var rest := Split(s[i + 1..], sep);
      assert s == s[..i] + [sep] + s[i + 1..];
      [s[..i]] + rest
  }

  /** Splitting a join of separator-free parts gives the parts back. */
  lemma {:induction false} SplitJoin(parts: seq<string>, sep: char)
    requires |parts| >= 1
    requires forall p | p in parts :: sep !in p
    ensures Split(Join(parts, sep), sep) == parts
    decreases |parts|
  {
    if |parts| > 1 {
      var s := Join(parts, sep);
      assert s == parts[0] + [sep] + Join(parts[1..], sep);
      assert sep in s by { assert s[|parts[0]|] == sep; }
      var i := IndexOf(s, sep);
      assert s[..|parts[0]|] == parts[0];
      assert i == |parts[0]| by {
        assert sep !in s[..|parts[0]|];
        assert sep !in s[..i];
      }
      assert s[..i] == parts[0];
      assert s[i + 1..] == Join(parts[1..], sep);
      SplitJoin(parts[1..], sep);
    } else {
      assert sep !in parts[0];
    }
  }

  predicate IsDigit(c: char) {
    '0' <= c <= '9'
  }

  function DigitValue(c: char): nat
    requires IsDigit(c)
  {
    (c as int) - ('0' as int)
  }

  function DigitChar(d: nat): (c: char)
    requires d < 10
    ensures IsDigit(c) && DigitValue(c) == d
  {
    ('0' as int + d) as char
  }

  /**
   * The decimal strings Python's `int()` accepts after its own stripping:
   * ASCII digits, with single underscores allowed between two digits.
   */
  predicate IsDecimal(s: string)
    decreases |s|
  {
    && |s| > 0
    && IsDigit(s[0])
    && (|s| == 1 || IsDecimal(if s[1] == '_' then s[2..] else s[1..]))
  }

  /** A non-empty run of digits is a decimal string. */
  lemma {:induction false} DigitsAreDecimal(s: string)
    requires |s| > 0 && forall c | c in s :: IsDigit(c)
    ensures IsDecimal(s)
    decreases |s|
  {
    if |s| > 1 {
      assert s[1] in s;
      assert forall c | c in s[1..] :: c in s;
      DigitsAreDecimal(s[1..]);
    }
  }

  /** The value of a decimal string; the underscores (any non-digit) are skipped. */
  function DecimalValue(s: string): nat {
    if s == [] then 0
    else
      var last := s[|s| - 1];
      if IsDigit(last) then DecimalValue(s[..|s| - 1]) * 10 + DigitValue(last)
      else DecimalValue(s[..|s| - 1])
  }

  /**
   * Python's default limit on the number of decimal digits `int()` reads and
   * `str()` writes (`sys.int_info.default_max_str_digits`); beyond it both
   * raise ValueError.
   */
  const MaxStrDigits: nat := 4300

  /** Number of decimal digits in `s`; signs and underscores do not count. */
  function DigitCount(s: string): (n: nat)
    ensures n <= |s|
  {
    if s == [] then 0 else (if IsDigit(s[0]) then 1 else 0) + DigitCount(s[1..])
  }

  /** In a run of digits every character counts. */
  lemma {:induction false} DigitCountOfDigits(s: string)
    requires forall c | c in s :: IsDigit(c)
    ensures DigitCount(s) == |s|
    decreases |s|
  {
    if s != [] {
      assert s[0] in s;
      assert forall c | c in s[1..] :: c in s;
      DigitCountOfDigits(s[1..]);
    }
  }

  /**
   * Python's `int(s)` for a string without surrounding whitespace: None where
   * it raises ValueError, which includes more than `MaxStrDigits` digits.
   */
  function ParseInt(s: string): Option<int> {
    if |s| > 0 && (s[0] == '-' || s[0] == '+') then
      var body := s[1..];
      if IsDecimal(body) && DigitCount(body) <= MaxStrDigits then
        var v: int := DecimalValue(body);
        Some(if s[0] == '-' then -v else v)
      else None
    else if IsDecimal(s) && DigitCount(s) <= MaxStrDigits then Some(DecimalValue(s))
    else None
  }

  /** A string with more than `MaxStrDigits` digits never parses. */
  lemma ParseIntDigitLimit(s: string)
    ensures ParseInt(s).Some? ==> DigitCount(s) <= MaxStrDigits
  {
    if |s| > 0 && (s[0] == '-' || s[0] == '+') {
      assert DigitCount(s) == DigitCount(s[1..]);
    }
  }

  /** Decimal digits of `n` without leading zeros. */
  function Digits(n: nat): (r: string)
    ensures |r| > 0 && forall c | c in r :: IsDigit(c)
  {
    if n < 10 then [DigitChar(n)]
    else
      var r := Digits(n / 10) + [DigitChar(n % 10)];
      assert forall c | c in r :: c in Digits(n / 10) || c == DigitChar(n % 10);
      r
  }

  /** Python's `str(n)`. */
  function Show(n: int): string {
    if n < 0 then "-" + Digits(-n) else Digits(n)
  }

  /** `str(n)` succeeds: `n` has at most `MaxStrDigits` digits. */
  predicate Showable(n: int) {
    |Digits(if n < 0 then -n else n)| <= MaxStrDigits
  }

  lemma {:induction false} DigitsValue(n: nat)
    ensures IsDecimal(Digits(n)) && DecimalValue(Digits(n)) == n
  {
    DigitsAreDecimal(Digits(n));
    if n >= 10 {
      DigitsValue(n / 10);
      var r := Digits(n);
      assert r[..|r| - 1] == Digits(n / 10);
    }
  }

  /** An unsigned decimal string parses to its value. */
  lemma ParseDecimal(d: string)
    requires IsDecimal(d) && DigitCount(d) <= MaxStrDigits
    ensures ParseInt(d) == Some(DecimalValue(d))
  {
    assert d[0] != '-' && d[0] != '+';
  }

  /** A minus sign followed by a decimal string parses to the negated value. */
  lemma ParseNegative(d: string)
    requires IsDecimal(d) && DigitCount(d) <= MaxStrDigits
    ensures ParseInt("-" + d) == Some(-(DecimalValue(d) as int))
  {
    assert ("-" + d)[1..] == d;
  }

  /** `int(str(n)) == n` wherever `str(n)` succeeds. */
  lemma ParseShow(n: int)
    requires Showable(n)
    ensures ParseInt(Show(n)) == Some(n)
  {
    if n < 0 {
      var d := Digits(-n);
      DigitsValue(-n);
      DigitCountOfDigits(d);
      calc {
        ParseInt(Show(n));
        ParseInt("-" + d);
        { ParseNegative(d); }
        Some(-(DecimalValue(d) as int));
      }
    } else {
      var d := Digits(n);
      DigitsValue(n);
      DigitCountOfDigits(d);
      calc {
        ParseInt(Show(n));
        ParseInt(d);
        { ParseDecimal(d); }
        Some(DecimalValue(d) as int);
      }
    }
  }

  /** `str(n)` has no whitespace at either end, and no comma. */
  lemma ShowShape(n: int)
    ensures Show(n) != [] && !IsSpace(Show(n)[0]) && !IsSpace(Show(n)[|Show(n)| - 1])
    ensures ',' !in Show(n)
  {
    var r := Show(n);
    if n < 0 {
      assert r[|r| - 1] in Digits(-n);
    } else {
      assert r[0] in Digits(n) && r[|r| - 1] in Digits(n);
    }
  }

  /** The last `width` decimal digits of `n`, zero-padded (strftime's `%Y`, `%m`, ...). */
  function PadDigits(n: nat, width: nat): (r: string)
    ensures |r| == width && forall c | c in r :: IsDigit(c)
  {
    if width == 0 then []
    else
      var r := PadDigits(n / 10, width - 1) + [DigitChar(n % 10)];
      assert forall c | c in r :: c in PadDigits(n / 10, width - 1) || c == DigitChar(n % 10);
      r
  }

  function Pow10(k: nat): nat {
    if k == 0 then 1 else 10 * Pow10(k - 1)
  }

  /** A zero-padded field reads back as the number it was made from. */
  lemma {:induction false} PadDigitsValue(n: nat, width: nat)
    requires n < Pow10(width)
    ensures DecimalValue(PadDigits(n, width)) == n
  {
    if width > 0 {
      PadDigitsValue(n / 10, width - 1);
      var r := PadDigits(n, width);
      assert r[..|r| - 1] == PadDigits(n / 10, width - 1);
    }
  }
}
