/** Value types and the handful of Kotlin/JVM library behaviours that the
    services rely on: nullable values, 32- and 64-bit integers, `isBlank`,
    `trim`, `toLowerCase`/`toUpperCase`, `toLong`/`toInt`, `Long.toString`,
    `Iterable.map`, and rows coming back from the database in no set order. */
module Common {

  /** Kotlin's nullable `T?`. */
  datatype Option<T> = None | Some(value: T)

  /** What `EntityManager.persist` does with a new entity: it is stored, or
      bean validation rejects it (`ConstraintViolationException`), or the
      database refuses it (a unique key, an exhausted id generator). */
  datatype PersistOutcome<T> = Stored(value: T) | ConstraintViolation | PersistFailure

  const MinInt32: int := -0x8000_0000
  const MaxInt32: int := 0x7fff_ffff
  const MinInt64: int := -0x8000_0000_0000_0000
  const MaxInt64: int := 0x7fff_ffff_ffff_ffff

  /** Kotlin `Int`. */
  type Int32 = x: int | -0x8000_0000 <= x <= 0x7fff_ffff
  /** Kotlin `Long`. */
  type Int64 = x: int | -0x8000_0000_0000_0000 <= x <= 0x7fff_ffff_ffff_ffff

  /** The JVM's narrowing of a wider integer to `Int`: keep the low 32 bits,
      read them as two's complement. */
  function Wrap32(n: int): (r: Int32)
    ensures (r - n) % 0x1_0000_0000 == 0
    ensures MinInt32 <= n <= MaxInt32 ==> r == n
  {
    var m := n % 0x1_0000_0000;
    if m > MaxInt32 then m - 0x1_0000_0000 else m
  }

  // ---------------------------------------------------------------------
  // Blank strings and trimming (Kotlin `Char.isWhitespace`)
  // ---------------------------------------------------------------------

  /** `Char.isWhitespace` on the JVM: the ASCII controls TAB..CR and FS..US,
      and the Unicode space, line and paragraph separators. The separator
      table is that of Unicode 6.2 (Java 8), where the Mongolian vowel
      separator U+180E is still a space separator. */
  predicate IsWhitespace(c: char) {
    c == ' ' || ('\t' <= c <= '\r') || ('\U{1C}' <= c <= '\U{1F}')
    || c == '\U{A0}' || c == '\U{1680}' || c == '\U{180E}' || ('\U{2000}' <= c <= '\U{200A}')
    || c == '\U{2028}' || c == '\U{2029}' || c == '\U{202F}' || c == '\U{205F}' || c == '\U{3000}'
  }

  /** `String.isBlank()`: empty or whitespace only. */
  predicate IsBlank(s: string) {
    forall i | 0 <= i < |s| :: IsWhitespace(s[i])
  }

  /** `String?.isNullOrBlank()`. */
  predicate IsNullOrBlank(s: Option<string>) {
    s.None? || IsBlank(s.value)
  }

  /** `String?.isNullOrEmpty()`. */
  predicate IsNullOrEmpty(s: Option<string>) {
    s.None? || |s.value| == 0
  }

  /** What Hibernate Validator's `@NotBlank` rejects: `toString().trim()` is
      empty, where Java's `String.trim` strips every character up to U+0020.
      This is not Kotlin's `isBlank` (see BlankTestsDiffer). */
  predicate TrimsToEmpty(s: string) {
    forall i | 0 <= i < |s| :: s[i] <= ' '
  }

  /** The two blank tests disagree both ways: a control character trims to
      nothing but is not whitespace, and a no-break space is whitespace but
      survives `trim`. */
  lemma BlankTestsDiffer()
    ensures TrimsToEmpty("\U{1}") && !IsBlank("\U{1}")
    ensures IsBlank("\U{A0}") && !TrimsToEmpty("\U{A0}")
  {
    assert !IsWhitespace("\U{1}"[0]);
    assert "\U{A0}"[0] > ' ';
  }

  /** Drops leading whitespace; what is dropped is blank and what is kept is
      a suffix that starts with a non-whitespace character, if any. */
  function TrimStart(s: string): (r: string)
    ensures |r| <= |s| && r == s[|s| - |r|..]
    ensures IsBlank(s[..|s| - |r|])
    ensures r == [] || !IsWhitespace(r[0])
  {
    if |s| > 0 && IsWhitespace(s[0]) then TrimStart(s[1..]) else s
  }

  /** Drops trailing whitespace; what is dropped is blank and what is kept
      is a prefix that ends with a non-whitespace character, if any. */
  function TrimEnd(s: string): (r: string)
    ensures |r| <= |s| && r == s[..|r|]
    ensures IsBlank(s[|r|..])
    ensures r == [] || !IsWhitespace(r[|r| - 1])
  {
    if |s| > 0 && IsWhitespace(s[|s| - 1]) then
      var r := TrimEnd(s[..|s| - 1]);
      assert forall i | |r| <= i < |s| - 1 :: s[..|s| - 1][|r|..][i - |r|] == s[i];
      r
    else s
  }

  /** `String.trim()`. */
  function Trim(s: string): string {
    TrimEnd(TrimStart(s))
  }

  /** Trimming neither creates nor removes blankness, so
      `s.trim().isNullOrBlank()` is the same test as `s.isBlank()`. */
  lemma {:induction false} TrimKeepsBlank(s: string)
    ensures IsBlank(Trim(s)) <==> IsBlank(s)
  {
    var t := TrimStart(s);
    var r := TrimEnd(t);
    if !IsBlank(s) {
      assert t != [];
      assert r != [];
    }
  }

  // ---------------------------------------------------------------------
  // Letter case (ASCII letters only)
  // ---------------------------------------------------------------------

  function LowerChar(c: char): char {
    if 'A' <= c <= 'Z' then (c as int + 32) as char else c
  }

  function UpperChar(c: char): char {
    if 'a' <= c <= 'z' then (c as int - 32) as char else c
  }

  /** `String.toLowerCase()` on ASCII letters. */
  function ToLower(s: string): (r: string)
    ensures |r| == |s|
  {
    seq(|s|, i requires 0 <= i < |s| => LowerChar(s[i]))
  }

  /** `String.toUpperCase()` on ASCII letters. */
  function ToUpper(s: string): (r: string)
    ensures |r| == |s|
  {
    seq(|s|, i requires 0 <= i < |s| => UpperChar(s[i]))
  }

  /** Lower-casing twice is lower-casing once: a name that was lowered by
      one service comes out unchanged when the next service lowers it. */
  lemma ToLowerIdempotent(s: string)
    ensures ToLower(ToLower(s)) == ToLower(s)
  {
    assert forall i | 0 <= i < |s| :: ToLower(ToLower(s))[i] == ToLower(s)[i];
  }

  /** Lower-casing changes no whitespace, so it keeps a name blank or
      non-blank, and keeps its length. */
  lemma ToLowerKeepsBlank(s: string)
    ensures IsBlank(ToLower(s)) <==> IsBlank(s)
    ensures |ToLower(s)| == |s|
  {
    assert forall i | 0 <= i < |s| :: ToLower(s)[i] == LowerChar(s[i]);
  }

  // ---------------------------------------------------------------------
  // Decimal numbers: `String.toLong()`, `String.toInt()`, `Long.toString()`
  // ---------------------------------------------------------------------

  /** The code point of the zero of the decimal digit block `c` lies in, or
      -1. `Character.digit(c, 10)`, which `parseLong` and `parseInt` use,
      accepts every decimal digit (general category Nd) of the Basic
      Multilingual Plane; these are the blocks of Unicode 6.2, the table of
      Java 8. (A digit outside that plane is a surrogate pair in a Java
      string, and `digit` rejects each half.) */
  function DigitZero(c: char): (z: int)
    ensures z == -1 || (z <= c as int < z + 10)
  {
    var x := c as int;
    if 0x30 <= x <= 0x39 then 0x30
    else if 0x660 <= x <= 0x669 then 0x660
    else if 0x6F0 <= x <= 0x6F9 then 0x6F0
    else if 0x7C0 <= x <= 0x7C9 then 0x7C0
    else if 0x966 <= x <= 0x96F then 0x966
    else if 0x9E6 <= x <= 0x9EF then 0x9E6
    else if 0xA66 <= x <= 0xA6F then 0xA66
    else if 0xAE6 <= x <= 0xAEF then 0xAE6
    else if 0xB66 <= x <= 0xB6F then 0xB66
    else if 0xBE6 <= x <= 0xBEF then 0xBE6
    else if 0xC66 <= x <= 0xC6F then 0xC66
    else if 0xCE6 <= x <= 0xCEF then 0xCE6
    else if 0xD66 <= x <= 0xD6F then 0xD66
    else if 0xE50 <= x <= 0xE59 then 0xE50
    else if 0xED0 <= x <= 0xED9 then 0xED0
    else if 0xF20 <= x <= 0xF29 then 0xF20
    else if 0x1040 <= x <= 0x1049 then 0x1040
    else if 0x1090 <= x <= 0x1099 then 0x1090
    else if 0x17E0 <= x <= 0x17E9 then 0x17E0
    else if 0x1810 <= x <= 0x1819 then 0x1810
    else if 0x1946 <= x <= 0x194F then 0x1946
    else if 0x19D0 <= x <= 0x19D9 then 0x19D0
    else if 0x1A80 <= x <= 0x1A89 then 0x1A80
    else if 0x1A90 <= x <= 0x1A99 then 0x1A90
    else if 0x1B50 <= x <= 0x1B59 then 0x1B50
    else if 0x1BB0 <= x <= 0x1BB9 then 0x1BB0
    else if 0x1C40 <= x <= 0x1C49 then 0x1C40
    else if 0x1C50 <= x <= 0x1C59 then 0x1C50
    else if 0xA620 <= x <= 0xA629 then 0xA620
    else if 0xA8D0 <= x <= 0xA8D9 then 0xA8D0
    else if 0xA900 <= x <= 0xA909 then 0xA900
    else if 0xA9D0 <= x <= 0xA9D9 then 0xA9D0
    else if 0xAA50 <= x <= 0xAA59 then 0xAA50
    else if 0xABF0 <= x <= 0xABF9 then 0xABF0
    else if 0xFF10 <= x <= 0xFF19 then 0xFF10
    else -1
  }

  /** `Character.digit(c, 10) >= 0`. */
  predicate IsDigit(c: char) { DigitZero(c) >= 0 }

  predicate AllDigits(s: string) {
    forall i | 0 <= i < |s| :: IsDigit(s[i])
  }

  /** `Character.digit(c, 10)`: the position of `c` in its digit block. */
  function DigitValue(c: char): (d: nat)
    requires IsDigit(c)
    ensures d < 10
  {
    c as int - DigitZero(c)
  }

  /** The ASCII digit `Long.toString` writes for `d`. */
  function DigitChar(d: nat): (c: char)
    requires d < 10
    ensures IsDigit(c) && DigitValue(c) == d
  {
    ('0' as int + d) as char
  }

  /** Value of a string of decimal digits, most significant first. */
  function DigitsValue(s: string): nat
    requires AllDigits(s)
  {
    if |s| == 0 then 0 else DigitsValue(s[..|s| - 1]) * 10 + DigitValue(s[|s| - 1])
  }

  /** What `java.lang.Long.parseLong` and `Integer.parseInt` accept: an
      optional sign, then at least one decimal digit of any script (see
      DigitZero), and a value in [lo, hi]. */
  function ParseIntegerIn(s: string, lo: int, hi: int): (r: Option<int>)
    ensures r.Some? ==> lo <= r.value <= hi
  {
    if |s| == 0 then None
    else
      var digits := if s[0] == '-' || s[0] == '+' then s[1..] else s;
      if |digits| == 0 || !AllDigits(digits) then None
      else
        var v: int := if s[0] == '-' then -(DigitsValue(digits) as int) else DigitsValue(digits);
        if lo <= v <= hi then Some(v) else None
  }

  /** `String.toLong()`; `None` is the `NumberFormatException`. */
  function ParseLong(s: string): Option<Int64> {
    var r := ParseIntegerIn(s, MinInt64, MaxInt64);
    if r.None? then None else Some(r.value)
  }

  /** `String.toInt()`; `None` is the `NumberFormatException`. */
  function ParseInt(s: string): Option<Int32> {
    var r := ParseIntegerIn(s, MinInt32, MaxInt32);
    if r.None? then None else Some(r.value)
  }

  /** A number written in another script's digits reads as that number:
      Arabic-Indic one-two is 12, and minus fullwidth one-zero is -10. */
  lemma OtherScriptDigitsParse()
    ensures ParseLong("\U{661}\U{662}") == Some(12)
    ensures ParseInt("-\U{FF11}\U{FF10}") == Some(-10)
  {
    assert DigitValue('\U{661}') == 1 && DigitValue('\U{662}') == 2;
    assert "\U{661}\U{662}"[..1] == "\U{661}" && "\U{661}"[..0] == "";
    assert DigitsValue("\U{661}\U{662}") == 12;
    assert DigitValue('\U{FF11}') == 1 && DigitValue('\U{FF10}') == 0;
    assert ("-\U{FF11}\U{FF10}")[1..] == "\U{FF11}\U{FF10}";
    assert "\U{FF11}\U{FF10}"[..1] == "\U{FF11}" && "\U{FF11}"[..0] == "";
    assert DigitsValue("\U{FF11}\U{FF10}") == 10;
  }

  /** Decimal digits of a natural number, without leading zeros. */
  function NatToString(n: nat): (r: string)
    ensures |r| > 0 && AllDigits(r) && DigitsValue(r) == n
  {
    if n < 10 then [DigitChar(n)]
    else
      var prefix := NatToString(n / 10);
      var r := prefix + [DigitChar(n % 10)];
      assert r[..|r| - 1] == prefix;
      r
  }

  /** `Long.toString()`. */
  function LongToString(n: int): string {
    if n < 0 then "-" + NatToString(-n) else NatToString(n)
  }

  /** Reading back the decimal text of an integer gives the integer when
      it lies in the accepted range, and a format error otherwise. */
  lemma ParseIntegerRoundTrip(n: int, lo: int, hi: int)
    ensures ParseIntegerIn(LongToString(n), lo, hi) == if lo <= n <= hi then Some(n) else None
  {
    var s := LongToString(n);
    if n < 0 {
      assert s[1..] == NatToString(-n);
      assert s[0] == '-';
    } else {
      var d := NatToString(n);
      assert IsDigit(d[0]);
    }
  }

  /** Reading back the decimal text of a `Long` gives the `Long`. */
  lemma ParseLongRoundTrip(n: Int64)
    ensures ParseLong(LongToString(n)) == Some(n)
  {
    ParseIntegerRoundTrip(n, MinInt64, MaxInt64);
  }

  // ---------------------------------------------------------------------
  // Collections
  // ---------------------------------------------------------------------

  /** Kotlin `Iterable.map`: element by element, same length, same order. */
  function MapSeq<A, B>(f: A -> B, s: seq<A>): (r: seq<B>)
    ensures |r| == |s|
    ensures forall i | 0 <= i < |s| :: r[i] == f(s[i])
  {
    if |s| == 0 then [] else [f(s[0])] + MapSeq(f, s[1..])
  }

  /** Rows returned by a query without ORDER BY: every element of the set
      once, in an order the model leaves open. */
  method Enumerate<T>(s: set<T>) returns (r: seq<T>)
    ensures forall x :: x in r <==> x in s
    ensures forall i, j | 0 <= i < j < |r| :: r[i] != r[j]
    ensures |r| == |s|
  {
    r := [];
    var rest := s;
    while rest != {}
      invariant rest <= s
      invariant forall x :: x in r <==> x in s && x !in rest
      invariant forall i, j | 0 <= i < j < |r| :: r[i] != r[j]
      invariant |r| + |rest| == |s|
      decreases |rest|
    {
      var x :| x in rest;
      r := r + [x];
      rest := rest - {x};
    }
  }
}
