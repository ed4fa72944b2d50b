/**
 * The spellings of literal constants and the values the constant nodes keep:
 * decimal integers at width 64, BOZ literals (binary, octal and hexadecimal
 * digit strings between quotes), logical literals and character literals.
 * The digit parsers of llvm::APInt and llvm::StringRef are modelled by their
 * documented behaviour.
 */
module Literals {
  import opened Wrappers
  import opened NumericStorage
  import opened ExprKinds

  // ---- digit strings ----

  /** A digit as StringRef::getAsInteger reads it: '0'-'9', then 'a'-'z' and 'A'-'Z' from ten on. */
  function DigitValue(c: char): (d: Option<nat>)
    ensures d.Some? ==> d.value < 36
  {
    if '0' <= c <= '9' then Some(c as nat - '0' as nat)
    else if 'a' <= c <= 'z' then Some(c as nat - 'a' as nat + 10)
    else if 'A' <= c <= 'Z' then Some(c as nat - 'A' as nat + 10)
    else None
  }

  predicate IsDigit(c: char, radix: nat) {
    DigitValue(c).Some? && DigitValue(c).value < radix
  }

  predicate AllDigits(s: string, radix: nat) {
    forall i :: 0 <= i < |s| ==> IsDigit(s[i], radix)
  }

  /** The number a digit string denotes in `radix`, most significant digit first. */
  function DigitsValue(s: string, radix: nat): nat
    requires AllDigits(s, radix)
  {
    if |s| == 0 then 0
    else DigitsValue(s[..|s| - 1], radix) * radix + DigitValue(s[|s| - 1]).value
  }

  /** The upper-case digit character of `d`. */
  function DigitChar(d: nat): (c: char)
    requires d < 16
    ensures DigitValue(c) == Some(d)
  {
    "0123456789ABCDEF"[d]
  }

  /** The digits of `n` in `radix`, without leading zeros ("0" for zero). */
  function FormatDigits(n: nat, radix: nat): (s: string)
    requires 2 <= radix <= 16
    ensures |s| > 0 && AllDigits(s, radix)
    decreases n
  {
    if n < radix then [DigitChar(n)]
    else
      DivShrinks(n, radix);
      FormatDigits(n / radix, radix) + [DigitChar(n % radix)]
  }

  /** Appending a digit multiplies by the radix and adds the digit. */
  lemma DigitsValueSnoc(init: string, c: char, radix: nat)
    requires AllDigits(init, radix) && IsDigit(c, radix)
    ensures AllDigits(init + [c], radix)
    ensures DigitsValue(init + [c], radix) == DigitsValue(init, radix) * radix + DigitValue(c).value
  {
    var s := init + [c];
    assert s[..|s| - 1] == init;
  }

  /** Euclidean division by the radix. */
  lemma DivMod(n: nat, radix: nat)
    requires 2 <= radix
    ensures (n / radix) * radix + n % radix == n
  {
  }

  /** Division by the radix shrinks a positive number. */
  lemma DivShrinks(n: nat, radix: nat)
    requires n >= 1 && radix >= 2
    ensures n / radix < n
  {
    var q := n / radix;
    assert q * radix <= n;
    assert q * radix >= q * 2;
  }

  /** Reading back the digits of `n` gives `n`. */
  lemma {:induction false} FormatDigitsRoundTrip(n: nat, radix: nat)
    requires 2 <= radix <= 16
    ensures DigitsValue(FormatDigits(n, radix), radix) == n
    decreases n
  {
    if n >= radix {
      var m, d := n / radix, n % radix;
      var init := FormatDigits(m, radix);
      assert FormatDigits(n, radix) == init + [DigitChar(d)];
      DivShrinks(n, radix);
      FormatDigitsRoundTrip(m, radix);
      assert DigitsValue(init, radix) == m;
      DigitsValueSnoc(init, DigitChar(d), radix);
      assert DigitsValue(init + [DigitChar(d)], radix) == m * radix + d;
      DivMod(n, radix);
    }
  }

  /** A zero in front of a digit string does not change its value. */
  lemma {:induction false} LeadingZeroNeutral(s: string, radix: nat)
    requires 2 <= radix && AllDigits(s, radix)
    ensures AllDigits("0" + s, radix) && DigitsValue("0" + s, radix) == DigitsValue(s, radix)
  {
    var t := "0" + s;
    assert AllDigits(t, radix) by {
      forall i | 0 <= i < |t| ensures IsDigit(t[i], radix) {
        if i > 0 { assert t[i] == s[i - 1]; }
      }
    }
    if |s| > 0 {
      LeadingZeroNeutral(s[..|s| - 1], radix);
      assert t[..|t| - 1] == "0" + s[..|s| - 1];
    }
  }

  /** One more digit below the radix keeps a value below the next power. */
  lemma HornerBound(v: nat, d: nat, p: nat, r: nat)
    requires v < p && d < r
    ensures v * r + d < p * r
  {
    assert v * r + d < v * r + r == (v + 1) * r;
    assert (v + 1) * r <= p * r;
  }

  /** A digit string of `n` digits in radix 2^k is below 2^(k*n). */
  lemma {:induction false} DigitsValueBound(s: string, k: nat)
    requires AllDigits(s, Pow2(k))
    ensures DigitsValue(s, Pow2(k)) < Pow2(k * |s|)
  {
    if |s| > 0 {
      var init := s[..|s| - 1];
      var R := Pow2(k);
      assert AllDigits(init, R);
      DigitsValueBound(init, k);
      var e := k * |init|;
      HornerBound(DigitsValue(init, R), DigitValue(s[|s| - 1]).value, Pow2(e), R);
      assert DigitsValue(s, R) == DigitsValue(init, R) * R + DigitValue(s[|s| - 1]).value;
      Pow2Add(e, k);
      MulSucc(k, |init|);
    }
  }

  /** Distributing over a successor. */
  lemma MulSucc(k: nat, n: nat)
    ensures k * (n + 1) == k * n + k
  {
  }

  // ---- modular arithmetic of 64-bit accumulation ----

  /** Reducing modulo 2^64 before one decimal Horner step gives the same residue as reducing after it. */
  lemma ModStep(x: nat, d: nat)
    ensures ((x % WORD) * 10 + d) % WORD == (x * 10 + d) % WORD
  {
    var q := x / WORD;
    assert x == q * WORD + x % WORD;
    assert x * 10 + d == (x % WORD) * 10 + d + (10 * q) * WORD;
  }

  /** The residue modulo 2^64 is the remainder of any decomposition by 2^64. */
  lemma ResidueUnique(a: int, q: int, r: int)
    requires a == q * WORD + r && 0 <= r < WORD
    ensures a % WORD == r
  {
  }

  /** The residue of -x modulo 2^64: 2^64 minus the residue of x, or zero. */
  lemma NegMod(x: nat)
    ensures (-(x as int)) % WORD == (WORD - x % WORD) % WORD
  {
    var q, r := x / WORD, x % WORD;
    ResidueUnique(x, q, r);
    if r == 0 {
      ResidueUnique(-(x as int), -q, 0);
      ResidueUnique(WORD, 1, 0);
    } else {
      ResidueUnique(-(x as int), -q - 1, WORD - r);
      ResidueUnique(WORD - r, 0, WORD - r);
    }
  }

  // ---- decimal integer literals ----

  /** An optional sign, as the APInt string constructor accepts one. */
  function Magnitude(data: string): string {
    if |data| > 0 && (data[0] == '+' || data[0] == '-') then data[1..] else data
  }

  /** The strings APInt(64, Data, 10) accepts: an optional sign, then one or more decimal digits. */
  predicate IsDecimalString(data: string) {
    |Magnitude(data)| > 0 && AllDigits(Magnitude(data), 10)
  }

  /**
   * APInt's string constructor asserts that the digits fit the width
   * ("Insufficient bit width"): for radix 10 and width 64 the check
   * `((slen - 1) * 64) / 22 <= 64` on the digit count `slen` allows at most
   * 23 digits, leading zeros included.
   */
  predicate FitsDecimalWidth(data: string) {
    |Magnitude(data)| <= 23
  }

  /** The mathematical value of a decimal string. */
  function SignedValue(data: string): int
    requires IsDecimalString(data)
  {
    if data[0] == '-' then -(DigitsValue(Magnitude(data), 10) as int) else DigitsValue(Magnitude(data), 10)
  }

  /** The digit-by-digit accumulation of APInt's string constructor in 64-bit words. */
  function Decimal64(s: string): (r: nat)
    requires AllDigits(s, 10)
    ensures r < WORD && r == DigitsValue(s, 10) % WORD
  {
    if |s| == 0 then 0
    else
      var init := Decimal64(s[..|s| - 1]);
      ModStep(DigitsValue(s[..|s| - 1], 10), DigitValue(s[|s| - 1]).value);
      (init * 10 + DigitValue(s[|s| - 1]).value) % WORD
  }

  /**
   * IntegerConstantExpr: `APInt(64, Data, 10)`. The stored value is the
   * literal's value modulo 2^64 (two's complement for a negative sign).
   */
  function IntegerLiteralValue(data: string): (r: ApInt)
    requires IsDecimalString(data) && FitsDecimalWidth(data)
    ensures WellFormed(r) && r.bitWidth == 64
    ensures Value(r) == SignedValue(data) % WORD
  {
    var n := Decimal64(Magnitude(data));
    Pow2Word();
    NegMod(DigitsValue(Magnitude(data), 10));
    MakeApInt(64, if data[0] == '-' then (WORD - n) % WORD else n)
  }

  /** An unsigned digit string is its own magnitude and denotes its digits' value. */
  lemma UnsignedDecimal(data: string)
    requires |data| > 0 && AllDigits(data, 10)
    ensures IsDecimalString(data) && SignedValue(data) == DigitsValue(data, 10)
  {
    assert IsDigit(data[0], 10);
    assert Magnitude(data) == data;
  }

  /** A digit string whose value fits in 64 bits is stored exactly. */
  lemma IntegerLiteralExact(data: string)
    requires |data| > 0 && |data| <= 23 && AllDigits(data, 10) && DigitsValue(data, 10) < WORD
    ensures IsDecimalString(data) && FitsDecimalWidth(data)
    ensures Value(IntegerLiteralValue(data)) == DigitsValue(data, 10)
  {
    UnsignedDecimal(data);
    SmallResidue(DigitsValue(data, 10));
  }

  lemma SmallResidue(v: int)
    requires 0 <= v < WORD
    ensures v % WORD == v
  {
  }

  /** Spelling a number below 2^64 in decimal and reading it back as a literal yields the number. */
  lemma IntegerLiteralRoundTrip(n: nat)
    requires n < WORD
    ensures IsDecimalString(FormatDigits(n, 10)) && FitsDecimalWidth(FormatDigits(n, 10))
    ensures Value(IntegerLiteralValue(FormatDigits(n, 10))) == n
  {
    FormatDigitsRoundTrip(n, 10);
    TenTwenty();
    FormatDigitsLength(n, 20);
    IntegerLiteralExact(FormatDigits(n, 10));
  }

  /** 10 to the power `k`. */
  function Ten(k: nat): (p: nat)
    ensures p >= 1
  {
    if k == 0 then 1 else 10 * Ten(k - 1)
  }

  lemma {:induction false} TenAdd(a: nat, b: nat)
    ensures Ten(a + b) == Ten(a) * Ten(b)
    decreases a
  {
    if a > 0 {
      TenAdd(a - 1, b);
    }
  }

  /** Every 64-bit value has fewer than 21 decimal digits. */
  lemma TenTwenty()
    ensures WORD < Ten(20)
  {
    assert Ten(5) == 100000;
    TenAdd(5, 5);
    TenAdd(10, 10);
  }

  /** A number below 10^k has at most k decimal digits. */
  lemma {:induction false} FormatDigitsLength(n: nat, k: nat)
    requires 1 <= k && n < Ten(k)
    ensures |FormatDigits(n, 10)| <= k
  {
    if n >= 10 {
      DivShrinks(n, 10);
      assert k >= 2;
      FormatDigitsLength(n / 10, k - 1);
    }
  }

  // ---- StringRef helpers ----

  /** StringRef::rfind(c): the last index holding `c`, None for npos. */
  function RFind(s: string, c: char): (r: Option<nat>)
    ensures r.Some? ==> r.value < |s| && s[r.value] == c
    ensures r.Some? ==> forall j :: r.value < j < |s| ==> s[j] != c
    ensures r.None? ==> forall j :: 0 <= j < |s| ==> s[j] != c
  {
    if |s| == 0 then None
    else if s[|s| - 1] == c then Some(|s| - 1)
    else RFind(s[..|s| - 1], c)
  }

  /** StringRef::slice(start, end): both ends clamped to the length, the end never before the start; None is npos. */
  function Slice(s: string, start: nat, end: Option<nat>): (r: string)
    ensures start <= |s| && end.Some? && start <= end.value <= |s| ==> r == s[start..end.value]
    ensures start <= |s| && end.Some? && |s| < end.value ==> r == s[start..]
    ensures start <= |s| && end.None? ==> r == s[start..]
    ensures end.Some? && end.value < start ==> r == []
    ensures start > |s| ==> r == []
  {
    var b := if start <= |s| then start else |s|;
    var e := match end
      case None => |s|
      case Some(x) => if x < b then b else if x <= |s| then x else |s|;
    s[b..e]
  }

  // ---- BOZ literals ----

  /** The prefixes the BOZConstantExpr switch handles. */
  predicate IsBozPrefix(c: char) {
    c == 'B' || c == 'O' || c == 'Z' || c == 'X'
  }

  function BozKindOf(prefix: char): BozKind
    requires IsBozPrefix(prefix)
  {
    if prefix == 'B' then BozKind.Binary else if prefix == 'O' then Octal else Hexadecimal
  }

  /** Bits per digit of each kind: the log2 of its radix. */
  function BitsPerDigit(k: BozKind): nat {
    match k
    case Binary => 1
    case Octal => 3
    case Hexadecimal => 4
  }

  /** The radix the prefix selects: B is 2, O is 8, Z and X are 16. */
  function BozRadix(prefix: char): (radix: nat)
    requires IsBozPrefix(prefix)
    ensures radix == Pow2(BitsPerDigit(BozKindOf(prefix)))
    ensures prefix == 'B' ==> radix == 2
    ensures prefix == 'O' ==> radix == 8
    ensures prefix == 'Z' || prefix == 'X' ==> radix == 16
  {
    match BozKindOf(prefix)
    case Binary => 2
    case Octal => 8
    case Hexadecimal => assert Pow2(4) == 16; 16
  }

  /** The literal closes with a second occurrence of its opening quote `Data[1]`. */
  predicate HasClosingQuote(data: string) {
    |data| >= 2 && RFind(data, data[1]).Some? && RFind(data, data[1]).value > 1
  }

  /** `Data.slice(2, Data.rfind(Data[1]))`: what lies between the quotes. */
  function BozDigits(data: string): (r: string)
    requires |data| >= 2
    ensures HasClosingQuote(data) ==> r == data[2..RFind(data, data[1]).value]
  {
    Slice(data, 2, RFind(data, data[1]))
  }

  /** The digits of a literal spelled prefix, quote, digits, quote come back from BozDigits. */
  lemma BozDigitsOfSpelling(prefix: char, quote: char, digits: string)
    requires quote !in digits
    ensures var data := [prefix, quote] + digits + [quote];
      HasClosingQuote(data) && BozDigits(data) == digits
  {
    var data := [prefix, quote] + digits + [quote];
    assert data[1] == quote;
    assert RFind(data, quote) == Some(|data| - 1);
    assert data[2..|data| - 1] == digits;
  }

  /** The digits with their leading zeros removed. */
  function StripLeadingZeros(s: string): (r: string)
    ensures |r| <= |s| && r == s[|s| - |r|..]
    ensures |r| > 0 ==> r[0] != '0'
    ensures forall i :: 0 <= i < |s| - |r| ==> s[i] == '0'
  {
    if |s| > 0 && s[0] == '0' then StripLeadingZeros(s[1..]) else s
  }

  lemma {:induction false} StripLeadingZerosValue(s: string, radix: nat)
    requires 2 <= radix
    ensures AllDigits(s, radix) <==> AllDigits(StripLeadingZeros(s), radix)
    ensures AllDigits(s, radix) ==> DigitsValue(s, radix) == DigitsValue(StripLeadingZeros(s), radix)
  {
    if |s| > 0 && s[0] == '0' {
      StripLeadingZerosValue(s[1..], radix);
      assert s == "0" + s[1..];
      if AllDigits(s[1..], radix) {
        LeadingZeroNeutral(s[1..], radix);
      }
    }
  }

  /**
   * StringRef::getAsInteger(Radix, APInt&) for a power-of-two radix: None is
   * the failure it reports (an empty string or a character that is not a
   * digit of the radix). An all-zero string gives the 64-bit zero; otherwise
   * the width is log2(radix) bits per digit after the leading zeros.
   */
  function GetAsInteger(s: string, k: BozKind): (r: Option<ApInt>)
    ensures r.Some? <==> |s| > 0 && AllDigits(s, Pow2(BitsPerDigit(k)))
    ensures r.Some? ==> WellFormed(r.value) && Value(r.value) == DigitsValue(s, Pow2(BitsPerDigit(k)))
    ensures r.Some? ==>
      r.value.bitWidth == (if |StripLeadingZeros(s)| == 0 then 64 else BitsPerDigit(k) * |StripLeadingZeros(s)|)
  {
    var radix := Pow2(BitsPerDigit(k));
    Pow2Monotone(1, BitsPerDigit(k));
    StripLeadingZerosValue(s, radix);
    var t := StripLeadingZeros(s);
    if |s| == 0 then None
    else if |t| == 0 then
      assert DigitsValue(t, radix) == 0;
      Some(MakeApInt(64, 0))
    else if !AllDigits(t, radix) then None
    else
      DigitsValueBound(t, BitsPerDigit(k));
      Some(MakeApInt(BitsPerDigit(k) * |t|, DigitsValue(t, radix)))
  }

  /** A BOZ constant node's payload: its kind and its value. */
  datatype BozConstant = BozConstant(kind: BozKind, value: ApInt)

  /**
   * The token shape the parser hands to the constructor: a BOZ prefix, a
   * quote, one or more digits of the prefix's radix, and the closing quote.
   */
  predicate BozWellFormed(data: string) {
    |data| >= 2 && IsBozPrefix(data[0]) && HasClosingQuote(data)
    && |BozDigits(data)| > 0 && AllDigits(BozDigits(data), BozRadix(data[0]))
  }

  /**
   * BOZConstantExpr, as intended: for a well-formed token the prefix selects
   * kind and radix and the digits between the quotes give the value; a
   * malformed token is the caller's contract violation, which the intended
   * code asserts instead of ignoring getAsInteger's failure.
   */
  function BozLiteral(data: string): (r: BozConstant)
    requires BozWellFormed(data)
    ensures r.kind == BozKindOf(data[0]) && WellFormed(r.value)
    ensures Value(r.value) == DigitsValue(BozDigits(data), BozRadix(data[0]))
  {
    var k := BozKindOf(data[0]);
    BozConstant(k, GetAsInteger(BozDigits(data), k).value)
  }

  /** A literal spelled prefix, quote, digits, quote holds the value of its digits in the prefix's radix. */
  lemma BozSpelledValue(prefix: char, digits: string)
    requires IsBozPrefix(prefix) && |digits| > 0 && AllDigits(digits, BozRadix(prefix))
    ensures var data := [prefix, '\''] + digits + ['\''];
      BozWellFormed(data) && BozDigits(data) == digits
      && BozLiteral(data).kind == BozKindOf(prefix)
      && Value(BozLiteral(data).value) == DigitsValue(digits, BozRadix(prefix))
  {
    assert '\'' !in digits by {
      forall i | 0 <= i < |digits| ensures digits[i] != '\'' {
        assert IsDigit(digits[i], BozRadix(prefix));
      }
    }
    BozDigitsOfSpelling(prefix, '\'', digits);
  }

  /** B'1010' is the binary constant 10. */
  lemma BozBinaryExample()
    ensures BozWellFormed("B'1010'")
    ensures BozLiteral("B'1010'").kind == BozKind.Binary
    ensures Value(BozLiteral("B'1010'").value) == 10
  {
    assert "B'1010'" == ['B', '\''] + "1010" + ['\''];
    assert "1010"[..3] == "101" && "101"[..2] == "10" && "10"[..1] == "1" && "1"[..0] == "";
    assert DigitsValue("1010", 2) == 10;
    BozSpelledValue('B', "1010");
  }

  /** O'17' is the octal constant 15. */
  lemma BozOctalExample()
    ensures BozWellFormed("O'17'")
    ensures BozLiteral("O'17'").kind == Octal
    ensures Value(BozLiteral("O'17'").value) == 15
  {
    assert "O'17'" == ['O', '\''] + "17" + ['\''];
    assert "17"[..1] == "1" && "1"[..0] == "";
    assert DigitsValue("17", 8) == 15;
    BozSpelledValue('O', "17");
  }

  /** Z'FF' and X'FF' are both the hexadecimal constant 255. */
  lemma BozHexExamples()
    ensures BozWellFormed("Z'FF'")
    ensures BozLiteral("Z'FF'").kind == Hexadecimal
    ensures Value(BozLiteral("Z'FF'").value) == 255
    ensures BozWellFormed("X'FF'")
    ensures BozLiteral("X'FF'").kind == Hexadecimal
    ensures Value(BozLiteral("X'FF'").value) == 255
  {
    assert "Z'FF'" == ['Z', '\''] + "FF" + ['\''];
    assert "X'FF'" == ['X', '\''] + "FF" + ['\''];
    assert "FF"[..1] == "F" && "F"[..0] == "";
    assert DigitsValue("FF", 16) == 255;
    BozSpelledValue('Z', "FF");
    BozSpelledValue('X', "FF");
  }

  /** Spelling a number in any BOZ radix between quotes and reading it back yields the number and the kind. */
  lemma BozRoundTrip(prefix: char, n: nat)
    requires IsBozPrefix(prefix)
    ensures var data := [prefix, '\''] + FormatDigits(n, BozRadix(prefix)) + ['\''];
      BozWellFormed(data)
      && BozLiteral(data).kind == BozKindOf(prefix)
      && Value(BozLiteral(data).value) == n
  {
    BozSpelledValue(prefix, FormatDigits(n, BozRadix(prefix)));
    FormatDigitsRoundTrip(n, BozRadix(prefix));
  }

  /** Empty digits and a digit outside the radix break the token contract, and getAsInteger reports both. */
  lemma BozMalformedTokens()
    ensures HasClosingQuote("B''") && !BozWellFormed("B''") && GetAsInteger(BozDigits("B''"), BozKind.Binary).None?
    ensures HasClosingQuote("B'12'") && !BozWellFormed("B'12'") && GetAsInteger(BozDigits("B'12'"), BozKind.Binary).None?
  {
    BozDigitsOfSpelling('B', '\'', "");
    assert "B''" == ['B', '\''] + "" + ['\''];
    BozDigitsOfSpelling('B', '\'', "12");
    assert "B'12'" == ['B', '\''] + "12" + ['\''];
    assert !IsDigit("12"[1], 2);
  }

  // ---- the BOZ constructor as written ----

  /**
   * The value the constructor stores in `Kind` for each prefix as written.
   * For 'B' it assigns `BinaryExprClass`, an enumerator of the expression
   * class enumeration, which is not part of this model: its value is the
   * parameter `binaryExprClass`. The other prefixes store their BOZKind.
   */
  function BozKindStoredAsWritten(prefix: char, binaryExprClass: int): int
    requires IsBozPrefix(prefix)
  {
    if prefix == 'B' then binaryExprClass
    else BozKindOrdinal(BozKindOf(prefix))
  }

  /**
   * As written, a binary literal answers isBinaryKind only if that
   * enumerator happens to equal BOZKind::Binary, and answers none of the
   * three kind queries when it lies outside 0..2.
   */
  lemma BinaryPrefixLosesKind(binaryExprClass: int)
    ensures IsBinaryKind(BozKindStoredAsWritten('B', binaryExprClass))
            <==> binaryExprClass == BozKindOrdinal(BozKind.Binary)
    ensures binaryExprClass < 0 || binaryExprClass > 2 ==>
      var k := BozKindStoredAsWritten('B', binaryExprClass);
      !IsBinaryKind(k) && !IsOctalKind(k) && !IsHexKind(k)
  {
  }

  /** As intended, each prefix stores the kind whose query it answers. */
  lemma BozKindStoredAsIntended(prefix: char)
    requires IsBozPrefix(prefix)
    ensures prefix == 'B' <==> IsBinaryKind(BozKindOrdinal(BozKindOf(prefix)))
    ensures prefix == 'O' <==> IsOctalKind(BozKindOrdinal(BozKindOf(prefix)))
    ensures prefix == 'Z' || prefix == 'X' <==> IsHexKind(BozKindOrdinal(BozKindOf(prefix)))
  {
  }

  /** The condition the constructor asserts, as written: that `Data[1]` does not occur in `Data`. */
  predicate BozAssertConditionAsWritten(data: string)
    requires |data| >= 2
  {
    RFind(data, data[1]).None?
  }

  /** The asserted condition is false for every literal, so with assertions on no BOZ constant can be built. */
  lemma BozAssertAlwaysFails(data: string)
    requires |data| >= 2
    ensures !BozAssertConditionAsWritten(data)
  {
    assert data[1] == data[1];
  }

  /** The intended condition, a closing quote after the opening one, holds for a quoted spelling. */
  lemma BozClosingQuoteIntended(prefix: char, digits: string)
    requires '\'' !in digits
    ensures HasClosingQuote([prefix, '\''] + digits + ['\''])
  {
    BozDigitsOfSpelling(prefix, '\'', digits);
  }

  /** The longest prefix of `s` made of digits of `radix`: what getAsInteger accumulates before it stops. */
  function ValidPrefix(s: string, radix: nat): (r: string)
    ensures |r| <= |s| && r == s[..|r|] && AllDigits(r, radix)
    ensures |r| < |s| ==> !IsDigit(s[|r|], radix)
  {
    if |s| > 0 && IsDigit(s[0], radix) then [s[0]] + ValidPrefix(s[1..], radix) else []
  }

  /**
   * What StringRef::getAsInteger(Radix, Result) leaves in `Result`, whether
   * or not it reports failure, when `Result` starts as a one-bit APInt. An
   * empty string leaves `Result` untouched; an all-zero string gives the
   * 64-bit zero; otherwise `Result` is widened to log2(radix) bits per digit
   * after the leading zeros, reset to zero, and accumulates the digits up to
   * the first one outside the radix.
   */
  function GetAsIntegerResult(s: string, k: BozKind, result: ApInt): (r: ApInt)
    requires WellFormed(result) && result.bitWidth == 1
    ensures |s| == 0 ==> r == result
    ensures GetAsInteger(s, k).Some? ==> r == GetAsInteger(s, k).value
    ensures |StripLeadingZeros(s)| > 0 ==>
      WellFormed(r) && r.bitWidth == BitsPerDigit(k) * |StripLeadingZeros(s)|
      && Value(r) == DigitsValue(ValidPrefix(StripLeadingZeros(s), Pow2(BitsPerDigit(k))), Pow2(BitsPerDigit(k)))
  {
    var radix := Pow2(BitsPerDigit(k));
    var t := StripLeadingZeros(s);
    StripLeadingZerosValue(s, radix);
    if |s| == 0 then result
    else if |t| == 0 then MakeApInt(64, 0)
    else
      var p := ValidPrefix(t, radix);
      DigitsValueBound(p, BitsPerDigit(k));
      Pow2Monotone(BitsPerDigit(k) * |p|, BitsPerDigit(k) * |t|);
      assert AllDigits(t, radix) ==> p == t;
      MakeApInt(BitsPerDigit(k) * |t|, DigitsValue(p, radix))
  }

  /**
   * The stored value as written: getAsInteger's result is kept whether or
   * not it reported failure. `leftover` is the default-constructed APInt,
   * one bit wide.
   */
  function BozValueAsWritten(data: string, leftover: ApInt): ApInt
    requires |data| >= 2 && IsBozPrefix(data[0])
    requires WellFormed(leftover) && leftover.bitWidth == 1
  {
    GetAsIntegerResult(BozDigits(data), BozKindOf(data[0]), leftover)
  }

  /** As written, B'' is accepted silently and stores the default-constructed APInt. */
  lemma EmptyBozKeepsLeftover(leftover: ApInt)
    requires WellFormed(leftover) && leftover.bitWidth == 1
    ensures BozValueAsWritten("B''", leftover) == leftover
  {
    BozDigitsOfSpelling('B', '\'', "");
    assert "B''" == ['B', '\''] + "" + ['\''];
  }

  /** As written, B'12' is accepted silently and stores 1, the digit before the invalid one, two bits wide. */
  lemma InvalidBozKeepsValidPrefix(leftover: ApInt)
    requires WellFormed(leftover) && leftover.bitWidth == 1
    ensures BozValueAsWritten("B'12'", leftover).bitWidth == 2
    ensures Value(BozValueAsWritten("B'12'", leftover)) == 1
  {
    BozDigitsOfSpelling('B', '\'', "12");
    assert "B'12'" == ['B', '\''] + "12" + ['\''];
    assert StripLeadingZeros("12") == "12";
    assert !IsDigit("12"[1], 2);
    var p := ValidPrefix("12", 2);
    assert p == "1";
    assert "1"[..0] == "";
  }

  /** On a well-formed token the value as written is the intended one: the two differ only on malformed tokens. */
  lemma BozValueAsWrittenOnWellFormed(data: string, leftover: ApInt)
    requires BozWellFormed(data) && WellFormed(leftover) && leftover.bitWidth == 1
    ensures BozValueAsWritten(data, leftover) == BozLiteral(data).value
  {
  }

  // ---- logical literals ----

  /** ASCII lower-casing, as compare_lower applies it to both sides. */
  function AsciiLower(c: char): char {
    if 'A' <= c <= 'Z' then (c as int + 32) as char else c
  }

  function Lower(s: string): (r: string)
    ensures |r| == |s| && forall i :: 0 <= i < |s| ==> r[i] == AsciiLower(s[i])
  {
    if |s| == 0 then [] else [AsciiLower(s[0])] + Lower(s[1..])
  }

  /** LogicalConstantExpr: `Data.compare_lower(".TRUE.") == 0`. */
  function LogicalLiteralValue(data: string): (r: bool)
    ensures r <==> |data| == 6 && forall i :: 0 <= i < 6 ==> AsciiLower(data[i]) == ".true."[i]
  {
    Lower(data) == ".true."
  }

  /** True exactly for `.TRUE.` in any mix of cases. */
  lemma LogicalLiteralSpellings(data: string)
    ensures LogicalLiteralValue(data) <==>
      |data| == 6 && data[0] == '.' && data[5] == '.'
      && (data[1] == 't' || data[1] == 'T') && (data[2] == 'r' || data[2] == 'R')
      && (data[3] == 'u' || data[3] == 'U') && (data[4] == 'e' || data[4] == 'E')
  {
    if |data| == 6 {
      assert ".true."[0] == '.' && ".true."[1] == 't' && ".true."[2] == 'r';
      assert ".true."[3] == 'u' && ".true."[4] == 'e' && ".true."[5] == '.';
    }
  }

  /** `.FALSE.`, the empty string and a truncated `.TRUE` are false; `.TrUe.` is true. */
  lemma LogicalLiteralExamples()
    ensures !LogicalLiteralValue(".FALSE.") && !LogicalLiteralValue("")
    ensures !LogicalLiteralValue(".TRUE") && LogicalLiteralValue(".TrUe.")
  {
    LogicalLiteralSpellings(".TrUe.");
  }

  // ---- character literals ----

  /** The index of the first NUL, or the length when there is none. */
  function FirstNul(s: seq<char>): (k: nat)
    ensures k <= |s| && (forall i :: 0 <= i < k ==> s[i] != '\0')
    ensures k < |s| ==> s[k] == '\0'
  {
    if |s| == 0 || s[0] == '\0' then 0 else 1 + FirstNul(s[1..])
  }

  function Nuls(n: nat): (r: seq<char>)
    ensures |r| == n && forall i :: 0 <= i < n ==> r[i] == '\0'
  {
    if n == 0 then [] else Nuls(n - 1) + ['\0']
  }

  /** What `strncpy(dst, src, n)` leaves in dst[0..n): src up to its first NUL, then NUL padding. */
  function StrncpyImage(s: seq<char>): (r: seq<char>)
    ensures |r| == |s|
  {
    s[..FirstNul(s)] + Nuls(|s| - FirstNul(s))
  }

  /** `strlen`: the length of a NUL-terminated string. */
  function Strlen(s: seq<char>): (n: nat)
    requires '\0' in s
    ensures n < |s| && s[n] == '\0' && forall i :: 0 <= i < n ==> s[i] != '\0'
  {
    FirstNul(s)
  }

  /**
   * CharacterConstantExpr: a new buffer of size n+1 receives strncpy of the
   * n bytes of the literal and a terminating NUL at index n.
   */
  method CopyCharacterData(data: string) returns (buf: array<char>)
    ensures fresh(buf) && buf.Length == |data| + 1
    ensures buf[..] == StrncpyImage(data) + ['\0']
  {
    var n := |data|;
    buf := new char[n + 1];
    var k := FirstNul(data);
    var i := 0;
    while i < k
      invariant 0 <= i <= k
      invariant buf[..i] == data[..i]
    {
      buf[i] := data[i];
      i := i + 1;
    }
    while i < n
      invariant k <= i <= n
      invariant buf[..i] == data[..k] + Nuls(i - k)
    {
      buf[i] := '\0';
      i := i + 1;
    }
    buf[n] := '\0';
    assert buf[..] == buf[..n] + [buf[n]];
  }

  /** For a literal without NUL bytes the buffer holds the literal, then the terminator. */
  lemma CharacterDataNulFree(data: string)
    requires '\0' !in data
    ensures StrncpyImage(data) + ['\0'] == data + ['\0']
    ensures Strlen(StrncpyImage(data) + ['\0']) == |data|
  {
    forall i | 0 <= i < |data| ensures data[i] != '\0' {
      assert data[i] in data;
    }
    assert data[..|data|] == data;
  }

  /** In general `strlen` of the buffer stops at the first NUL of the literal. */
  lemma CharacterDataStrlen(data: string)
    ensures '\0' in StrncpyImage(data) + ['\0']
    ensures Strlen(StrncpyImage(data) + ['\0']) == FirstNul(data)
  {
    var b := StrncpyImage(data) + ['\0'];
    assert b[|data|] == '\0';
    var k := FirstNul(data);
    assert b[k] == '\0';
    assert forall i :: 0 <= i < k ==> b[i] == data[i];
  }
}
