/** The `std::stringstream` / `std::ifstream` extraction primitives that the
    macro compiler and the client configuration reader rely on, as a cursor
    over a string with the stream's `eofbit` and `failbit`.

    Every extraction first checks that the stream is good (neither flag set);
    otherwise it sets `failbit` and reads nothing. Formatted extractions then
    skip whitespace; reaching the end while skipping sets both flags. A
    scan that stops because the text ran out sets `eofbit`. */
module Stream {
  import opened Wrappers

  // ---------------------------------------------------------------------------
  // Character classes of the "C" locale.

  predicate IsSpace(c: char) {
    c == ' ' || c == '\t' || c == '\n' || c as int == 11 || c as int == 12 || c == '\r'
  }

  predicate IsDigit(c: char) {
    '0' <= c <= '9'
  }

  predicate IsSign(c: char) {
    c == '+' || c == '-'
  }

  // ---------------------------------------------------------------------------
  // Lexers: each gives the end of a maximal run of `t` starting at index `i`.

  /** End of the whitespace starting at `i`. */
  function SpaceEnd(t: string, i: nat): (j: nat)
    requires i <= |t|
    ensures i <= j <= |t|
    ensures forall k :: i <= k < j ==> IsSpace(t[k])
    ensures j < |t| ==> !IsSpace(t[j])
    decreases |t| - i
  {
    if i == |t| || !IsSpace(t[i]) then i else SpaceEnd(t, i + 1)
  }

  /** End of the run of non-whitespace characters starting at `i`. */
  function WordEnd(t: string, i: nat): (j: nat)
    requires i <= |t|
    ensures i <= j <= |t|
    ensures forall k :: i <= k < j ==> !IsSpace(t[k])
    ensures j < |t| ==> IsSpace(t[j])
    decreases |t| - i
  {
    if i == |t| || IsSpace(t[i]) then i else WordEnd(t, i + 1)
  }

  /** End of the run of decimal digits starting at `i`. */
  function DigitEnd(t: string, i: nat): (j: nat)
    requires i <= |t|
    ensures i <= j <= |t|
    ensures forall k :: i <= k < j ==> IsDigit(t[k])
    ensures j < |t| ==> !IsDigit(t[j])
    decreases |t| - i
  {
    if i == |t| || !IsDigit(t[i]) then i else DigitEnd(t, i + 1)
  }

  /** `t` without its leading whitespace. */
  function TrimLeft(t: string): string {
    t[SpaceEnd(t, 0)..]
  }

  /** Index just past an optional sign at `i`. */
  function SignEnd(t: string, i: nat): (j: nat)
    requires i <= |t|
    ensures i <= j <= |t|
  {
    if i < |t| && IsSign(t[i]) then i + 1 else i
  }

  /** End of what an integer extraction consumes from `i`: an optional
      sign, then digits. */
  function IntEnd(t: string, i: nat): (j: nat)
    requires i <= |t|
    ensures i <= j <= |t|
  {
    DigitEnd(t, SignEnd(t, i))
  }

  /** Value of a string of decimal digits. */
  function DigitsValue(ds: string): (v: nat)
    requires forall i :: 0 <= i < |ds| ==> IsDigit(ds[i])
  {
    if ds == [] then 0
    else
      assert IsDigit(ds[|ds| - 1]);
      10 * DigitsValue(ds[..|ds| - 1]) + (ds[|ds| - 1] as int - '0' as int)
  }

  const IntMin: int := -0x8000_0000
  const IntMax: int := 0x7FFF_FFFF

  /** The `int` read from the front of `t` the way `operator>>(int&)` and
      `std::stoi` read it: optional sign, at least one digit, and a value
      that fits in 32 bits; `None` when there is no digit or it overflows. */
  function IntPrefix(t: string): (r: Option<int>)
    ensures r.Some? ==> IntMin <= r.value <= IntMax
    ensures r.Some? ==> SignEnd(t, 0) < IntEnd(t, 0)
  {
    var s := SignEnd(t, 0);
    var n := DigitEnd(t, s);
    if n == s then None
    else
      var magnitude := DigitsValue(t[s..n]);
      var v: int := if s == 1 && t[0] == '-' then -(magnitude as int) else magnitude;
      if IntMin <= v <= IntMax then Some(v) else None
  }

  /** `k` in decimal, most significant digit first, without leading zeros. */
  function NatDigits(k: nat): (ds: string)
    ensures |ds| >= 1
    ensures forall i :: 0 <= i < |ds| ==> IsDigit(ds[i])
  {
    if k < 10 then [('0' as int + k) as char]
    else NatDigits(k / 10) + [('0' as int + k % 10) as char]
  }

  /** `n` printed in decimal, with a `-` when it is negative: the text
      `std::to_string` gives. */
  function Decimal(n: int): string {
    if n < 0 then "-" + NatDigits(-n) else NatDigits(n)
  }

  /** Reading the digits of `k` back gives `k`. */
  lemma {:induction false} NatDigitsValue(k: nat)
    ensures DigitsValue(NatDigits(k)) == k
    decreases k
  {
    if k >= 10 {
      var ds := NatDigits(k);
      assert ds[..|ds| - 1] == NatDigits(k / 10);
      NatDigitsValue(k / 10);
    }
  }

  /** A run of digits at `i` followed by a non-digit, or by the end, is
      exactly what `DigitEnd` spans. */
  lemma DigitEndOf(t: string, i: nat, j: nat)
    requires i <= j <= |t|
    requires forall k :: i <= k < j ==> IsDigit(t[k])
    requires j < |t| ==> !IsDigit(t[j])
    ensures DigitEnd(t, i) == j
  {
  }

  /** A run of whitespace at `i` followed by a non-space, or by the end,
      is exactly what `SpaceEnd` spans. */
  lemma SpaceEndOf(t: string, i: nat, j: nat)
    requires i <= j <= |t|
    requires forall k :: i <= k < j ==> IsSpace(t[k])
    requires j < |t| ==> !IsSpace(t[j])
    ensures SpaceEnd(t, i) == j
  {
  }

  /** A run of non-space characters at `i` followed by a space, or by the
      end, is exactly what `WordEnd` spans. */
  lemma WordEndOf(t: string, i: nat, j: nat)
    requires i <= j <= |t|
    requires forall k :: i <= k < j ==> !IsSpace(t[k])
    requires j < |t| ==> IsSpace(t[j])
    ensures WordEnd(t, i) == j
  {
  }

  /** `IntPrefix` reads back any printed number followed by a non-digit:
      the number itself when it fits in 32 bits, and nothing otherwise. */
  lemma IntPrefixDecimal(n: int, rest: string)
    requires rest == [] || !IsDigit(rest[0])
    ensures IntPrefix(Decimal(n) + rest) == if IntMin <= n <= IntMax then Some(n) else None
  {
    var t := Decimal(n) + rest;
    var ds := NatDigits(if n < 0 then -n else n);
    var s := if n < 0 then 1 else 0;
    assert t[s..s + |ds|] == ds;
    assert SignEnd(t, 0) == s;
    DigitEndOf(t, s, s + |ds|);
    NatDigitsValue(if n < 0 then -n else n);
  }

  /** `500` reads as 500. */
  lemma IntPrefix500()
    ensures IntPrefix("500") == Some(500)
  {
    assert NatDigits(50) == "50";
    assert NatDigits(500) == "500";
    assert Decimal(500) + "" == "500";
    IntPrefixDecimal(500, "");
  }

  /** `-12x` reads as -12, the `x` left over. */
  lemma IntPrefixMinus12()
    ensures IntPrefix("-12x") == Some(-12)
  {
    assert NatDigits(12) == "12";
    assert Decimal(-12) + "x" == "-12x";
    IntPrefixDecimal(-12, "x");
  }

  /** One more digit of `NatDigits`. */
  lemma NatDigitsStep(k: nat, c: char)
    requires k >= 10 && c == ('0' as int + k % 10) as char
    ensures NatDigits(k) == NatDigits(k / 10) + [c]
  {
  }

  /** 2^31 does not fit in an `int`. */
  lemma IntPrefixOverflow()
    ensures IntPrefix("2147483648") == None
  {
    assert NatDigits(2) == "2";
    hide NatDigits;
    NatDigitsStep(21, '1');
    NatDigitsStep(214, '4');
    NatDigitsStep(2147, '7');
    NatDigitsStep(21474, '4');
    NatDigitsStep(214748, '8');
    NatDigitsStep(2147483, '3');
    NatDigitsStep(21474836, '6');
    NatDigitsStep(214748364, '4');
    NatDigitsStep(2147483648, '8');
    assert Decimal(2147483648) + "" == "2147483648";
    IntPrefixDecimal(2147483648, "");
  }

  /** The floating-point scan of `num_get`: digits, at most one decimal point
      before any exponent, and one exponent marker once a digit has been seen,
      optionally followed directly by a sign. Returns the index it stops at. */
  function FloatScan(t: string, i: nat, dec: bool, sci: bool, mantissa: bool): (j: nat)
    requires i <= |t|
    ensures i <= j <= |t|
    decreases |t| - i
  {
    if i == |t| then i
    else if IsDigit(t[i]) then FloatScan(t, i + 1, dec, sci, true)
    else if t[i] == '.' && !dec && !sci then FloatScan(t, i + 1, true, sci, mantissa)
    else if (t[i] == 'e' || t[i] == 'E') && !sci && mantissa then
      if i + 1 < |t| && IsSign(t[i + 1]) then FloatScan(t, i + 2, dec, true, mantissa)
      else FloatScan(t, i + 1, dec, true, mantissa)
    else i
  }

  /** End of what a float extraction consumes from `i`: an optional sign,
      then the scan. */
  function FloatEnd(t: string, i: nat): (j: nat)
    requires i <= |t|
    ensures i <= j <= |t|
  {
    FloatScan(t, SignEnd(t, i), false, false, false)
  }

  predicate HasDigit(t: string) {
    exists i :: 0 <= i < |t| && IsDigit(t[i])
  }

  /** Index of the first exponent marker of `t`, or `|t|`. */
  function ExpIndex(t: string): (k: nat)
    ensures k <= |t|
  {
    if t == [] || t[0] == 'e' || t[0] == 'E' then 0 else 1 + ExpIndex(t[1..])
  }

  /** Whether the consumed characters form a number `strtof` accepts in full:
      a digit in the mantissa and, after an exponent marker, a digit. */
  predicate FloatOk(lexeme: string) {
    var k := ExpIndex(lexeme);
    HasDigit(lexeme[..k]) && (k == |lexeme| || HasDigit(lexeme[k + 1..]))
  }

  /** The magnitude from which `strtof` rounds to infinity (and the
      extraction sets `failbit`): halfway between `FLT_MAX` = 2^128 - 2^104
      and 2^128, a tie that rounds to even, that is up. */
  const FloatOverflow: nat := 340282356779733661637539395458142568448

  /** The decimal digits of `t`, in order. */
  function DigitsOf(t: string): (ds: string)
    ensures |ds| <= |t|
    ensures forall i :: 0 <= i < |ds| ==> IsDigit(ds[i])
  {
    if t == [] then []
    else if IsDigit(t[0]) then [t[0]] + DigitsOf(t[1..])
    else DigitsOf(t[1..])
  }

  /** Index of the first decimal point of `t`, or `|t|`. */
  function DotIndex(t: string): (k: nat)
    ensures k <= |t|
  {
    if t == [] || t[0] == '.' then 0 else 1 + DotIndex(t[1..])
  }

  function Pow10(n: nat): (p: nat)
    ensures p >= 1
  {
    if n == 0 then 1 else 10 * Pow10(n - 1)
  }

  /** The decimal exponent a lexeme writes after its exponent marker, with
      its sign; 0 when it has none. */
  function ExpValue(lexeme: string): int {
    var k := ExpIndex(lexeme);
    if k == |lexeme| then 0
    else
      var e := lexeme[k + 1..];
      var v: int := DigitsValue(DigitsOf(e));
      if e != [] && e[0] == '-' then -v else v
  }

  /** Whether the number a lexeme spells stays below the overflow magnitude:
      its mantissa digits read as one integer `n`, times ten to the exponent
      less the count of fraction digits. */
  predicate FloatFits(lexeme: string) {
    var mantissa := lexeme[..ExpIndex(lexeme)];
    var n := DigitsValue(DigitsOf(mantissa));
    var scale := ExpValue(lexeme) - |DigitsOf(mantissa[DotIndex(mantissa)..])|;
    if scale >= 0 then n * Pow10(scale) < FloatOverflow
    else n < FloatOverflow * Pow10(-scale)
  }

  lemma {:induction false} Pow10Add(a: nat, b: nat)
    ensures Pow10(a + b) == Pow10(a) * Pow10(b)
    decreases a
  {
    if a > 0 { Pow10Add(a - 1, b); }
  }

  lemma Pow10Large()
    ensures Pow10(37) == 10_000_000_000_000_000_000_000_000_000_000_000_000
    ensures Pow10(39) == 1_000_000_000_000_000_000_000_000_000_000_000_000_000
  {
    assert Pow10(3) == 1000;
    hide Pow10;
    Pow10Add(3, 3);
    assert Pow10(6) == 1_000_000;
    Pow10Add(6, 6);
    assert Pow10(12) == 1_000_000_000_000;
    Pow10Add(12, 12);
    assert Pow10(24) == 1_000_000_000_000_000_000_000_000;
    Pow10Add(24, 12);
    assert Pow10(36) == 1_000_000_000_000_000_000_000_000_000_000_000_000;
    Pow10Add(36, 1);
    Pow10Add(36, 3);
  }

  /** `FloatFits` from the parts of one lexeme. */
  lemma FitsOf(lexeme: string, mantissa: string, n: nat, e: int, f: nat)
    requires mantissa == lexeme[..ExpIndex(lexeme)]
    requires n == DigitsValue(DigitsOf(mantissa)) && e == ExpValue(lexeme)
    requires f == |DigitsOf(mantissa[DotIndex(mantissa)..])|
    ensures FloatFits(lexeme) <==>
      if e >= f then n * Pow10(e - f) < FloatOverflow else n < FloatOverflow * Pow10(f - e)
  {
  }

  /** `1e39` overflows a `float`. */
  lemma Overflow1e39()
    ensures !FloatFits("1e39")
  {
    assert ExpIndex("1e39") == 1;
    assert "1e39"[..1] == "1" && "1e39"[2..] == "39";
    assert DigitsOf("1") == "1" && DotIndex("1") == 1 && DigitsOf("1"[1..]) == "";
    assert DigitsOf("39") == "39" && DigitsValue("39") == 39;
    Pow10Large();
  }

  /** `3.5e38`, just above `FLT_MAX`, overflows a `float`. */
  lemma Overflow35e38()
    ensures !FloatFits("3.5e38")
  {
    assert ExpIndex("3.5e38") == 3;
    assert ExpValue("3.5e38") == 38 by {
      assert "3.5e38"[4..] == "38";
      assert DigitsOf("38") == "38" && DigitsValue("38") == 38;
    }
    assert "3.5e38"[..3] == "3.5";
    assert DigitsValue(DigitsOf("3.5")) == 35 by {
      assert DigitsOf("3.5") == "35";
    }
    assert |DigitsOf("3.5"[DotIndex("3.5")..])| == 1 by {
      assert DotIndex("3.5") == 1 && "3.5"[1..] == ".5";
      assert DigitsOf(".5") == "5";
    }
    hide *;
    FitsOf("3.5e38", "3.5", 35, 38, 1);
    Pow10Large();
  }

  /** `3.4e38`, just below `FLT_MAX`, fits a `float`. */
  lemma Fits34e38()
    ensures FloatFits("3.4e38")
  {
    assert ExpIndex("3.4e38") == 3;
    assert ExpValue("3.4e38") == 38 by {
      assert "3.4e38"[4..] == "38";
      assert DigitsOf("38") == "38" && DigitsValue("38") == 38;
    }
    assert "3.4e38"[..3] == "3.4";
    assert DigitsValue(DigitsOf("3.4")) == 34 by {
      assert DigitsOf("3.4") == "34";
    }
    assert |DigitsOf("3.4"[DotIndex("3.4")..])| == 1 by {
      assert DotIndex("3.4") == 1 && "3.4"[1..] == ".4";
      assert DigitsOf(".4") == "4";
    }
    hide *;
    FitsOf("3.4e38", "3.4", 34, 38, 1);
    Pow10Large();
  }

  // ---------------------------------------------------------------------------
  // Whitespace tokenization, the reference for word extraction.

  /** The whitespace-separated words of `t` from index `i` on, in order. */
  function TokensFrom(t: string, i: nat): seq<string>
    requires i <= |t|
    decreases |t| - i
  {
    var p := SpaceEnd(t, i);
    if p == |t| then [] else [t[p..WordEnd(t, p)]] + TokensFrom(t, WordEnd(t, p))
  }

  /** The whitespace-separated words of `t`, in order. */
  function Tokens(t: string): seq<string> {
    TokensFrom(t, 0)
  }

  // ---------------------------------------------------------------------------
  // The stream.

  /** Read position `pos` into `text`, and the stream's state bits. */
  datatype Stream = Stream(text: string, pos: nat, eof: bool, fail: bool) {

    predicate Valid() {
      pos <= |text| && (eof ==> pos == |text|)
    }

    predicate Good() {
      !eof && !fail
    }

    /** The characters not yet consumed. */
    function Rest(): string
      requires Valid()
    {
      text[pos..]
    }
  }

  /** The stream after an extraction, and the value extracted (meaningful
      only when the extraction left `fail` clear). */
  datatype Read<T> = Read(rest: Stream, value: T)

  /** A fresh stream over `text`. */
  function Open(text: string): (s: Stream)
    ensures s.Valid() && s.Good() && s.Rest() == text
  {
    Stream(text, 0, false, false)
  }

  /** The words a good stream would still deliver to `>> std::string`. */
  function Pending(s: Stream): seq<string>
    requires s.Valid()
  {
    if s.fail || s.eof then [] else TokensFrom(s.text, s.pos)
  }

  /** Properties every extraction keeps: same text, forward motion only,
      a failed stream stays failed. */
  predicate Advances(s: Stream, r: Stream) {
    && r.Valid()
    && r.text == s.text
    && s.pos <= r.pos
    && (s.fail ==> r.fail)
  }

  /** Position of the first non-whitespace character at or after `s.pos`. */
  function SkipSpace(s: Stream): (p: nat)
    requires s.Valid()
    ensures s.pos <= p <= |s.text|
  {
    SpaceEnd(s.text, s.pos)
  }

  /** `ss >> word` for a `std::string`. */
  function ExtractWord(s: Stream): (r: Read<string>)
    requires s.Valid()
    ensures Advances(s, r.rest)
    ensures !r.rest.fail ==> s.Good() && r.rest.pos > s.pos && |r.value| > 0
    ensures !r.rest.fail ==> forall i :: 0 <= i < |r.value| ==> !IsSpace(r.value[i])
  {
    if !s.Good() then Read(s.(fail := true), "")
    else
      var p := SkipSpace(s);
      if p == |s.text| then Read(s.(pos := p, eof := true, fail := true), "")
      else
        var q := WordEnd(s.text, p);
        Read(s.(pos := q, eof := q == |s.text|), s.text[p..q])
  }

  /** `ss >> c` for a `char`: skips whitespace, then takes one character. */
  function ExtractChar(s: Stream): (r: Read<char>)
    requires s.Valid()
    ensures Advances(s, r.rest)
    ensures !r.rest.fail ==> s.Good() && !IsSpace(r.value)
  {
    if !s.Good() then Read(s.(fail := true), ' ')
    else
      var p := SkipSpace(s);
      if p == |s.text| then Read(s.(pos := p, eof := true, fail := true), ' ')
      else Read(s.(pos := p + 1), s.text[p])
  }

  /** `ss >> n` for an `int`. */
  function ExtractInt(s: Stream): (r: Read<int>)
    requires s.Valid()
    ensures Advances(s, r.rest)
    ensures !r.rest.fail ==> s.Good() && IntMin <= r.value <= IntMax
  {
    if !s.Good() then Read(s.(fail := true), 0)
    else
      var p := SkipSpace(s);
      if p == |s.text| then Read(s.(pos := p, eof := true, fail := true), 0)
      else
        var q := IntEnd(s.text, p);
        var v := IntPrefix(s.text[p..]);
        Read(s.(pos := q, eof := q == |s.text|, fail := v.None?), v.GetOr(0))
  }

  /** `ss >> f` for a `float`; the value is kept as the text consumed. */
  function ExtractFloat(s: Stream): (r: Read<string>)
    requires s.Valid()
    ensures Advances(s, r.rest)
    ensures !r.rest.fail ==> s.Good() && FloatOk(r.value) && FloatFits(r.value)
  {
    if !s.Good() then Read(s.(fail := true), "")
    else
      var p := SkipSpace(s);
      if p == |s.text| then Read(s.(pos := p, eof := true, fail := true), "")
      else
        var q := FloatEnd(s.text, p);
        var lexeme := s.text[p..q];
        Read(s.(pos := q, eof := q == |s.text|, fail := !FloatOk(lexeme) || !FloatFits(lexeme)), lexeme)
  }

  /** `ss.ignore(1, delim)`: drops exactly one character, whatever it is;
      at the end of the text it sets only `eofbit`. */
  function Ignore1(s: Stream): (r: Stream)
    requires s.Valid()
    ensures Advances(s, r)
    ensures !r.fail && !r.eof ==> r.pos == s.pos + 1
  {
    if !s.Good() then s.(fail := true)
    else if s.pos < |s.text| then s.(pos := s.pos + 1)
    else s.(eof := true)
  }

  /** `ss.peek()`: the next character, without consuming it. */
  function Peek(s: Stream): (r: Read<Option<char>>)
    requires s.Valid()
    ensures Advances(s, r.rest) && r.rest.pos == s.pos
    ensures r.value.Some? <==> s.Good() && s.pos < |s.text|
    ensures r.value.Some? ==> r.value.value == s.text[s.pos]
  {
    if !s.Good() then Read(s.(fail := true), None)
    else if s.pos == |s.text| then Read(s.(eof := true), None)
    else Read(s, Some(s.text[s.pos]))
  }

  // ---------------------------------------------------------------------------
  // Word extraction agrees with whitespace tokenization.

  /** A successful `>> char` took the first non-space character and left a
      good stream just past it. */
  lemma ExtractCharAt(s: Stream)
    requires s.Valid()
    ensures var r := ExtractChar(s);
      !r.rest.fail ==>
        var p := SkipSpace(s);
        p < |s.text| && r.value == s.text[p] && r.rest.pos == p + 1 && r.rest.Good()
  {
  }

  /** On a good stream with a non-space character left, `>> char` takes
      that character and leaves the stream good just past it. */
  lemma ExtractCharGood(s: Stream)
    requires s.Valid() && s.Good() && SkipSpace(s) < |s.text|
    ensures ExtractChar(s) == Read(s.(pos := SkipSpace(s) + 1), s.text[SkipSpace(s)])
  {
  }

  /** `ExtractCharGood` and `ExtractFloatAccepts` for a good stream moved
      to position `k`. */
  lemma ExtractCharFrom(s: Stream, k: nat, p: nat)
    requires s.Valid() && s.Good() && k <= |s.text|
    requires p == SpaceEnd(s.text, k) && p < |s.text|
    ensures ExtractChar(s.(pos := k)) == Read(s.(pos := p + 1), s.text[p])
  {
  }

  lemma Ignore1From(s: Stream, k: nat)
    requires s.Valid() && s.Good() && k < |s.text|
    ensures Ignore1(s.(pos := k)) == s.(pos := k + 1)
  {
  }

  lemma ExtractFloatFrom(s: Stream, k: nat, a: nat, q: nat)
    requires s.Valid() && s.Good() && k <= |s.text|
    requires a == SpaceEnd(s.text, k) && q == FloatEnd(s.text, a) && q < |s.text|
    requires FloatOk(s.text[a..q]) && FloatFits(s.text[a..q])
    ensures ExtractFloat(s.(pos := k)) == Read(s.(pos := q), s.text[a..q])
  {
    ExtractFloatAccepts(s.(pos := k));
  }

  /** On a good stream holding only whitespace, `>> std::string` fails. */
  lemma ExtractWordAtEnd(s: Stream)
    requires s.Valid() && s.Good() && SkipSpace(s) == |s.text|
    ensures ExtractWord(s).rest.fail
  {
  }

  /** The converse of `ExtractFloat`'s contract: on a good stream, a lexeme
      `strtof` accepts in full and in range is delivered, and the stream
      stays good just past it. */
  lemma ExtractFloatAccepts(s: Stream)
    requires s.Valid() && s.Good()
    requires var p := SkipSpace(s); var lexeme := s.text[p..FloatEnd(s.text, p)];
      FloatOk(lexeme) && FloatFits(lexeme)
    ensures var p := SkipSpace(s); var q := FloatEnd(s.text, p);
      ExtractFloat(s) == Read(s.(pos := q, eof := q == |s.text|), s.text[p..q])
  {
  }

  /** A `>> std::string` that fails on a good stream saw only whitespace. */
  lemma ExtractWordBlank(s: Stream)
    requires s.Valid() && s.Good()
    ensures ExtractWord(s).rest.fail ==> forall k :: s.pos <= k < |s.text| ==> IsSpace(s.text[k])
  {
  }

  /** `>> std::string` delivers exactly the next whitespace-separated word:
      it succeeds iff a word is pending, returns that word, and leaves the
      remaining words pending. */
  lemma ExtractWordReadsToken(s: Stream)
    requires s.Valid()
    ensures var r := ExtractWord(s);
      && (!r.rest.fail <==> Pending(s) != [])
      && (!r.rest.fail ==> r.value == Pending(s)[0] && Pending(r.rest) == Pending(s)[1..])
      && (r.rest.fail ==> Pending(r.rest) == [])
  {
    if s.Good() {
      var p := SkipSpace(s);
      if p < |s.text| {
        var q := WordEnd(s.text, p);
        if q == |s.text| {
          assert TokensFrom(s.text, q) == [];
        }
      }
    }
  }

  /** A word extraction from a failed or exhausted stream fails. */
  lemma ExtractWordNoToken(s: Stream)
    requires s.Valid() && Pending(s) == []
    ensures ExtractWord(s).rest.fail
  {
    ExtractWordReadsToken(s);
  }
}
