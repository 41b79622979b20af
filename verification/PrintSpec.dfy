/** What vfprintf writes: numbers as numerals, padding, and whole format strings. */
module PrintSpec {
  import opened Kernel
  import opened FormatSpec
  import opened FormatRoundTrip

  // ---- numerals ----

  predicate IsBase(base: nat) {
    base == 10 || base == 16
  }

  function NumeralChar(d: nat): char
    requires d < 16
  {
    if d < 10 then (d + '0' as int) as char else (d - 10 + 'a' as int) as char
  }

  /** The value of a digit in base 10 or 16. */
  function CharValue(c: char): nat {
    if '0' <= c <= '9' then c as int - '0' as int
    else if 'a' <= c <= 'f' then c as int - 'a' as int + 10
    else 0
  }

  /** n without leading zeros; nothing at all for 0. */
  function Numeral(n: nat, base: nat): string
    requires IsBase(base)
  {
    if n == 0 then "" else Numeral(n / base, base) + [NumeralChar(n % base)]
  }

  /** Reading a numeral, leading zeros and all. */
  function Value(s: string, base: nat): nat {
    if s == "" then 0 else Value(s[..|s| - 1], base) * base + CharValue(s[|s| - 1])
  }

  lemma {:induction false} NumeralValue(n: nat, base: nat)
    requires IsBase(base)
    ensures Value(Numeral(n, base), base) == n
  {
    if n > 0 {
      var s := Numeral(n, base);
      NumeralValue(n / base, base);
      assert s[..|s| - 1] == Numeral(n / base, base);
    }
  }

  function Power(base: nat, k: nat): nat {
    if k == 0 then 1 else base * Power(base, k - 1)
  }

  lemma OneDigitLess(n: nat, base: nat, p: nat)
    requires IsBase(base) && n < base * p
    ensures n / base < p
  {
    if base == 10 {
      assert n / 10 < p;
    } else {
      assert n / 16 < p;
    }
  }

  lemma {:induction false} NumeralLength(n: nat, base: nat, k: nat)
    requires IsBase(base) && n < Power(base, k)
    ensures |Numeral(n, base)| <= k
  {
    if n > 0 {
      OneDigitLess(n, base, Power(base, k - 1));
      NumeralLength(n / base, base, k - 1);
    }
  }

  /** A 32-bit number takes at most 10 digits in base 10 and 8 in base 16, well within the
      32-byte buffers. */
  lemma WordLength(w: Word)
    ensures |Numeral(w, 10)| <= 10 && |Numeral(w, 16)| <= 8
  {
    assert Power(10, 5) == 10_0000 && Power(10, 10) == 100_0000_0000;
    assert Power(16, 4) == 0x1_0000 && Power(16, 8) == 0x1_0000_0000;
    NumeralLength(w, 10, 10);
    NumeralLength(w, 16, 8);
  }

  function Zeros(n: nat): (s: string)
    ensures |s| == n && forall i :: 0 <= i < n ==> s[i] == '0'
  {
    seq(n, _ => '0')
  }

  lemma {:induction false} LeadingZeros(n: nat, s: string, base: nat)
    ensures Value(Zeros(n) + s, base) == Value(s, base)
  {
    if s != "" {
      LeadingZeros(n, s[..|s| - 1], base);
      assert (Zeros(n) + s)[..n + |s| - 1] == Zeros(n) + s[..|s| - 1];
    } else if n > 0 {
      LeadingZeros(n - 1, "", base);
      assert (Zeros(n) + s)[..n - 1] == Zeros(n - 1) + "";
    }
  }

  // ---- one conversion ----

  function FillChar(spec: Spec): char {
    if spec.flags & ZERO_PAD != 0 then '0' else ' '
  }

  /** The padding to the minimum width, for something `printed` characters long. */
  function Fill(spec: Spec, printed: nat): (s: string)
    ensures |s| == if spec.minWidth > printed then spec.minWidth - printed else 0
    ensures forall i :: 0 <= i < |s| ==> s[i] == FillChar(spec)
  {
    if spec.minWidth > printed then seq(spec.minWidth - printed, _ => FillChar(spec)) else ""
  }

  /** A sign or a lone zero, the padding, the digits, in this order. */
  function Layout(spec: Spec, extra: string, digits: string): string {
    extra + Fill(spec, |extra| + |digits|) + digits
  }

  /** %u and %x: 0 is written as an extra character, ahead of the padding. */
  function FormatUnsigned(spec: Spec, arg: Word, base: nat): string
    requires IsBase(base)
  {
    Layout(spec, if arg == 0 then "0" else "", Numeral(arg, base))
  }

  /** An argument word as an int. */
  function ToInt32(w: Word): (x: int)
    ensures -0x8000_0000 <= x < 0x8000_0000 && Wrap(x) == w
  {
    if w < 0x8000_0000 then w else w - 0x1_0000_0000
  }

  function Magnitude(x: int): nat {
    if x < 0 then -x else x
  }

  /** %d and %i. */
  function FormatInt(spec: Spec, arg: Word): string {
    var x := ToInt32(arg);
    Layout(spec, if x == 0 then "0" else if x < 0 then "-" else "", Numeral(Magnitude(x), 10))
  }

  function Max(a: int, b: int): int {
    if a < b then b else a
  }

  lemma ZeroFill(spec: Spec, printed: nat)
    requires spec.flags & ZERO_PAD != 0
    ensures Fill(spec, printed) == Zeros(|Fill(spec, printed)|)
  {
  }

  lemma NumeralEmpty(n: nat, base: nat)
    requires IsBase(base)
    ensures Numeral(n, base) == "" <==> n == 0
  {
  }

  /** Zero-padded %u and %x: exactly as wide as asked or as the number needs, and reading it
      gives the argument back. */
  lemma PaddedUnsigned(spec: Spec, arg: Word, base: nat)
    requires IsBase(base) && spec.flags & ZERO_PAD != 0
    ensures |FormatUnsigned(spec, arg, base)| == Max(spec.minWidth, Max(1, |Numeral(arg, base)|))
    ensures Value(FormatUnsigned(spec, arg, base), base) == arg
  {
    NumeralEmpty(arg, base);
    if arg == 0 {
      PaddedZero(spec, base);
    } else {
      PaddedDigits(spec, Numeral(arg, base), base);
      NumeralValue(arg, base);
    }
  }

  lemma PaddedDigits(spec: Spec, digits: string, base: nat)
    requires IsBase(base) && spec.flags & ZERO_PAD != 0
    ensures |Layout(spec, "", digits)| == Max(spec.minWidth, |digits|)
    ensures Value(Layout(spec, "", digits), base) == Value(digits, base)
  {
    ZeroFill(spec, |digits|);
    var f := Fill(spec, |digits|);
    assert Layout(spec, "", digits) == Zeros(|f|) + digits;
    LeadingZeros(|f|, digits, base);
  }

  lemma PaddedZero(spec: Spec, base: nat)
    requires IsBase(base) && spec.flags & ZERO_PAD != 0
    ensures |FormatUnsigned(spec, 0, base)| == Max(spec.minWidth, 1)
    ensures Value(FormatUnsigned(spec, 0, base), base) == 0
  {
    ZeroFill(spec, 1);
    var f := Fill(spec, 1);
    assert FormatUnsigned(spec, 0, base) == Zeros(1 + |f|) + "";
    LeadingZeros(1 + |f|, "", base);
  }

  /** Reading a signed numeral. */
  function SignedValue(s: string): int {
    var sign: int := if s != "" && s[0] == '-' then -1 else 1;
    sign * Value(if sign < 0 then s[1..] else s, 10)
  }

  /** Zero-padded %d and %i: the same, with the sign counted in the width. */
  lemma PaddedInt(spec: Spec, arg: Word)
    requires spec.flags & ZERO_PAD != 0
    ensures var x := ToInt32(arg);
            var needed := (if x < 0 then 1 else 0) + Max(1, |Numeral(Magnitude(x), 10)|);
            |FormatInt(spec, arg)| == Max(spec.minWidth, needed)
    ensures SignedValue(FormatInt(spec, arg)) == ToInt32(arg)
  {
    var x := ToInt32(arg);
    var digits := Numeral(Magnitude(x), 10);
    NumeralEmpty(Magnitude(x), 10);
    if x < 0 {
      ZeroFill(spec, 1 + |digits|);
      var f := Fill(spec, 1 + |digits|);
      assert FormatInt(spec, arg)[1..] == Zeros(|f|) + digits;
      LeadingZeros(|f|, digits, 10);
      NumeralValue(Magnitude(x), 10);
    } else {
      assert FormatInt(spec, arg) == FormatUnsigned(spec, x, 10);
      PaddedUnsigned(spec, x, 10);
      StartsWithDigit(spec, x);
    }
  }

  lemma StartsWithDigit(spec: Spec, n: Word)
    requires spec.flags & ZERO_PAD != 0
    ensures FormatUnsigned(spec, n, 10) != "" && FormatUnsigned(spec, n, 10)[0] != '-'
  {
    NumeralEmpty(n, 10);
    if n > 0 {
      NumeralDigits(n, 10, 0);
    }
  }

  predicate IsDigitOf(c: char, base: nat) {
    '0' <= c <= '9' || (base == 16 && 'a' <= c <= 'f')
  }

  lemma {:induction false} NumeralDigits(n: nat, base: nat, i: nat)
    requires IsBase(base) && i < |Numeral(n, base)|
    ensures IsDigitOf(Numeral(n, base)[i], base)
    ensures i == 0 ==> Numeral(n, base)[0] != '0'
  {
    var init := Numeral(n / base, base);
    LastDigitOf(n, base);
    NumeralEmpty(n / base, base);
    assert Numeral(n, base) == init + [NumeralChar(n % base)];
    if i < |init| {
      NumeralDigits(n / base, base, i);
    }
  }

  lemma LastDigitOf(n: nat, base: nat)
    requires IsBase(base)
    ensures n % base < base && IsDigitOf(NumeralChar(n % base), base)
    ensures 0 < n && n / base == 0 ==> NumeralChar(n % base) != '0'
  {
    if base == 10 {
      assert n % 10 < 10;
    } else {
      assert n % 16 < 16;
    }
  }

  /** The plain numeral of an int. */
  function Signed(x: int): string {
    if x == 0 then "0" else (if x < 0 then "-" else "") + Numeral(Magnitude(x), 10)
  }

  function Spaces(n: nat): (s: string)
    ensures |s| == n && forall i :: 0 <= i < n ==> s[i] == ' '
  {
    seq(n, _ => ' ')
  }

  /** The plain numeral of an unsigned argument. */
  function Unsigned(arg: Word, base: nat): string
    requires IsBase(base)
  {
    if arg == 0 then "0" else Numeral(arg, base)
  }

  /** The space-filled result C asks for: padding first, then the numeral. */
  function RightJustified(spec: Spec, s: string): string {
    (if spec.minWidth > |s| then Spaces(spec.minWidth - |s|) else "") + s
  }

  /** The padding goes after a sign or a lone zero. So the space-filled result is the right
      one exactly when the number is positive or there is nothing to pad. */
  lemma SpaceFilledInt(spec: Spec, arg: Word)
    requires spec.flags & ZERO_PAD == 0
    ensures var x := ToInt32(arg);
            FormatInt(spec, arg) == RightJustified(spec, Signed(x)) <==> x > 0 || spec.minWidth <= |Signed(x)|
  {
    var x := ToInt32(arg);
    var digits := Numeral(Magnitude(x), 10);
    NumeralEmpty(Magnitude(x), 10);
    var right := RightJustified(spec, Signed(x));
    if spec.minWidth <= |Signed(x)| {
      assert Fill(spec, |Signed(x)|) == "";
    } else if x > 0 {
      assert Fill(spec, |digits|) == Spaces(spec.minWidth - |digits|);
      assert FormatInt(spec, arg) == "" + Fill(spec, |digits|) + digits;
    } else {
      assert right[0] == ' ';
      assert FormatInt(spec, arg)[0] == if x == 0 then '0' else '-';
    }
  }

  /** %u and %x share the fault for a lone zero. */
  lemma SpaceFilledUnsigned(spec: Spec, arg: Word, base: nat)
    requires IsBase(base) && spec.flags & ZERO_PAD == 0
    ensures FormatUnsigned(spec, arg, base) == RightJustified(spec, Unsigned(arg, base)) <==>
            arg > 0 || spec.minWidth <= 1
  {
    var digits := Numeral(arg, base);
    NumeralEmpty(arg, base);
    if arg > 0 {
      assert Fill(spec, |digits|) == Spaces(|Fill(spec, |digits|)|);
      assert FormatUnsigned(spec, arg, base) == "" + Fill(spec, |digits|) + digits;
    } else if spec.minWidth <= 1 {
      assert FormatUnsigned(spec, 0, base) == "0" + "" + "";
    } else {
      assert FormatUnsigned(spec, 0, base)[0] == '0';
      assert RightJustified(spec, "0")[0] == ' ';
    }
  }

  // ---- format strings ----

  /** The specifiers that take an argument; the rest are parsed but not supported. */
  predicate Converts(c: char) {
    c == 'd' || c == 'i' || c == 'u' || c == 'x'
  }

  function FormatArg(spec: Spec, arg: Word): string
    requires Converts(spec.specifier)
  {
    match spec.specifier
    case 'u' => FormatUnsigned(spec, arg, 10)
    case 'x' => FormatUnsigned(spec, arg, 16)
    case _ => FormatInt(spec, arg)
  }

  /** How many arguments a format string consumes. */
  function ArgCount(fmt: string): nat
    decreases |fmt|
  {
    if fmt == "" then 0
    else if fmt[0] != '%' then ArgCount(fmt[1..])
    else
      var (spec, rest) := ParseSpec(fmt[1..]);
      if Converts(spec.specifier) then 1 + ArgCount(rest) else ArgCount(fmt[1..])
  }

  /** What vfprintf writes. A '%' that begins no supported specification is written as it
      is, and the character after it is looked at afresh. */
  function Printf(fmt: string, args: seq<Word>): string
    requires ArgCount(fmt) <= |args|
    decreases |fmt|
  {
    if fmt == "" then ""
    else if fmt[0] != '%' then [fmt[0]] + Printf(fmt[1..], args)
    else
      var (spec, rest) := ParseSpec(fmt[1..]);
      if Converts(spec.specifier) then FormatArg(spec, args[0]) + Printf(rest, args[1..])
      else "%" + Printf(fmt[1..], args)
  }

  // One step of Printf on each kind of head.

  lemma CharStep(s: string, args: seq<Word>)
    requires s != "" && s[0] != '%' && ArgCount(s) <= |args|
    ensures ArgCount(s) == ArgCount(s[1..])
    ensures Printf(s, args) == [s[0]] + Printf(s[1..], args)
  {
  }

  lemma DirectiveStep(s: string, spec: Spec, rest: string, args: seq<Word>)
    requires s != "" && s[0] == '%' && ParseSpec(s[1..]) == (spec, rest) && Converts(spec.specifier)
    ensures ArgCount(s) == 1 + ArgCount(rest)
    ensures ArgCount(s) <= |args| ==> Printf(s, args) == FormatArg(spec, args[0]) + Printf(rest, args[1..])
  {
  }

  lemma PercentStep(s: string, args: seq<Word>)
    requires s != "" && s[0] == '%' && !Converts(ParseSpec(s[1..]).0.specifier)
    ensures ArgCount(s) == ArgCount(s[1..])
    ensures ArgCount(s) <= |args| ==> Printf(s, args) == "%" + Printf(s[1..], args)
  {
  }

  lemma Assoc(a: string, b: string, c: string)
    ensures (a + b) + c == a + (b + c)
  {
  }

  /** Text without a '%' is written as it is. */
  lemma {:induction false} TextPrinted(text: string, rest: string, args: seq<Word>)
    requires '%' !in text && ArgCount(rest) <= |args|
    ensures ArgCount(text + rest) == ArgCount(rest)
    ensures Printf(text + rest, args) == text + Printf(rest, args)
  {
    if text == "" {
      assert text + rest == rest && text + Printf(rest, args) == Printf(rest, args);
    } else {
      var more := text[1..];
      TextPrinted(more, rest, args);
      assert text == [text[0]] + more && (text + rest)[1..] == more + rest;
      CharStep(text + rest, args);
      Assoc([text[0]], more, Printf(rest, args));
    }
  }

  lemma PercentTail(a: string, b: string)
    ensures var s := "%" + a + b; s != "" && s[0] == '%' && s[1..] == a + b
  {
  }

  lemma PercentSpecifier(tail: string)
    requires tail != "" && tail[0] == '%'
    ensures ParseSpec(tail).0.specifier == '%'
  {
    assert ParseFlags(tail, 0) == (0, tail) && ParseNumber(tail, -1) == (-1, tail);
    assert ParsePrecision(tail) == (-1, tail);
  }

  /** "%%" is not an escape: the first '%' is written and the second still begins a
      specification. */
  lemma PercentNotCollapsed(fmt: string, args: seq<Word>)
    requires |fmt| >= 2 && fmt[0] == '%' && fmt[1] == '%'
    ensures ArgCount(fmt) == ArgCount(fmt[1..])
    ensures ArgCount(fmt) <= |args| ==> Printf(fmt, args) == "%" + Printf(fmt[1..], args)
  {
    PercentSpecifier(fmt[1..]);
    PercentStep(fmt, args);
  }
}
