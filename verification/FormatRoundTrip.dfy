/** Writing a format specification and parsing it back. */
module FormatRoundTrip {
  import opened Kernel
  import opened FormatSpec

  // ---- flags ----

  lemma OneMoreBit(seen: bv8, bit: bv8, bits: bv8)
    ensures (seen | bit) | bits == seen | (bit | bits)
    ensures seen | 0 == seen && 0 | seen == seen
  {
  }

  lemma FlagCharParsed(c: char, more: string, seen: bv8)
    requires IsFlag(c)
    ensures ParseFlags([c] + more, seen) == ParseFlags(more, seen | FlagBit(c))
  {
    assert ([c] + more)[1..] == more;
  }

  function AddFlags(seen: bv8, flags: string): bv8
    requires AreFlags(flags)
    decreases |flags|
  {
    if flags == "" then seen else AddFlags(seen | FlagBit(flags[0]), flags[1..])
  }

  lemma {:induction false} FlagsAdded(seen: bv8, flags: string)
    requires AreFlags(flags)
    ensures AddFlags(seen, flags) == seen | AllBits(flags)
    decreases |flags|
  {
    OneMoreBit(seen, 0, 0);
    if flags != "" {
      FlagsAdded(seen | FlagBit(flags[0]), flags[1..]);
      OneMoreBit(seen, FlagBit(flags[0]), AllBits(flags[1..]));
    }
  }

  lemma {:induction false} FlagTextRead(flags: string, rest: string, seen: bv8)
    requires AreFlags(flags)
    ensures ParseFlags(flags + rest, seen) == ParseFlags(rest, AddFlags(seen, flags))
  {
    if flags == "" {
      assert "" + rest == rest;
    } else {
      assert flags + rest == [flags[0]] + (flags[1..] + rest);
      FlagCharParsed(flags[0], flags[1..] + rest, seen);
      FlagTextRead(flags[1..], rest, seen | FlagBit(flags[0]));
    }
  }

  /** A list of flag characters, read after those in `seen`. */
  lemma FlagTextParsed(flags: string, rest: string, seen: bv8)
    requires AreFlags(flags)
    ensures ParseFlags(flags + rest, seen) == ParseFlags(rest, seen | AllBits(flags))
  {
    FlagTextRead(flags, rest, seen);
    FlagsAdded(seen, flags);
  }

  lemma ZeroOrMore(bit: bv8, bits: bv8)
    ensures (bit | bits) & 16 != 0 <==> bit & 16 != 0 || bits & 16 != 0
  {
  }

  /** The zero-padding bit is set by the character '0' and by no other. */
  lemma {:induction false} ZeroFlag(flags: string)
    requires AreFlags(flags)
    ensures AllBits(flags) & ZERO_PAD != 0 <==> '0' in flags
  {
    if flags != "" {
      ZeroFlag(flags[1..]);
      ZeroOrMore(FlagBit(flags[0]), AllBits(flags[1..]));
      assert flags == [flags[0]] + flags[1..];
      assert FlagBit(flags[0]) & 16 != 0 <==> flags[0] == '0';
    }
  }

  lemma BitTaken(flags: bv8, bit: bv8)
    requires bit == 1 || bit == 2 || bit == 4 || bit == 8 || bit == 16
    ensures flags & bit == if flags & bit != 0 then bit else 0
  {
  }

  lemma BitsTaken(flags: bv8, bit: bv8, bits: bv8)
    ensures (flags & bit) | (flags & bits) == flags & (bit | bits)
    ensures flags & 0 == 0 && 0 | bits == bits
  {
  }

  lemma FiveBits(flags: bv8)
    requires flags < 32
    ensures flags & 31 == flags
  {
  }

  lemma FlagWritten(flags: bv8, c: char, more: string)
    requires IsFlag(c) && AreFlags(more)
    ensures AreFlags(RenderFlag(flags, FlagBit(c), c) + more)
    ensures AllBits(RenderFlag(flags, FlagBit(c), c) + more) == (flags & FlagBit(c)) | AllBits(more)
  {
    BitTaken(flags, FlagBit(c));
    if flags & FlagBit(c) != 0 {
      FirstBit(c, more);
    } else {
      assert "" + more == more;
      BitsTaken(flags, 0, AllBits(more));
    }
  }

  /** The flags of a list that are set, when they are written. */
  lemma {:induction false} FlagsWritten(flags: bv8, order: string)
    requires AreFlags(order)
    ensures AreFlags(RenderFlags(flags, order))
    ensures AllBits(RenderFlags(flags, order)) == flags & AllBits(order)
  {
    BitsTaken(flags, 0, 0);
    if order != "" {
      FlagsWritten(flags, order[1..]);
      FlagWritten(flags, order[0], RenderFlags(flags, order[1..]));
      BitsTaken(flags, FlagBit(order[0]), AllBits(order[1..]));
    }
  }

  /** Any set of the five flags, written in any order, is read back. */
  lemma FlagsRoundTrip(flags: bv8, order: string, rest: string)
    requires flags < 32 && FlagOrder(order) && (rest == "" || !IsFlag(rest[0]))
    ensures ParseFlags(RenderFlags(flags, order) + rest, 0) == (flags, rest)
  {
    FlagsWritten(flags, order);
    FiveBits(flags);
    FlagTextParsed(RenderFlags(flags, order), rest, 0);
    OneMoreBit(flags, 0, 0);
  }

  lemma FirstBit(c: char, more: string)
    requires IsFlag(c) && AreFlags(more)
    ensures AreFlags([c] + more) && AllBits([c] + more) == FlagBit(c) | AllBits(more)
  {
    assert ([c] + more)[1..] == more;
  }

  /** The order of the list in the C standard is one. */
  lemma UsualOrder()
    ensures FlagOrder(['-'] + (['+'] + ([' '] + (['#'] + (['0'] + "")))))
  {
    FirstBit('0', "");
    FirstBit('#', ['0'] + "");
    FirstBit(' ', ['#'] + (['0'] + ""));
    FirstBit('+', [' '] + (['#'] + (['0'] + "")));
    FirstBit('-', ['+'] + ([' '] + (['#'] + (['0'] + ""))));
  }

  /** The digits of n, read after nothing, leave n. */
  lemma {:induction false} NumberParsed(n: nat, rest: string)
    requires n < 0x8000
    ensures ParseNumber(Decimal(n) + rest, -1) == ParseNumber(rest, n)
  {
    if n < 10 {
      assert ([DigitChar(n)] + rest)[1..] == rest;
    } else {
      var last := [DigitChar(n % 10)];
      assert Decimal(n) + rest == Decimal(n / 10) + (last + rest);
      NumberParsed(n / 10, last + rest);
      DigitParsed(n, rest);
    }
  }

  /** The last digit of a number, read after the others. */
  lemma DigitParsed(n: nat, rest: string)
    requires n < 0x8000
    ensures ParseNumber([DigitChar(n % 10)] + rest, n / 10) == ParseNumber(rest, n)
  {
    assert ([DigitChar(n % 10)] + rest)[1..] == rest;
    assert n / 10 * 10 + n % 10 == n;
  }

  lemma {:induction false} NumberRange(s: string, n: int)
    requires -0x8000 <= n < 0x8000
    ensures -0x8000 <= ParseNumber(s, n).0 < 0x8000
  {
    if s != "" && s[0] != '*' && IsDigit(s[0]) {
      NumberRange(s[1..], AddDigit(n, s[0]));
    }
  }

  /** The int16_t fields overflow silently: a number is read as itself exactly when it
      fits. */
  lemma NumberExactly(n: nat, rest: string)
    requires EndsNumber(rest)
    ensures ParseNumber(Decimal(n) + rest, -1) == (n, rest) <==> n < 0x8000
  {
    if n < 0x8000 {
      NumberParsed(n, rest);
    } else {
      NumberRange(Decimal(n) + rest, -1);
    }
  }

  /** A number greater than 0 does not begin like a flag. */
  lemma {:induction false} NumberBegins(n: nat)
    requires 0 < n
    ensures !IsFlag(Decimal(n)[0]) && Decimal(n)[0] != '.' && !IsSpecifier(Decimal(n)[0])
  {
    if n >= 10 {
      NumberBegins(n / 10);
    }
  }

  predicate EndsNumber(rest: string) {
    rest != "" && !IsDigit(rest[0]) && rest[0] != '*'
  }

  /** A field is read as its digits; a '*' ends it and counts for nothing. */
  lemma FieldParsed(f: Field, rest: string)
    requires -1 <= f.value < 0x8000 && EndsNumber(rest)
    ensures ParseNumber(RenderField(f) + rest, -1) == (f.value, rest)
  {
    var digits := if f.value < 0 then "" else Decimal(f.value);
    var tail := (if f.star then "*" else "") + rest;
    assert RenderField(f) + rest == digits + tail;
    if f.star {
      assert tail[1..] == rest;
    } else {
      assert tail == rest;
    }
    if f.value < 0 {
      assert digits + tail == tail;
    } else {
      NumberParsed(f.value, tail);
    }
  }

  lemma PointParsed(precision: Option<Field>, rest: string)
    requires precision.Some? ==> -1 <= precision.value.value < 0x8000
    requires EndsNumber(rest) && rest[0] != '.'
    ensures ParsePrecision(RenderPoint(precision) + rest) == (PrecisionValue(precision), rest)
    ensures var s := RenderPoint(precision) + rest; EndsNumber(s) && (IsFlag(s[0]) ==> IsFlag(rest[0]))
  {
    match precision
    case None =>
      assert "" + rest == rest;
    case Some(f) =>
      assert RenderPoint(precision) + rest == ['.'] + (RenderField(f) + rest);
      assert (['.'] + (RenderField(f) + rest))[1..] == RenderField(f) + rest;
      FieldParsed(f, rest);
  }

  function PrecisionValue(precision: Option<Field>): int {
    match precision
    case None => -1
    case Some(f) => f.value
  }

  /** What follows the flags does not begin like one. */
  lemma AfterFlags(width: Field, rest: string)
    requires (width.value == -1 || 1 <= width.value < 0x8000) && rest != "" && !IsFlag(rest[0])
    ensures RenderField(width) + rest != "" && !IsFlag((RenderField(width) + rest)[0])
  {
    if width.value >= 0 {
      NumberBegins(width.value);
      assert (RenderField(width) + rest)[0] == Decimal(width.value)[0];
    }
  }

  lemma Join(a: string, b: string, c: string, d: string, rest: string)
    ensures ((a + (b + c)) + d) + rest == a + (b + (c + (d + rest)))
  {
  }

  /** Reading a directive, whatever follows it: the flags named, the width limited to 1024,
      the precision, and the letter if it is one of eight; an unknown letter is left alone. */
  lemma FormParsed(f: Form, rest: string)
    requires ValidForm(f)
    ensures
      var known := f.letter == 'd' || f.letter == 'i' || f.letter == 'u' || f.letter == 'x'
                   || f.letter == 'c' || f.letter == 's' || f.letter == 'p' || f.letter == '%';
      var width := if f.width.value > 1024 then 1024 else f.width.value;
      && AreFlags(f.flags)
      && ParseSpec(FormText(f) + rest) ==
         (Spec(AllBits(f.flags), width, PrecisionValue(f.precision), if known then f.letter else '\0'),
          if known then rest else [f.letter] + rest)
  {
    var s3 := [f.letter] + rest;
    var s2 := RenderPoint(f.precision) + s3;
    var s1 := RenderField(f.width) + s2;
    Join(f.flags, RenderField(f.width), RenderPoint(f.precision), [f.letter], rest);
    FormStages(f, s1, s2, s3);
    LetterParsed(f.letter, rest);
    var (specifier, s4) := ParseSpecifier(s3);
    ParseStages(f.flags + s1, AllBits(f.flags), s1, f.width.value, s2, PrecisionValue(f.precision), s3, specifier, s4);
  }

  /** The stages of the parser, one after another. */
  lemma FormStages(f: Form, s1: string, s2: string, s3: string)
    requires ValidForm(f) && s3 != "" && s3[0] == f.letter
    requires s2 == RenderPoint(f.precision) + s3 && s1 == RenderField(f.width) + s2
    ensures AreFlags(f.flags) && ParseFlags(f.flags + s1, 0) == (AllBits(f.flags), s1)
    ensures ParseNumber(s1, -1) == (f.width.value, s2)
    ensures ParsePrecision(s2) == (PrecisionValue(f.precision), s3)
  {
    PointParsed(f.precision, s3);
    FieldParsed(f.width, s2);
    AfterFlags(f.width, s2);
    FlagTextParsed(f.flags, s1, 0);
    OneMoreBit(AllBits(f.flags), 0, 0);
  }

  lemma LetterParsed(c: char, rest: string)
    ensures ParseSpecifier([c] + rest) ==
            if c == 'd' || c == 'i' || c == 'u' || c == 'x' || c == 'c' || c == 's' || c == 'p' || c == '%'
            then (c, rest) else ('\0', [c] + rest)
  {
    assert ([c] + rest)[1..] == rest;
  }

  lemma Rendered(spec: Spec, order: string)
    requires Writable(spec) && FlagOrder(order)
    ensures
      var f := Render(spec, order);
      && ValidForm(f) && AreFlags(f.flags) && AllBits(f.flags) == spec.flags
      && f.width.value == spec.minWidth && PrecisionValue(f.precision) == spec.precision && f.letter == spec.specifier
  {
    RenderedFlags(spec.flags, order);
  }

  lemma RenderedFlags(flags: bv8, order: string)
    requires flags < 32 && FlagOrder(order)
    ensures
      var s := RenderFlags(flags, order);
      && AreFlags(s) && AllBits(s) == flags
      && (forall i :: 0 <= i < |s| ==> s[i] == '-' || s[i] == '+' || s[i] == ' ' || s[i] == '#' || s[i] == '0')
  {
    FlagsWritten(flags, order);
    FiveBits(flags);
    FlagCharacters(RenderFlags(flags, order));
  }

  lemma FlagCharacters(flags: string)
    requires AreFlags(flags)
    ensures forall i :: 0 <= i < |flags| ==>
              flags[i] == '-' || flags[i] == '+' || flags[i] == ' ' || flags[i] == '#' || flags[i] == '0'
  {
  }

  /** Parsing what was written, its flags in any order, gives back the specification, a width
      over 1024 as 1024, and leaves the cursor just after it, whatever follows. */
  lemma SpecRoundTrip(spec: Spec, order: string, rest: string)
    requires Writable(spec) && FlagOrder(order)
    ensures spec.minWidth <= 1024 ==> ParseSpec(FormText(Render(spec, order)) + rest) == (spec, rest)
    ensures spec.minWidth > 1024 ==>
              ParseSpec(FormText(Render(spec, order)) + rest) == (spec.(minWidth := 1024), rest)
  {
    Rendered(spec, order);
    FormParsed(Render(spec, order), rest);
  }

  lemma {:induction false} WidthAtLeast(s: string, n: int)
    requires n >= -0x8000
    ensures ParseNumber(s, n).0 >= -0x8000
  {
    if s != "" && s[0] != '*' && IsDigit(s[0]) {
      WidthAtLeast(s[1..], AddDigit(n, s[0]));
    }
  }

  /** On any string the width parsed is at most 1024. */
  lemma WidthLimited(s: string)
    ensures -0x8000 <= ParseSpec(s).0.minWidth <= 1024
  {
    WidthAtLeast(ParseFlags(s, 0).1, -1);
  }
}
