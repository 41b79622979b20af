/** What printf does with a directive as it is written, in literal characters: the theorems
    on whole format strings. */
module Directives {
  import opened Kernel
  import opened FormatSpec
  import opened FormatRoundTrip
  import opened PrintSpec

  /** A plain numeral: digits without leading zeros, that read as v. */
  predicate PlainNumeral(num: string, base: nat, v: nat) {
    && num != "" && num[0] != '0'
    && (forall i :: 0 <= i < |num| ==> IsDigitOf(num[i], base))
    && Value(num, base) == v
  }

  predicate TakesArgument(c: char) {
    c == 'd' || c == 'i' || c == 'u' || c == 'x'
  }

  /** What a directive that takes an argument writes for it: `extra`, then `pad`, then `num`.
      'x' is base 16 and the others base 10; 'd' and 'i' are signed. A sign, or the numeral
      of 0, comes first; then zeros or spaces up to the width, at most 1024 of them in all;
      then the plain numeral of the magnitude, unless it is 0. */
  predicate Converted(f: Form, arg: Word, extra: string, pad: string, num: string) {
    var x: int := if (f.letter == 'd' || f.letter == 'i') && arg >= 0x8000_0000 then arg - 0x1_0000_0000 else arg;
    var width := if f.width.value > 1024 then 1024 else f.width.value;
    && extra == (if x == 0 then "0" else if x < 0 then "-" else "")
    && (if x == 0 then num == "" else PlainNumeral(num, if f.letter == 'x' then 16 else 10, if x < 0 then -x else x))
    && (forall i :: 0 <= i < |pad| ==> pad[i] == if '0' in f.flags then '0' else ' ')
    && |pad| == if width > |extra| + |num| then width - |extra| - |num| else 0
  }

  /** That determines the text. */
  lemma ConvertedOnce(f: Form, arg: Word, e: string, p: string, n: string, e': string, p': string, n': string)
    requires Converted(f, arg, e, p, n) && Converted(f, arg, e', p', n')
    ensures e == e' && p == p' && n == n'
  {
    if n != "" {
      PlainOnce(n, n', if f.letter == 'x' then 16 else 10);
    }
  }

  lemma {:induction false} PlainAbove(s: string, base: nat)
    requires base == 10 || base == 16
    requires s != "" && s[0] != '0' && forall i :: 0 <= i < |s| ==> IsDigitOf(s[i], base)
    ensures Value(s, base) > 0
  {
    var init := s[..|s| - 1];
    if init != "" {
      PlainAbove(init, base);
    } else {
      assert Value(init, base) == 0;
    }
  }

  lemma {:induction false} PlainOnce(s: string, s': string, base: nat)
    requires base == 10 || base == 16
    requires PlainNumeral(s, base, Value(s, base)) && PlainNumeral(s', base, Value(s, base))
    ensures s == s'
  {
    var init, last := s[..|s| - 1], s[|s| - 1];
    var init', last' := s'[..|s'| - 1], s'[|s'| - 1];
    LastDigit(Value(init, base), CharValue(last), Value(init', base), CharValue(last'), base);
    assert last == last';
    if init != "" {
      PlainAbove(init, base);
    }
    if init' != "" {
      PlainAbove(init', base);
    }
    if init != "" && init' != "" {
      PlainOnce(init, init', base);
    }
    assert s == init + [last] && s' == init' + [last'];
  }

  lemma LastDigit(a: nat, d: nat, a': nat, d': nat, base: nat)
    requires (base == 10 || base == 16) && d < base && d' < base && a * base + d == a' * base + d'
    ensures a == a' && d == d'
  {
  }

  /** The sixteen digits. */
  lemma Digits(d: nat)
    requires d < 16
    ensures NumeralChar(d) == "0123456789abcdef"[d] && CharValue("0123456789abcdef"[d]) == d
  {
  }

  lemma NumeralIsPlain(n: nat, base: nat)
    requires n > 0 && (base == 10 || base == 16)
    ensures PlainNumeral(Numeral(n, base), base, n)
  {
    NumeralEmpty(n, base);
    NumeralValue(n, base);
    NumeralDigits(n, base, 0);
    forall i | 0 <= i < |Numeral(n, base)| ensures IsDigitOf(Numeral(n, base)[i], base) {
      NumeralDigits(n, base, i);
    }
  }

  /** The writer's own number is plain too: digits are read as the number they were written
      for. */
  lemma {:induction false} DecimalIsPlain(n: nat)
    ensures Value(Decimal(n), 10) == n
    ensures n > 0 ==> PlainNumeral(Decimal(n), 10, n)
  {
    if n >= 10 {
      DecimalIsPlain(n / 10);
      var s := Decimal(n);
      assert s[..|s| - 1] == Decimal(n / 10) && s[|s| - 1] == DigitChar(n % 10);
    } else {
      assert Value("", 10) == 0;
      assert Decimal(n)[..0] == "";
    }
  }

  // ---- one directive ----

  lemma ArgumentConverted(f: Form, arg: Word) returns (extra: string, pad: string, num: string)
    requires ValidForm(f) && TakesArgument(f.letter) && AreFlags(f.flags)
    ensures Converted(f, arg, extra, pad, num)
    ensures
      var width := if f.width.value > 1024 then 1024 else f.width.value;
      FormatArg(Spec(AllBits(f.flags), width, PrecisionValue(f.precision), f.letter), arg) == extra + pad + num
  {
    var width := if f.width.value > 1024 then 1024 else f.width.value;
    var spec := Spec(AllBits(f.flags), width, PrecisionValue(f.precision), f.letter);
    var base := if f.letter == 'x' then 16 else 10;
    var x: int := if f.letter == 'd' || f.letter == 'i' then ToInt32(arg) else arg;
    extra, num := ArgumentLayout(spec, arg, x, base);
    pad := Fill(spec, |extra| + |num|);
    ZeroFlag(f.flags);
    if x != 0 {
      NumeralIsPlain(Magnitude(x), base);
    }
  }

  lemma ArgumentLayout(spec: Spec, arg: Word, x: int, base: nat) returns (extra: string, num: string)
    requires TakesArgument(spec.specifier) && base == if spec.specifier == 'x' then 16 else 10
    requires x == if spec.specifier == 'd' || spec.specifier == 'i' then ToInt32(arg) else arg
    ensures extra == (if x == 0 then "0" else if x < 0 then "-" else "")
    ensures num == Numeral(Magnitude(x), base) && (num == "" <==> x == 0)
    ensures FormatArg(spec, arg) == Layout(spec, extra, num)
  {
    extra := if x == 0 then "0" else if x < 0 then "-" else "";
    num := Numeral(Magnitude(x), base);
    NumeralEmpty(Magnitude(x), base);
  }

  /** 'd', 'i', 'u' and 'x' take one argument and write it. */
  lemma DirectiveConverted(f: Form, rest: string, args: seq<Word>) returns (extra: string, pad: string, num: string)
    requires ValidForm(f) && TakesArgument(f.letter) && 1 + ArgCount(rest) <= |args|
    ensures ArgCount("%" + FormText(f) + rest) == 1 + ArgCount(rest)
    ensures Converted(f, args[0], extra, pad, num)
    ensures Printf("%" + FormText(f) + rest, args) == (extra + pad + num) + Printf(rest, args[1..])
  {
    FormParsed(f, rest);
    extra, pad, num := ArgumentConverted(f, args[0]);
    PercentTail(FormText(f), rest);
    DirectiveStep("%" + FormText(f) + rest, ParseSpec(FormText(f) + rest).0, rest, args);
  }

  lemma HeadHasNoPercent(f: Form)
    requires ValidForm(f)
    ensures '%' !in FormHead(f)
  {
  }

  /** Any other letter takes none: all up to the letter is written as it is, and what the
      letter is, a '%' perhaps, is looked at afresh. */
  lemma DirectiveEchoed(f: Form, rest: string, args: seq<Word>)
    requires ValidForm(f) && !TakesArgument(f.letter) && ArgCount([f.letter] + rest) <= |args|
    ensures ArgCount("%" + FormText(f) + rest) == ArgCount([f.letter] + rest)
    ensures Printf("%" + FormText(f) + rest, args) == "%" + FormHead(f) + Printf([f.letter] + rest, args)
  {
    var tail := FormText(f) + rest;
    FormParsed(f, rest);
    HeadHasNoPercent(f);
    Assoc(FormHead(f), [f.letter], rest);
    TextPrinted(FormHead(f), [f.letter] + rest, args);
    PercentEchoed(tail, args);
    Assoc("%", FormText(f), rest);
    Assoc("%", FormHead(f), Printf([f.letter] + rest, args));
  }

  lemma PercentEchoed(tail: string, args: seq<Word>)
    requires !Converts(ParseSpec(tail).0.specifier) && ArgCount(tail) <= |args|
    ensures ArgCount("%" + tail) == ArgCount(tail) && Printf("%" + tail, args) == "%" + Printf(tail, args)
  {
    assert ("%" + tail)[1..] == tail;
    PercentStep("%" + tail, args);
  }

  // ---- zero-padded directives ----

  /** Digits that read as v, at least `width` of them, and more only if v needs them. */
  predicate ReadsBack(s: string, base: nat, v: nat, width: int) {
    && s != "" && (forall i :: 0 <= i < |s| ==> IsDigitOf(s[i], base)) && Value(s, base) == v
    && |s| >= width && (|s| > width && |s| > 1 ==> s[0] != '0')
  }

  lemma ZerosThenNumeral(pad: string, num: string, base: nat, v: nat, width: int)
    requires base == 10 || base == 16
    requires PlainNumeral(num, base, v) && forall i :: 0 <= i < |pad| ==> pad[i] == '0'
    requires |pad| == if width > |num| then width - |num| else 0
    ensures ReadsBack(pad + num, base, v, width)
  {
    assert pad == Zeros(|pad|);
    LeadingZeros(|pad|, num, base);
  }

  lemma ZerosAlone(pad: string, base: nat, width: int)
    requires (base == 10 || base == 16) && forall i :: 0 <= i < |pad| ==> pad[i] == '0'
    requires |pad| == if width > 1 then width - 1 else 0
    ensures ReadsBack("0" + pad, base, 0, width)
  {
    assert "0" + pad == Zeros(|pad| + 1) + "";
    LeadingZeros(|pad| + 1, "", base);
  }

  /** What a zero-padded directive writes reads back as the argument: in base 16 for 'x', in
      base 10 for 'u', and for 'd' and 'i' in base 10 with a sign. */
  predicate ReadsAs(f: Form, arg: Word, text: string) {
    && (f.letter == 'x' ==> ReadsBack(text, 16, arg, f.width.value))
    && (f.letter == 'u' ==> ReadsBack(text, 10, arg, f.width.value))
    && (f.letter == 'd' || f.letter == 'i' ==>
          if arg < 0x8000_0000 then ReadsBack(text, 10, arg, f.width.value)
          else text != "" && text[0] == '-' && ReadsBack(text[1..], 10, 0x1_0000_0000 - arg, f.width.value - 1))
  }

  lemma PaddedReadsAs(f: Form, arg: Word, extra: string, pad: string, num: string)
    requires TakesArgument(f.letter) && '0' in f.flags && f.width.value <= 1024
    requires Converted(f, arg, extra, pad, num)
    ensures ReadsAs(f, arg, extra + pad + num)
  {
    var base := if f.letter == 'x' then 16 else 10;
    if arg == 0 {
      assert extra + pad + num == "0" + pad;
      ZerosAlone(pad, base, f.width.value);
    } else if (f.letter == 'd' || f.letter == 'i') && arg >= 0x8000_0000 {
      assert (extra + pad + num)[1..] == pad + num;
      ZerosThenNumeral(pad, num, 10, 0x1_0000_0000 - arg, f.width.value - 1);
    } else {
      assert extra + pad + num == pad + num;
      ZerosThenNumeral(pad, num, base, arg, f.width.value);
    }
  }

  /** So a directive with the flag '0' writes exactly the width asked for, or as many digits
      as the number needs, and what it writes reads back as the argument. */
  lemma ZeroPadded(f: Form, rest: string, args: seq<Word>) returns (text: string)
    requires ValidForm(f) && '0' in f.flags && f.width.value <= 1024
    requires f.letter == 'd' || f.letter == 'i' || f.letter == 'u' || f.letter == 'x'
    requires 1 + ArgCount(rest) <= |args|
    ensures ArgCount("%" + FormText(f) + rest) == 1 + ArgCount(rest)
    ensures Printf("%" + FormText(f) + rest, args) == text + Printf(rest, args[1..])
    ensures ReadsAs(f, args[0], text)
  {
    var extra, pad, num := DirectiveConverted(f, rest, args);
    text := extra + pad + num;
    PaddedReadsAs(f, args[0], extra, pad, num);
  }

  // ---- whole formats ----

  datatype Piece = Text(text: string) | Directive(form: Form)

  /** Text without a '%', and directives with any letter but '%'. */
  predicate ValidPiece(p: Piece) {
    match p
    case Text(text) => '%' !in text
    case Directive(f) => ValidForm(f) && f.letter != '%'
  }

  predicate Converting(p: Piece) {
    p.Directive? && TakesArgument(p.form.letter)
  }

  function Source(pieces: seq<Piece>): string {
    if pieces == [] then ""
    else
      match pieces[0]
      case Text(text) => text + Source(pieces[1..])
      case Directive(f) => "%" + FormText(f) + Source(pieces[1..])
  }

  function Conversions(pieces: seq<Piece>): nat {
    if pieces == [] then 0
    else (if Converting(pieces[0]) then 1 else 0) + Conversions(pieces[1..])
  }

  /** `out` is the pieces in turn: a text as it is, a directive with a letter that takes an
      argument as that argument converted, any other as it was written. */
  ghost predicate Shown(pieces: seq<Piece>, args: seq<Word>, out: string)
    requires Conversions(pieces) <= |args|
    decreases |pieces|
  {
    if pieces == [] then out == ""
    else if Converting(pieces[0]) then
      exists extra, pad, num, more ::
        && Converted(pieces[0].form, args[0], extra, pad, num)
        && Shown(pieces[1..], args[1..], more)
        && out == (extra + pad + num) + more
    else
      exists more ::
        && Shown(pieces[1..], args, more)
        && out == (if pieces[0].Text? then pieces[0].text else "%" + FormText(pieces[0].form)) + more
  }

  /** Any format made of such pieces, in any order, is shown piece by piece, and takes one
      argument for each directive that converts one. */
  lemma {:induction false} PiecesPrinted(pieces: seq<Piece>, args: seq<Word>)
    requires forall p :: p in pieces ==> ValidPiece(p)
    requires Conversions(pieces) <= |args|
    ensures ArgCount(Source(pieces)) == Conversions(pieces)
    ensures Shown(pieces, args, Printf(Source(pieces), args))
    decreases |pieces|
  {
    if pieces != [] {
      assert ValidPiece(pieces[0]);
      var rest := pieces[1..];
      if Converting(pieces[0]) {
        PiecesPrinted(rest, args[1..]);
        var extra, pad, num := DirectiveConverted(pieces[0].form, Source(rest), args);
      } else {
        PiecesPrinted(rest, args);
        match pieces[0]
        case Text(text) =>
          TextPrinted(text, Source(rest), args);
        case Directive(f) =>
          EchoPrinted(f, Source(rest), args);
      }
    }
  }

  /** A directive with an unknown letter other than '%', as a whole. */
  lemma EchoPrinted(f: Form, rest: string, args: seq<Word>)
    requires ValidForm(f) && !TakesArgument(f.letter) && f.letter != '%' && ArgCount(rest) <= |args|
    ensures ArgCount("%" + FormText(f) + rest) == ArgCount(rest)
    ensures Printf("%" + FormText(f) + rest, args) == ("%" + FormText(f)) + Printf(rest, args)
  {
    TextPrinted([f.letter], rest, args);
    DirectiveEchoed(f, rest, args);
    Assoc("%" + FormHead(f), [f.letter], Printf(rest, args));
    Assoc("%", FormHead(f), [f.letter]);
  }
}
