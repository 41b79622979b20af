/** The formatter of stdlib.cpp: a cursor moving over the format string, digits collected
    in a buffer, and characters written one at a time. */
module Stdlib {
  import opened Kernel
  import opened FormatSpec
  import opened PrintSpec

  /** The counting writer of one vfprintf call: what it has passed to putc, and the count
      it keeps, a size_t. */
  class Writer {
    var out: string
    var tot: Word

    ghost predicate Valid()
      reads this
    {
      tot == Wrap(|out|)
    }

    constructor ()
      ensures Valid() && out == "" && tot == 0
    {
      out, tot := "", 0;
    }

    method Putc(c: char)
      requires Valid()
      modifies this
      ensures Valid() && out == old(out) + [c]
    {
      out := out + [c];
      tot := Wrap(tot + 1);
    }
  }

  /** The character under the cursor, the terminator included. */
  function CharAt(fmt: string, pos: nat): char
    requires pos <= |fmt|
  {
    if pos == |fmt| then '\0' else fmt[pos]
  }

  // ---- parse_format_spec ----

  /** The switch of the flag loop. */
  method ReadFlag(c: char) returns (known: bool, bit: bv8)
    ensures known <==> IsFlag(c)
    ensures known ==> bit == FlagBit(c)
  {
    match c {
      case '-' => return true, LEFT_JUSTIFY;
      case '+' => return true, FORCE_SIGN;
      case ' ' => return true, FORCE_SPACE;
      case '#' => return true, FORCE_POINT;
      case '0' => return true, ZERO_PAD;
      case _ => return false, 0;
    }
  }

  method ReadFlags(fmt: string, pos: nat) returns (flags: bv8, next: nat)
    requires pos <= |fmt| && '\0' !in fmt
    ensures pos <= next <= |fmt|
    ensures (flags, fmt[next..]) == ParseFlags(fmt[pos..], 0)
  {
    flags, next := 0, pos;
    while CharAt(fmt, next) != '\0'
      invariant pos <= next <= |fmt|
      invariant ParseFlags(fmt[next..], flags) == ParseFlags(fmt[pos..], 0)
      decreases |fmt| - next
    {
      var known, bit := ReadFlag(fmt[next]);
      FlagStep(fmt, next, flags);
      if !known {
        return;
      }
      flags := flags | bit;
      next := next + 1;
    }
    FlagsEnd(fmt[next..], flags);
  }

  lemma FlagStep(fmt: string, pos: nat, flags: bv8)
    requires pos < |fmt|
    ensures ParseFlags(fmt[pos..], flags) ==
            if IsFlag(fmt[pos]) then ParseFlags(fmt[pos + 1..], flags | FlagBit(fmt[pos])) else (flags, fmt[pos..])
  {
    assert fmt[pos..][1..] == fmt[pos + 1..];
  }

  lemma FlagsEnd(s: string, flags: bv8)
    requires s == ""
    ensures ParseFlags(s, flags) == (flags, s)
  {
  }

  /** A width or a precision. */
  method ReadNumber(fmt: string, pos: nat) returns (n: int, next: nat)
    requires pos <= |fmt| && '\0' !in fmt
    ensures pos <= next <= |fmt|
    ensures (n, fmt[next..]) == ParseNumber(fmt[pos..], -1)
  {
    n, next := -1, pos;
    while CharAt(fmt, next) != '\0'
      invariant pos <= next <= |fmt|
      invariant ParseNumber(fmt[next..], n) == ParseNumber(fmt[pos..], -1)
      decreases |fmt| - next
    {
      NumberStep(fmt, next, n);
      var c := fmt[next];
      if c == '*' {
        next := next + 1;
        return;
      }
      if IsDigit(c) {
        n := ToInt16(if n < 0 then DigitOf(c) else n * 10 + DigitOf(c));
      } else {
        return;
      }
      next := next + 1;
    }
    NumberEnd(fmt[next..], n);
  }

  lemma NumberStep(fmt: string, pos: nat, n: int)
    requires pos < |fmt|
    ensures ParseNumber(fmt[pos..], n) ==
            if fmt[pos] == '*' then (n, fmt[pos + 1..])
            else if IsDigit(fmt[pos]) then ParseNumber(fmt[pos + 1..], AddDigit(n, fmt[pos]))
            else (n, fmt[pos..])
  {
    assert fmt[pos..][1..] == fmt[pos + 1..];
  }

  lemma NumberEnd(s: string, n: int)
    requires s == ""
    ensures ParseNumber(s, n) == (n, s)
  {
  }

  /** Reads a specification at the cursor and moves past it; the cursor never passes the
      terminator. */
  method ParseFormatSpec(fmt: string, pos: nat) returns (spec: Spec, next: nat)
    requires pos <= |fmt| && '\0' !in fmt
    ensures pos <= next <= |fmt|
    ensures (spec, fmt[next..]) == ParseSpec(fmt[pos..])
  {
    var flags, at1 := ReadFlags(fmt, pos);
    var width, at2 := ReadNumber(fmt, at1);
    ghost var written := width;
    if width > 1024 {
      width := 1024;
    }
    var precision, at3 := ReadPrecision(fmt, at2);
    var specifier;
    specifier, next := ReadSpecifier(fmt, at3);
    spec := Spec(flags, width, precision, specifier);
    ParseStages(fmt[pos..], flags, fmt[at1..], written, fmt[at2..], precision, fmt[at3..], specifier, fmt[next..]);
  }

  /** The specifier, if there is one. */
  method ReadSpecifier(fmt: string, pos: nat) returns (specifier: char, next: nat)
    requires pos <= |fmt| && '\0' !in fmt
    ensures pos <= next <= |fmt|
    ensures (specifier, fmt[next..]) == ParseSpecifier(fmt[pos..])
  {
    if IsSpecifier(CharAt(fmt, pos)) {
      assert fmt[pos..][1..] == fmt[pos + 1..];
      return fmt[pos], pos + 1;
    }
    return '\0', pos;
  }

  /** '.' and a number, or nothing. */
  method ReadPrecision(fmt: string, pos: nat) returns (precision: int, next: nat)
    requires pos <= |fmt| && '\0' !in fmt
    ensures pos <= next <= |fmt|
    ensures (precision, fmt[next..]) == ParsePrecision(fmt[pos..])
  {
    precision, next := -1, pos;
    if CharAt(fmt, next) == '.' {
      assert fmt[pos..][1..] == fmt[pos + 1..];
      precision, next := ReadNumber(fmt, next + 1);
    }
  }

  // ---- numbers ----

  /** The digits of `arg` into the buffer, lowest first, and how many. */
  method UnsignedToBuf(arg: Word, buf: array<char>) returns (len: nat)
    requires buf.Length == 32
    modifies buf
    ensures len == |Numeral(arg, 10)| <= 10
    ensures forall k :: 0 <= k < len ==> buf[k] == Numeral(arg, 10)[len - 1 - k]
  {
    ghost var s := Numeral(arg, 10);
    WordLength(arg);
    var left: nat := arg;
    len := 0;
    while left > 0
      invariant len <= |s| && Numeral(left, 10) == s[..|s| - len]
      invariant forall k :: 0 <= k < len ==> buf[k] == s[|s| - 1 - k]
    {
      buf[len] := NumeralChar(left % 10);
      left := left / 10;
      len := len + 1;
    }
    assert Numeral(left, 10) == "";
  }

  method HexToBuf(arg: Word, buf: array<char>) returns (len: nat)
    requires buf.Length == 32
    modifies buf
    ensures len == |Numeral(arg, 16)| <= 8
    ensures forall k :: 0 <= k < len ==> buf[k] == Numeral(arg, 16)[len - 1 - k]
  {
    ghost var s := Numeral(arg, 16);
    WordLength(arg);
    var left: nat := arg;
    len := 0;
    while left > 0
      invariant len <= |s| && Numeral(left, 16) == s[..|s| - len]
      invariant forall k :: 0 <= k < len ==> buf[k] == s[|s| - 1 - k]
    {
      if left % 16 < 10 {
        buf[len] := ('0' as int + left % 16) as char;
      } else {
        buf[len] := ('a' as int + left % 16 - 10) as char;
      }
      left := left / 16;
      len := len + 1;
    }
    assert Numeral(left, 16) == "";
  }

  /** The padding. */
  method WriteFill(w: Writer, spec: Spec, printLen: nat)
    requires w.Valid()
    modifies w
    ensures w.Valid()
    ensures w.out == old(w.out) + Fill(spec, printLen)
  {
    var fill := if spec.flags & ZERO_PAD != 0 then '0' else ' ';
    ghost var f := Fill(spec, printLen);
    var i := 0;
    while i < spec.minWidth - printLen
      invariant w.Valid() && 0 <= i <= |f| && w.out == old(w.out) + f[..i]
      decreases spec.minWidth - printLen - i
    {
      w.Putc(fill);
      assert f[..i + 1] == f[..i] + [fill];
      i := i + 1;
    }
    assert f[..i] == f;
  }

  lemma TakeMore(s: string, k: nat)
    requires k < |s|
    ensures s[..k + 1] == s[..k] + [s[k]]
  {
  }

  /** The buffer, highest digit first. */
  method WriteDigits(w: Writer, buf: array<char>, len: nat, ghost digits: string)
    requires len == |digits| <= buf.Length
    requires forall k :: 0 <= k < len ==> buf[k] == digits[len - 1 - k]
    requires w.Valid()
    modifies w
    ensures w.Valid()
    ensures w.out == old(w.out) + digits
  {
    var i := len;
    while i > 0
      invariant w.Valid() && 0 <= i <= len && w.out == old(w.out) + digits[..len - i]
    {
      TakeMore(digits, len - i);
      w.Putc(buf[i - 1]);
      i := i - 1;
    }
    assert digits[..len] == digits;
  }

  // ---- conversions ----

  method FormatUnsignedArg(w: Writer, spec: Spec, arg: Word)
    requires w.Valid()
    modifies w
    ensures w.Valid()
    ensures w.out == old(w.out) + FormatUnsigned(spec, arg, 10)
  {
    var buf := new char[32];
    var len := UnsignedToBuf(arg, buf);
    WriteLayout(w, spec, if arg == 0 then "0" else "", buf, len, Numeral(arg, 10));
  }

  method FormatHexArg(w: Writer, spec: Spec, arg: Word)
    requires w.Valid()
    modifies w
    ensures w.Valid()
    ensures w.out == old(w.out) + FormatUnsigned(spec, arg, 16)
  {
    var buf := new char[32];
    var len := HexToBuf(arg, buf);
    WriteLayout(w, spec, if arg == 0 then "0" else "", buf, len, Numeral(arg, 16));
  }

  /** The magnitude of INT_MIN wraps to itself, which read as unsigned is right. */
  method FormatIntArg(w: Writer, spec: Spec, arg: Word)
    requires w.Valid()
    modifies w
    ensures w.Valid()
    ensures w.out == old(w.out) + FormatInt(spec, arg)
  {
    var buf := new char[32];
    var x := ToInt32(arg);
    var extra := "";
    if x == 0 {
      extra := "0";
    } else if x < 0 {
      extra := "-";
      x := ToInt32(Wrap(x * -1));
    }
    var uarg := Wrap(x);
    assert uarg == Magnitude(ToInt32(arg));
    var len := UnsignedToBuf(uarg, buf);
    WriteLayout(w, spec, extra, buf, len, Numeral(uarg, 10));
  }

  /** The tail common to the three conversions: the extra character if there is one, the
      padding, the digits. */
  method WriteLayout(w: Writer, spec: Spec, extra: string, buf: array<char>, len: nat, ghost digits: string)
    requires |extra| <= 1 && len == |digits| <= buf.Length
    requires forall k :: 0 <= k < len ==> buf[k] == digits[len - 1 - k]
    requires w.Valid()
    modifies w
    ensures w.Valid()
    ensures w.out == old(w.out) + Layout(spec, extra, digits)
  {
    if extra != "" {
      w.Putc(extra[0]);
      assert extra == [extra[0]];
    }
    WriteFill(w, spec, if extra != "" then len + 1 else len);
    WriteDigits(w, buf, len, digits);
  }

  // ---- vfprintf ----

  /** One '%' and what follows: a supported specification consumes the next argument and
      moves the cursor past itself; anything else prints the '%' and moves one character.
      `piece` is what was written. */
  method WriteArg(w: Writer, fmt: string, pos: nat, args: seq<Word>, used: nat)
    returns (next: nat, used': nat, ghost piece: string)
    requires pos < |fmt| && fmt[pos] == '%' && '\0' !in fmt
    requires used + ArgCount(fmt[pos..]) <= |args|
    requires w.Valid()
    modifies w
    ensures w.Valid()
    ensures pos < next <= |fmt| && used <= used' && used' + ArgCount(fmt[next..]) == used + ArgCount(fmt[pos..])
    ensures w.out == old(w.out) + piece
    ensures Printf(fmt[pos..], args[used..]) == piece + Printf(fmt[next..], args[used'..])
  {
    ghost var s := fmt[pos..];
    assert s[1..] == fmt[pos + 1..];
    var spec, after := ParseFormatSpec(fmt, pos + 1);
    if Converts(spec.specifier) {
      DirectiveStep(s, spec, fmt[after..], args[used..]);
      assert args[used..][1..] == args[used + 1..];
      piece := FormatArg(spec, args[used]);
      WriteConversion(w, spec, args[used]);
      next, used' := after, used + 1;
    } else {
      PercentStep(s, args[used..]);
      piece := "%";
      w.Putc(fmt[pos]);
      next, used' := pos + 1, used;
    }
  }

  method WriteConversion(w: Writer, spec: Spec, arg: Word)
    requires Converts(spec.specifier)
    requires w.Valid()
    modifies w
    ensures w.Valid()
    ensures w.out == old(w.out) + FormatArg(spec, arg)
  {
    match spec.specifier {
      case 'd' => FormatIntArg(w, spec, arg);
      case 'i' => FormatIntArg(w, spec, arg);
      case 'u' => FormatUnsignedArg(w, spec, arg);
      case 'x' => FormatHexArg(w, spec, arg);
    }
  }

  /** Writes the format to `w`; the result is the number of characters written, as a
      size_t, and `used` the number of arguments consumed. */
  method Vfprintf(w: Writer, fmt: string, args: seq<Word>) returns (tot: Word, used: nat)
    requires w.out == "" && '\0' !in fmt && ArgCount(fmt) <= |args|
    requires w.Valid()
    modifies w
    ensures w.Valid()
    ensures w.out == Printf(fmt, args)
    ensures tot == Wrap(|Printf(fmt, args)|) && used == ArgCount(fmt)
  {
    var s := 0;
    used := 0;
    ghost var done := "";
    assert fmt[0..] == fmt && args[0..] == args;
    while CharAt(fmt, s) != '\0'
      invariant s <= |fmt| && used + ArgCount(fmt[s..]) == ArgCount(fmt)
      invariant Printf(fmt, args) == done + Printf(fmt[s..], args[used..])
      invariant w.Valid() && w.out == done
      decreases |fmt| - s
    {
      ghost var piece;
      ghost var rest := fmt[s..];
      if fmt[s] != '%' {
        assert rest[1..] == fmt[s + 1..];
        CharStep(rest, args[used..]);
        piece := [fmt[s]];
        w.Putc(fmt[s]);
        s := s + 1;
      } else {
        s, used, piece := WriteArg(w, fmt, s, args, used);
      }
      Assoc(done, piece, Printf(fmt[s..], args[used..]));
      done := done + piece;
    }
    assert fmt[s..] == "";
    tot := w.tot;
  }
}
