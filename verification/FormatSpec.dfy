/** Format specifications, as text and as values. Parsing is stated on what is left of the
    format string, and returns what it leaves in turn. */
module FormatSpec {
  import opened Kernel

  const LEFT_JUSTIFY: bv8 := 1
  const FORCE_SIGN: bv8 := 2
  const FORCE_SPACE: bv8 := 4
  const FORCE_POINT: bv8 := 8
  const ZERO_PAD: bv8 := 16

  /** struct format_spec; -1 stands for an absent width or precision, '\0' for no
      recognised specifier. */
  datatype Spec = Spec(flags: bv8, minWidth: int, precision: int, specifier: char)

  /** What is at the cursor: the terminator, at the end. */
  function Head(s: string): char {
    if s == "" then '\0' else s[0]
  }

  predicate IsFlag(c: char) {
    c == '-' || c == '+' || c == ' ' || c == '#' || c == '0'
  }

  function FlagBit(c: char): bv8
    requires IsFlag(c)
  {
    match c
    case '-' => LEFT_JUSTIFY
    case '+' => FORCE_SIGN
    case ' ' => FORCE_SPACE
    case '#' => FORCE_POINT
    case _ => ZERO_PAD
  }

  predicate IsDigit(c: char) {
    '0' <= c <= '9'
  }

  function DigitOf(c: char): (d: int)
    requires IsDigit(c)
    ensures 0 <= d < 10
  {
    c as int - '0' as int
  }

  predicate IsSpecifier(c: char) {
    c == 'd' || c == 'i' || c == 'u' || c == 'x' || c == 'c' || c == 's' || c == 'p' || c == '%'
  }

  /** Storing an int in an int16_t. */
  function ToInt16(x: int): (y: int)
    ensures -0x8000 <= y < 0x8000
    ensures (x - y) % 0x1_0000 == 0
    ensures -0x8000 <= x < 0x8000 ==> y == x
  {
    (x + 0x8000) % 0x1_0000 - 0x8000
  }

  /** s ends with rest: a cursor that only moves forward, and not past the terminator. */
  predicate Suffix(rest: string, s: string) {
    |rest| <= |s| && rest == s[|s| - |rest|..]
  }

  lemma SuffixTail(rest: string, s: string)
    requires s != "" && Suffix(rest, s[1..])
    ensures Suffix(rest, s)
  {
  }

  lemma SuffixTransitive(a: string, b: string, c: string)
    requires Suffix(a, b) && Suffix(b, c)
    ensures Suffix(a, c)
  {
  }

  // ---- parsing ----

  function ParseFlags(s: string, flags: bv8): (bv8, string) {
    if s != "" && IsFlag(s[0]) then ParseFlags(s[1..], flags | FlagBit(s[0])) else (flags, s)
  }

  lemma {:induction false} FlagsSuffix(s: string, flags: bv8)
    ensures Suffix(ParseFlags(s, flags).1, s)
  {
    if s != "" && IsFlag(s[0]) {
      FlagsSuffix(s[1..], flags | FlagBit(s[0]));
      SuffixTail(ParseFlags(s, flags).1, s);
    }
  }

  /** The next value of a width or precision after one more digit. */
  function AddDigit(n: int, c: char): int
    requires IsDigit(c)
  {
    ToInt16(if n < 0 then DigitOf(c) else n * 10 + DigitOf(c))
  }

  /** A run of digits; a '*' is skipped and ends it. */
  function ParseNumber(s: string, n: int): (int, string) {
    if s != "" && s[0] == '*' then (n, s[1..])
    else if s != "" && IsDigit(s[0]) then ParseNumber(s[1..], AddDigit(n, s[0]))
    else (n, s)
  }

  lemma {:induction false} NumberSuffix(s: string, n: int)
    ensures Suffix(ParseNumber(s, n).1, s)
  {
    if s != "" && s[0] != '*' && IsDigit(s[0]) {
      NumberSuffix(s[1..], AddDigit(n, s[0]));
      SuffixTail(ParseNumber(s, n).1, s);
    }
  }

  function Clamp(width: int): int {
    if width > 1024 then 1024 else width
  }

  function ParsePrecision(s: string): (int, string) {
    if Head(s) == '.' && s != "" then ParseNumber(s[1..], -1) else (-1, s)
  }

  lemma PrecisionSuffix(s: string)
    ensures Suffix(ParsePrecision(s).1, s)
  {
    if Head(s) == '.' && s != "" {
      NumberSuffix(s[1..], -1);
      SuffixTail(ParsePrecision(s).1, s);
    }
  }

  function ParseSpecifier(s: string): (char, string) {
    if s != "" && IsSpecifier(s[0]) then (s[0], s[1..]) else ('\0', s)
  }

  /** parse_format_spec, from just after the '%'. */
  function ParseSpec(s: string): (r: (Spec, string))
    ensures Suffix(r.1, s)
  {
    var (flags, s1) := ParseFlags(s, 0);
    var (width, s2) := ParseNumber(s1, -1);
    var (precision, s3) := ParsePrecision(s2);
    var (specifier, s4) := ParseSpecifier(s3);
    FlagsSuffix(s, 0);
    NumberSuffix(s1, -1);
    PrecisionSuffix(s2);
    SuffixTransitive(s2, s1, s);
    SuffixTransitive(s3, s2, s);
    SuffixTransitive(s4, s3, s);
    (Spec(flags, Clamp(width), precision, specifier), s4)
  }

  /** The stages of the parser, put together. */
  lemma ParseStages(s: string, flags: bv8, s1: string, width: int, s2: string, precision: int, s3: string,
                    specifier: char, s4: string)
    requires ParseFlags(s, 0) == (flags, s1) && ParseNumber(s1, -1) == (width, s2)
    requires ParsePrecision(s2) == (precision, s3) && ParseSpecifier(s3) == (specifier, s4)
    ensures ParseSpec(s) == (Spec(flags, Clamp(width), precision, specifier), s4)
  {
  }

  // ---- rendering ----

  function Decimal(n: nat): (s: string)
    ensures |s| > 0 && forall i :: 0 <= i < |s| ==> IsDigit(s[i])
  {
    if n < 10 then [DigitChar(n)] else Decimal(n / 10) + [DigitChar(n % 10)]
  }

  function DigitChar(d: nat): (c: char)
    requires d < 10
    ensures IsDigit(c) && DigitOf(c) == d
  {
    (d + '0' as int) as char
  }

  function RenderFlag(flags: bv8, bit: bv8, c: char): string {
    if flags & bit != 0 then [c] else ""
  }

  predicate AreFlags(order: string) {
    forall i :: 0 <= i < |order| ==> IsFlag(order[i])
  }

  /** The flags of a list that are set, in its order. */
  function RenderFlags(flags: bv8, order: string): string
    requires AreFlags(order)
  {
    if order == "" then ""
    else RenderFlag(flags, FlagBit(order[0]), order[0]) + RenderFlags(flags, order[1..])
  }

  /** A width or a precision as it may be written: digits, -1 for none, and then perhaps a
      '*'. */
  datatype Field = Field(value: int, star: bool)

  function RenderField(f: Field): string {
    (if f.value < 0 then "" else Decimal(f.value)) + (if f.star then "*" else "")
  }

  function RenderPoint(precision: Option<Field>): string {
    match precision
    case None => ""
    case Some(f) => "." + RenderField(f)
  }

  /** A directive as it may be written, after its '%'. */
  datatype Form = Form(flags: string, width: Field, precision: Option<Field>, letter: char)

  /** All of it but the letter. */
  function FormHead(f: Form): string {
    f.flags + (RenderField(f.width) + RenderPoint(f.precision))
  }

  function FormText(f: Form): string {
    FormHead(f) + [f.letter]
  }

  /** Any flags, in any order and number; a width from 1 to 32767 without leading zeros, or
      none; a precision up to 32767, or a point alone, or none; and any letter that does not
      continue one of these. */
  predicate ValidForm(f: Form) {
    && (forall i :: 0 <= i < |f.flags| ==>
          f.flags[i] == '-' || f.flags[i] == '+' || f.flags[i] == ' ' || f.flags[i] == '#' || f.flags[i] == '0')
    && (f.width.value == -1 || 1 <= f.width.value <= 32767)
    && (f.precision.Some? ==> -1 <= f.precision.value.value <= 32767)
    && f.letter != '-' && f.letter != '+' && f.letter != ' ' && f.letter != '#' && f.letter != '.' && f.letter != '*'
    && !('0' <= f.letter <= '9')
  }

  /** The flags a list of flag characters stands for. */
  function AllBits(order: string): bv8
    requires AreFlags(order)
  {
    if order == "" then 0 else FlagBit(order[0]) | AllBits(order[1..])
  }

  /** An order to write flags in: it names all five, and may name them more than once. */
  predicate FlagOrder(order: string) {
    AreFlags(order) && AllBits(order) == 31
  }

  /** A specification as it would be written, its flags in the given order. */
  function Render(spec: Spec, order: string): Form
    requires AreFlags(order)
  {
    Form(RenderFlags(spec.flags, order), Field(spec.minWidth, false),
         if spec.precision < 0 then None else Some(Field(spec.precision, false)), spec.specifier)
  }

  /** What can be written: any of the five flags, a width from 1 on or none and a precision
      or none, both fitting their int16_t fields, and a specifier. */
  predicate Writable(spec: Spec) {
    && spec.flags < 32
    && (spec.minWidth == -1 || 1 <= spec.minWidth < 0x8000)
    && -1 <= spec.precision < 0x8000
    && IsSpecifier(spec.specifier)
  }
}
