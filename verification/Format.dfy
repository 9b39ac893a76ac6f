/**
  What the HAL's two printers promise for a format string: first it is read into directives, then the
  directives are rendered against the arguments.
 */
module Format {
  import opened Words
  import opened Numerals
  import opened Bits

  type Base = b: nat | 8 <= b <= 16 witness 10

  datatype Conv =
    | Int(base: Base, signed: bool, upper: bool)
    | Chr
    | Str
    | Nothing // an unknown letter: prints nothing and takes no argument

  datatype Directive =
    | Lit(c: char)
    | Field(zero: bool, mods: string, conv: Conv)
    | Cut(mods: string) // a field that the format ends in: prints nothing

  // A format read into directives.
  datatype Script = Done | Then(first: Directive, rest: Script)

  // A C string, without its terminator.
  type CString = s: string | forall i :: 0 <= i < |s| ==> s[i] != '\0'

  // int, long and char arguments are words; %s takes a string.
  datatype Arg = Word(bits: bv32) | Text(text: CString)

  // The arguments va_arg has not taken yet.
  datatype Args = NoMore | Next(arg: Arg, rest: Args)

  // ---------- Reading a field ----------

  // The characters between '%' (or "%0") and the letter.
  predicate Modifier(c: char) {
    c == '.' || c == 'l' || '0' <= c <= '9'
  }

  function Modifiers(s: string): (n: nat)
    ensures n <= |s|
    ensures forall i :: 0 <= i < n ==> Modifier(s[i])
    ensures n < |s| ==> !Modifier(s[n])
  {
    if s == "" || !Modifier(s[0]) then 0 else 1 + Modifiers(s[1..])
  }

  function Decimal(s: string): string {
    if s == "" then ""
    else
      var n := |s| - 1;
      if '0' <= s[n] <= '9' then Decimal(s[..n]) + [s[n]] else Decimal(s[..n])
  }

  // The number its digits spell, or -1 without digits.
  function Number(s: string): int {
    if Decimal(s) == "" then -1 else Value(Decimal(s), 10)
  }

  function BeforePoint(s: string): (n: nat)
    ensures n <= |s|
    ensures forall i :: 0 <= i < n ==> s[i] != '.'
    ensures n < |s| ==> s[n] == '.'
  {
    if s == "" || s[0] == '.' then 0 else 1 + BeforePoint(s[1..])
  }

  // The field width: the number before the first point.
  function Width(mods: string): int {
    Number(mods[..BeforePoint(mods)])
  }

  // The number after the last point, which no conversion uses; -1 without a point.
  function Precision(mods: string): int {
    if BeforePoint(mods) == |mods| then -1
    else
      var rest := mods[BeforePoint(mods) + 1..];
      if Precision(rest) >= 0 then Precision(rest) else if Number(rest) < 0 then 0 else Number(rest)
  }

  function ConvOf(c: char): Conv {
    match c
    case 'd' => Int(10, true, false)
    case 'i' => Int(10, true, false)
    case 'u' => Int(10, false, false)
    case 'o' => Int(8, false, false)
    case 'x' => Int(16, false, false)
    case 'X' => Int(16, false, true)
    case 'c' => Chr
    case 's' => Str
    case _ => Nothing
  }

  // ---------- Phase one: directives ----------

  // alt_log_private_printf's formats.
  function Parse(fmt: string): Script {
    if fmt == "" then Done
    else if fmt[0] != '%' then Then(Lit(fmt[0]), Parse(fmt[1..]))
    else if |fmt| == 1 then Then(Cut(""), Done)
    else if fmt[1] == '%' then Then(Lit('%'), Parse(fmt[2..]))
    else
      var start := if fmt[1] == '0' then 2 else 1;
      var n := start + Modifiers(fmt[start..]);
      if n == |fmt| then Then(Cut(fmt[start..]), Done)
      else Then(Field(start == 2, fmt[start..n], ConvOf(fmt[n])), Parse(fmt[n + 1..]))
  }

  // alt_printf's: one letter after the '%'.
  function ConvOfSmall(c: char): Conv {
    match c
    case 'c' => Chr
    case 'x' => Int(16, false, false)
    case 's' => Str
    case _ => Nothing
  }

  function ParseSmall(fmt: string): Script {
    if fmt == "" then Done
    else if fmt[0] != '%' then Then(Lit(fmt[0]), ParseSmall(fmt[1..]))
    else if |fmt| == 1 then Then(Cut(""), Done)
    else if fmt[1] == '%' then Then(Lit('%'), ParseSmall(fmt[2..]))
    else Then(Field(false, "", ConvOfSmall(fmt[1])), ParseSmall(fmt[2..]))
  }

  // ---------- Phase two: rendering ----------

  function Repeat(c: char, n: int): (s: string)
    ensures |s| == if n > 0 then n else 0
    ensures forall i :: 0 <= i < |s| ==> s[i] == c
  {
    if n <= 0 then "" else Repeat(c, n - 1) + [c]
  }

  predicate Negative(v: u32, signed: bool) {
    signed && v >= 0x8000_0000
  }

  function Magnitude(v: u32, signed: bool): u32 {
    if Negative(v, signed) then WRAP - v else v
  }

  function Sign(v: u32, signed: bool): string {
    if Negative(v, signed) then "-" else ""
  }

  function RenderInt(zero: bool, width: int, base: Base, signed: bool, upper: bool, v: u32): string {
    var sign, digits := Sign(v, signed), Digits(Magnitude(v, signed), base, upper);
    var pad := width - |sign| - |digits|;
    if zero then sign + Repeat('0', pad) + digits else Repeat(' ', pad) + sign + digits
  }

  function Low8(v: u32): char {
    (v % 256) as char
  }

  predicate Takes(d: Directive) {
    d.Field? && d.conv != Nothing
  }

  // The argument is of the type its directive reads; no object is larger than half the address space.
  predicate Fits(d: Directive, a: Arg) {
    && (d.Field? && d.conv.Str? <==> a.Text?)
    && (a.Text? ==> |a.text| < 0x8000_0000)
  }

  // The number before the point and the one after it stay ints while they are read.
  predicate FitInt(mods: string) {
    && Width(mods) < 0x8000_0000 && Precision(mods) < 0x8000_0000
    && (mods == "" || FitInt(mods[..|mods| - 1]))
  }

  // What C demands of a call: the numbers in the format are ints, the arguments are those it asks for.
  predicate Proper(ds: Script, args: Args) {
    match ds
    case Done => true
    case Then(d, rest) =>
      && (d.Lit? || FitInt(d.mods))
      && if Takes(d) then args.Next? && Fits(d, args.arg) && Proper(rest, args.rest) else Proper(rest, args)
  }

  function Render(d: Directive, a: Arg): string
    requires Takes(d) && Fits(d, a)
  {
    match d.conv
    case Int(base, signed, upper) => RenderInt(d.zero, Width(d.mods), base, signed, upper, ToNat(a.bits))
    case Chr => Repeat(' ', Width(d.mods) - 1) + [Low8(ToNat(a.bits))]
    case Str => Repeat(' ', Width(d.mods) - |a.text|) + a.text
  }

  // What a directive prints that takes no argument.
  function Plain(d: Directive): string {
    if d.Lit? then [d.c] else ""
  }

  function Output(ds: Script, args: Args): string
    requires Proper(ds, args)
  {
    match ds
    case Done => ""
    case Then(d, rest) =>
      if Takes(d) then Render(d, args.arg) + Output(rest, args.rest) else Plain(d) + Output(rest, args)
  }
}
