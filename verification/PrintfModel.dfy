/** The formatter of kernel/lib/printf.c on values: number printing, directives, and the text a format stands for. */
module PrintfModel {
  import opened Words
  import opened Libc

  const ZERO: Byte := 48
  const PERCENT: Byte := 37

  // ---------- numbers ----------

  /** The character for one digit, cut to a byte. */
  function DigitChar(d: nat): Byte {
    if d < 10 then d + 48 else (d - 10 + 65) % 256
  }

  /** The digits of a number, most significant first; none for 0. */
  function Digits(val: nat, base: nat): seq<Byte>
    requires 2 <= base
  {
    if val == 0 then [] else Digits(val / base, base) + [DigitChar(val % base)]
  }

  function Repeat(c: Byte, n: nat): (r: seq<Byte>)
    ensures |r| == n
  {
    seq(n, _ => c)
  }

  /** What `parse_num` appends. */
  function Number(val: nat, base: nat, width: int, zeroPadding: bool): seq<Byte>
    requires 2 <= base
  {
    var digits := if val == 0 then [ZERO] else Digits(val, base);
    Repeat(if zeroPadding then ZERO else SPACE, if width > |digits| then width - |digits| else 0) + digits
  }

  /** A number below base^n has at most n digits. */
  lemma {:induction false} DigitCount(val: nat, base: nat, n: nat)
    requires 2 <= base && val < Power(base, n)
    ensures |Digits(val, base)| <= n
    decreases n
  {
    if val > 0 && n > 0 {
      var p, q := Power(base, n - 1), val / base;
      QuotientBelow(val, base, p);
      DigitCount(q, base, n - 1);
      assert |Digits(val, base)| == |Digits(q, base)| + 1;
    }
  }

  lemma QuotientBelow(val: nat, base: nat, p: nat)
    requires 0 < base && val < base * p
    ensures val / base < p
  {
    var q := val / base;
    assert val == q * base + val % base;
    if q >= p { MulMonotone(base, p, q); }
  }

  lemma MulMonotone(base: nat, p: nat, q: nat)
    requires p <= q
    ensures base * p <= base * q && base * q == q * base
  {
  }

  lemma {:induction false} PowerGrows(base: nat, n: nat)
    requires 2 <= base
    ensures Power(2, n) <= Power(base, n)
  {
    if n > 0 {
      PowerGrows(base, n - 1);
      MulMonotone(2, Power(2, n - 1), Power(base, n - 1));
      assert 2 * Power(base, n - 1) <= base * Power(base, n - 1) by {
        MulMonotone(Power(base, n - 1), 2, base);
      }
    }
  }

  /** Every 32-bit number fits the scratch buffer of `parse_num`, in any base. */
  lemma DigitsFitScratch(val: Word, base: nat)
    requires 2 <= base
    ensures |Digits(val, base)| <= 32
  {
    TwoToThe32();
    PowerGrows(base, 32);
    DigitCount(val, base, 32);
  }

  /** The printed width: the field width, the number of digits, or 1, whichever is greatest. */
  lemma NumberLength(val: nat, base: nat, width: int, zeroPadding: bool)
    requires 2 <= base
    ensures var d := |Digits(val, base)|;
      |Number(val, base, width, zeroPadding)| == if width > d && width > 1 then width else if d > 1 then d else 1
  {
    if val > 0 { assert |Digits(val, base)| >= 1; }
  }

  /** The value of a digit, upper-case letters standing for the digits from ten on. */
  function CharValue(c: Byte): int {
    if c < 58 then (c as int) - 48 else (c as int) - 55
  }

  function Numeral(s: seq<Byte>, base: nat): int {
    if s == [] then 0 else Numeral(s[..|s| - 1], base) * base + CharValue(s[|s| - 1])
  }

  lemma {:induction false} NumeralPush(s: seq<Byte>, c: Byte, base: nat)
    ensures Numeral(s + [c], base) == Numeral(s, base) * base + CharValue(c)
  {
    assert (s + [c])[..|s|] == s;
  }

  lemma DigitValue(d: nat)
    requires d < 36
    ensures CharValue(DigitChar(d)) == d && (d > 0 ==> DigitChar(d) != 48)
  {
  }

  lemma NumeralStep(high: seq<Byte>, q: nat, d: nat, base: nat)
    requires Numeral(high, base) == q && d < 36
    ensures Numeral(high + [DigitChar(d)], base) == q * base + d
  {
    NumeralPush(high, DigitChar(d), base);
    DigitValue(d);
  }

  lemma SplitNumber(val: nat, base: nat) returns (q: nat, d: nat)
    requires 0 < val && 2 <= base
    ensures q < val && d < base && val == q * base + d && (q == 0 ==> d > 0)
    ensures Digits(val, base) == Digits(q, base) + [DigitChar(d)]
  {
    q, d := val / base, val % base;
    QuotientSmaller(val, base);
  }

  /** In every base that has a digit for each remainder, the digits determine the number, and none is wasted. */
  lemma {:induction false} DigitsRoundTrip(val: nat, base: nat)
    requires 2 <= base <= 36
    ensures Numeral(Digits(val, base), base) == val
    ensures val > 0 ==> |Digits(val, base)| > 0 && Digits(val, base)[0] != 48
    decreases val
  {
    if val > 0 {
      var q, d := SplitNumber(val, base);
      hide Digits, DigitChar, Numeral;
      DigitsRoundTrip(q, base);
      NumeralStep(Digits(q, base), q, d, base);
      DigitValue(d);
      if q == 0 { NoDigits(base); }
    }
  }

  lemma NoDigits(base: nat)
    requires 2 <= base
    ensures Digits(0, base) == []
  {
  }

  lemma QuotientSmaller(x: nat, base: nat)
    requires 0 < x && 2 <= base
    ensures x / base < x
  {
    var q := x / base;
    assert x == q * base + x % base;
    if q >= x { MulMonotone(x, 2, base); MulMonotone(base, x, q); }
  }

  /** A printed number is padding on the left, zeros or spaces, and then its digits, or 0. */
  lemma NumberMeaning(val: nat, base: nat, width: int, zeroPadding: bool)
    requires 2 <= base
    ensures var text, digits := Number(val, base, width, zeroPadding), if val == 0 then [48] else Digits(val, base);
      && |digits| <= |text| && text[|text| - |digits|..] == digits
      && (|text| == |digits| || |text| == width)
      && forall i :: 0 <= i < |text| - |digits| ==> text[i] == if zeroPadding then 48 else 32
  {
  }

  // ---------- atoi undoes decimal printing ----------

  function Scale(val: nat, acc: nat): nat {
    if val == 0 then acc else Scale(val / 10, acc) * 10
  }

  lemma {:induction false} ValueAfterDigits(val: nat, rest: seq<Byte>, acc: nat)
    ensures Value(Digits(val, 10) + rest, acc) == Value(rest, Scale(val, acc) + val)
    decreases val
  {
    if val == 0 {
      assert Digits(val, 10) + rest == rest;
    } else {
      var d := DigitChar(val % 10);
      assert Digits(val, 10) + rest == Digits(val / 10, 10) + ([d] + rest);
      ValueAfterDigits(val / 10, [d] + rest, acc);
      assert ([d] + rest)[1..] == rest;
    }
  }

  lemma {:induction false} ScaleZero(val: nat)
    ensures Scale(val, 0) == 0
    decreases val
  {
    if val > 0 { ScaleZero(val / 10); }
  }

  /** Reading a number's digits back gives the number, wherever they end. */
  lemma ValueOfDigits(val: nat, rest: seq<Byte>)
    requires rest == [] || !IsDigit(rest[0])
    ensures Value(Digits(val, 10) + rest, 0) == val
  {
    ValueAfterDigits(val, rest, 0);
    ScaleZero(val);
  }

  lemma {:induction false} ValueOfZeros(n: nat, rest: seq<Byte>)
    ensures Value(Repeat(ZERO, n) + rest, 0) == Value(rest, 0)
  {
    if n == 0 {
      assert Repeat(ZERO, n) + rest == rest;
    } else {
      assert (Repeat(ZERO, n) + rest)[1..] == Repeat(ZERO, n - 1) + rest;
      ValueOfZeros(n - 1, rest);
    }
  }

  /** The value `atoi` finds in a printed decimal, which is the number exactly when it is not behind spaces, or is 0. */
  lemma ValueOfNumberIff(val: nat, width: int, zeroPadding: bool)
    ensures Value(Number(val, 10, width, zeroPadding) + [0], 0) == val
       <==> zeroPadding || width <= |Number(val, 10, 0, false)| || val == 0
  {
    var digits := if val == 0 then [ZERO] else Digits(val, 10);
    var n := if width > |digits| then width - |digits| else 0;
    assert Repeat(SPACE, 0) + digits == digits;
    var text := Number(val, 10, width, zeroPadding) + [0];
    if val > 0 { ValueOfDigits(val, [0]); }
    if n == 0 {
      assert text == digits + [0];
    } else if zeroPadding {
      assert text == Repeat(ZERO, n) + (digits + [0]);
      ValueOfZeros(n, digits + [0]);
    } else {
      assert text[0] == SPACE;
    }
    if val == 0 {
      assert digits + [0] == [ZERO, 0] && Value([ZERO, 0], 0) == Value([0], 0) by { assert [ZERO, 0][1..] == [0]; }
    }
  }

  /** `atoi` reads a printed decimal back exactly when the number fits an `int` and is not behind spaces, or is 0. */
  lemma AtoiUndoesNumberIff(val: nat, width: int, zeroPadding: bool)
    ensures var text := Number(val, 10, width, zeroPadding) + [0];
      FitsInt(text, 0) && Value(text, 0) == val
      <==> val <= INT_MAX && (zeroPadding || width <= |Number(val, 10, 0, false)| || val == 0)
  {
    hide Number, Value, FitsInt;
    ValueOfNumberIff(val, width, zeroPadding);
    FitsIntIff(Number(val, 10, width, zeroPadding) + [0], 0);
  }

  // ---------- hexadecimal ----------

  /** A character of `"0123456789abcdef"`. */
  function HexChar(d: nat): Byte
    requires d < 16
  {
    if d < 10 then d + 48 else d - 10 + 97
  }

  /** What `parse_hex` appends for the low n digits: always n of them, whatever the field width. */
  function HexDigits(val: nat, n: nat): (r: seq<Byte>)
    ensures |r| == n
  {
    if n == 0 then [] else HexDigits(val / 16, n - 1) + [HexChar(val % 16)]
  }

  function HexValue(s: seq<Byte>): nat {
    if s == [] then 0 else
    var c := s[|s| - 1];
    HexValue(s[..|s| - 1]) * 16 + (if c < 97 then (if c < 48 then 0 else c - 48) else c - 87)
  }

  /** The eight digits determine the number. */
  lemma {:induction false} HexRoundTrip(val: nat, n: nat)
    requires val < Power(16, n)
    ensures HexValue(HexDigits(val, n)) == val
  {
    if n > 0 {
      QuotientBelow(val, 16, Power(16, n - 1));
      HexRoundTrip(val / 16, n - 1);
      var r := HexDigits(val, n);
      assert r[..|r| - 1] == HexDigits(val / 16, n - 1);
    }
  }

  // ---------- formats ----------

  const LETTER_C: Byte := 99
  const LETTER_D: Byte := 100
  const LETTER_S: Byte := 115
  const LETTER_X: Byte := 120

  datatype Segment = Literal(c: Byte) | Directive(zero: bool, width: nat, conv: Byte)

  /** One value of the argument list; a null string is `None`. */
  datatype Text = None | Some(chars: seq<Byte>)
  datatype Arg = IntArg(value: Word) | StrArg(text: Text)

  function DigitRun(s: seq<Byte>): (n: nat)
    ensures n <= |s| && (n < |s| ==> !IsDigit(s[n])) && forall i :: 0 <= i < n ==> IsDigit(s[i])
  {
    if s != [] && IsDigit(s[0]) then 1 + DigitRun(s[1..]) else 0
  }

  /** The part of a directive from its width on: after the '%' and a '0' flag. */
  function AfterFlag(body: seq<Byte>): seq<Byte> {
    if body != [] && body[0] == ZERO then body[1..] else body
  }

  /** The conversion character of the directive that starts after the '%', if the format does not end first. */
  predicate HasConversion(body: seq<Byte>) {
    DigitRun(AfterFlag(body)) < |AfterFlag(body)|
  }

  function ReadDirective(body: seq<Byte>): (r: (Segment, seq<Byte>))
    requires HasConversion(body)
    ensures |r.1| < |body| && r.0.Directive?
  {
    var rest := AfterFlag(body);
    var n := DigitRun(rest);
    (Directive(body != [] && body[0] == ZERO, Value(rest, 0), rest[n]), rest[n + 1..])
  }

  /** No directive is cut off by the end of the format. */
  predicate Complete(fmt: seq<Byte>)
    decreases |fmt|
  {
    fmt == [] ||
    if fmt[0] == PERCENT then HasConversion(fmt[1..]) && Complete(ReadDirective(fmt[1..]).1) else Complete(fmt[1..])
  }

  function Parse(fmt: seq<Byte>): seq<Segment>
    requires Complete(fmt)
    decreases |fmt|
  {
    if fmt == [] then []
    else if fmt[0] == PERCENT then
      var (seg, rest) := ReadDirective(fmt[1..]);
      [seg] + Parse(rest)
    else [Literal(fmt[0])] + Parse(fmt[1..])
  }

  /** A format written out. */
  function Format(segs: seq<Segment>): seq<Byte> {
    if segs == [] then [] else FormatOne(segs[0]) + Format(segs[1..])
  }

  function FormatOne(seg: Segment): seq<Byte> {
    match seg
    case Literal(c) => [c]
    case Directive(zero, width, conv) => [PERCENT] + (if zero then [ZERO] else []) + Digits(width, 10) + [conv]
  }

  predicate Writable(seg: Segment) {
    match seg
    case Literal(c) => c != PERCENT
    case Directive(_, _, conv) => !IsDigit(conv)
  }

  lemma {:induction false} RunOfDigits(val: nat, rest: seq<Byte>)
    requires rest != [] && !IsDigit(rest[0])
    ensures DigitRun(Digits(val, 10) + rest) == |Digits(val, 10)|
    decreases val
  {
    forall i | 0 <= i < |Digits(val, 10)| ensures IsDigit(Digits(val, 10)[i]) {
      DigitsAreDigits(val, i);
    }
    var s := Digits(val, 10) + rest;
    assert s[|Digits(val, 10)|] == rest[0];
  }

  lemma {:induction false} DigitsAreDigits(val: nat, i: nat)
    requires i < |Digits(val, 10)|
    ensures IsDigit(Digits(val, 10)[i]) && (i == 0 ==> Digits(val, 10)[0] != ZERO)
    decreases val
  {
    var q := Digits(val / 10, 10);
    if i < |q| {
      DigitsAreDigits(val / 10, i);
    } else if val / 10 > 0 {
      assert |q| > 0;
    }
  }

  /** The flag is read off, and nothing of the width with it: a width does not start with a zero. */
  lemma FlagSplit(zero: bool, width: nat, conv: Byte, rest: seq<Byte>)
    requires !IsDigit(conv)
    ensures var tail := Digits(width, 10) + ([conv] + rest);
      var body := (if zero then [ZERO] else []) + tail;
      AfterFlag(body) == tail && (body[0] == ZERO <==> zero)
  {
    var tail := Digits(width, 10) + ([conv] + rest);
    if zero {
      assert ([ZERO] + tail)[1..] == tail;
    } else {
      assert [] + tail == tail;
      if width > 0 { DigitsAreDigits(width, 0); }
    }
  }

  lemma DirectiveRoundTrip(zero: bool, width: nat, conv: Byte, rest: seq<Byte>)
    requires !IsDigit(conv)
    ensures var body := (if zero then [ZERO] else []) + (Digits(width, 10) + ([conv] + rest));
      HasConversion(body) && ReadDirective(body) == (Directive(zero, width, conv), rest)
  {
    var tail := Digits(width, 10) + ([conv] + rest);
    FlagSplit(zero, width, conv, rest);
    RunOfDigits(width, [conv] + rest);
    ValueOfDigits(width, [conv] + rest);
    assert tail[|Digits(width, 10)| + 1..] == rest;
  }

  lemma ParseLiteral(c: Byte, rest: seq<Byte>)
    requires c != PERCENT && Complete(rest)
    ensures Complete([c] + rest) && Parse([c] + rest) == [Literal(c)] + Parse(rest)
  {
    assert ([c] + rest)[1..] == rest;
  }

  lemma ParseDirective(seg: Segment, body: seq<Byte>, rest: seq<Byte>)
    requires HasConversion(body) && ReadDirective(body) == (seg, rest) && Complete(rest)
    ensures Complete([PERCENT] + body) && Parse([PERCENT] + body) == [seg] + Parse(rest)
  {
    assert ([PERCENT] + body)[1..] == body;
  }

  lemma ParseOne(seg: Segment, rest: seq<Byte>)
    requires Writable(seg) && Complete(rest)
    ensures Complete(FormatOne(seg) + rest) && Parse(FormatOne(seg) + rest) == [seg] + Parse(rest)
  {
    match seg {
      case Literal(c) =>
        ParseLiteral(c, rest);
      case Directive(zero, width, conv) =>
        var body := (if zero then [ZERO] else []) + (Digits(width, 10) + ([conv] + rest));
        DirectiveRoundTrip(zero, width, conv, rest);
        ParseDirective(seg, body, rest);
        Regroup(if zero then [ZERO] else [], Digits(width, 10), conv, rest);
    }
  }

  lemma Regroup(flag: seq<Byte>, width: seq<Byte>, conv: Byte, rest: seq<Byte>)
    ensures [PERCENT] + flag + width + [conv] + rest == [PERCENT] + (flag + (width + ([conv] + rest)))
  {
  }

  /** A format that is written out from its segments is read back as those segments. */
  lemma {:induction false} ParseUndoesFormat(segs: seq<Segment>)
    requires forall i :: 0 <= i < |segs| ==> Writable(segs[i])
    ensures Complete(Format(segs)) && Parse(Format(segs)) == segs
    decreases |segs|
  {
    if segs != [] {
      ParseUndoesFormat(segs[1..]);
      ParseOne(segs[0], Format(segs[1..]));
    }
  }

  // ---------- rendering ----------

  predicate TakesInt(seg: Segment) { seg.Directive? && seg.conv in {LETTER_C, LETTER_D, LETTER_X} }
  predicate TakesText(seg: Segment) { seg.Directive? && seg.conv == LETTER_S }

  /** `parse_string`. */
  function TextOf(t: Text): seq<Byte> {
    match t
    case None => [40, 110, 117, 108, 108, 41] // (null)
    case Some(chars) => chars
  }

  function RenderInt(seg: Segment, value: Word): seq<Byte>
    requires TakesInt(seg)
  {
    if seg.conv == LETTER_D then Number(value, 10, seg.width, seg.zero)
    else if seg.conv == LETTER_X then HexDigits(value, 8)
    else [value % 256]
  }

  /** The argument a segment takes, if any, is next. */
  predicate Finds(seg: Segment, args: seq<Arg>) {
    (TakesInt(seg) ==> args != [] && args[0].IntArg?) && (TakesText(seg) ==> args != [] && args[0].StrArg?)
  }

  /** What one segment prints; an unknown directive prints nothing and takes nothing. */
  function SegmentText(seg: Segment, args: seq<Arg>): seq<Byte>
    requires Finds(seg, args)
  {
    if TakesInt(seg) then RenderInt(seg, args[0].value)
    else if TakesText(seg) then TextOf(args[0].text)
    else if seg.Literal? then [seg.c] else []
  }

  /** The arguments left after one segment. */
  function Rest(seg: Segment, args: seq<Arg>): seq<Arg>
    requires Finds(seg, args)
  {
    if TakesInt(seg) || TakesText(seg) then args[1..] else args
  }

  /** Every directive that takes an argument finds one of its kind. */
  predicate Supplied(segs: seq<Segment>, args: seq<Arg>)
    decreases |segs|
  {
    segs == [] || (Finds(segs[0], args) && Supplied(segs[1..], Rest(segs[0], args)))
  }

  /** The text of a format: its segments' texts in order. */
  function Render(segs: seq<Segment>, args: seq<Arg>): seq<Byte>
    requires Supplied(segs, args)
    decreases |segs|
  {
    if segs == [] then [] else SegmentText(segs[0], args) + Render(segs[1..], Rest(segs[0], args))
  }

  lemma MoreArgs(seg: Segment, xs: seq<Arg>, ys: seq<Arg>)
    requires Finds(seg, xs)
    ensures Finds(seg, xs + ys) && SegmentText(seg, xs + ys) == SegmentText(seg, xs)
    ensures Rest(seg, xs + ys) == Rest(seg, xs) + ys
  {
    if xs != [] { assert (xs + ys)[1..] == xs[1..] + ys; }
  }

  /** Rendering a concatenation of segments is the concatenation of the renderings. */
  lemma {:induction false} RenderConcat(a: seq<Segment>, b: seq<Segment>, xs: seq<Arg>, ys: seq<Arg>)
    requires Supplied(a, xs) && Supplied(b, ys) && Consumes(a) == |xs|
    ensures Supplied(a + b, xs + ys) && Render(a + b, xs + ys) == Render(a, xs) + Render(b, ys)
    decreases |a|
  {
    if a == [] {
      assert a + b == b && xs + ys == ys;
    } else {
      RenderConcat(a[1..], b, Rest(a[0], xs), ys);
      RenderFirst(a, xs);
      hide SegmentText, Finds, Render, Supplied, Consumes;
      RenderNext(a, b, xs, ys);
      Associate(SegmentText(a[0], xs), Render(a[1..], Rest(a[0], xs)), Render(b, ys));
    }
  }

  lemma {:induction false} RenderFirst(a: seq<Segment>, xs: seq<Arg>)
    requires a != [] && Supplied(a, xs)
    ensures Render(a, xs) == SegmentText(a[0], xs) + Render(a[1..], Rest(a[0], xs))
  {
  }

  lemma {:induction false} RenderNext(a: seq<Segment>, b: seq<Segment>, xs: seq<Arg>, ys: seq<Arg>)
    requires a != [] && Finds(a[0], xs) && Supplied(a[1..] + b, Rest(a[0], xs) + ys)
    ensures Supplied(a + b, xs + ys)
    ensures Render(a + b, xs + ys) == SegmentText(a[0], xs) + Render(a[1..] + b, Rest(a[0], xs) + ys)
  {
    assert (a + b)[0] == a[0] && (a + b)[1..] == a[1..] + b;
    MoreArgs(a[0], xs, ys);
  }

  /** How many arguments a format takes. */
  function Consumes(segs: seq<Segment>): nat {
    if segs == [] then 0 else (if TakesInt(segs[0]) || TakesText(segs[0]) then 1 else 0) + Consumes(segs[1..])
  }

  /** What follows the end of a number changes neither its digits nor its value. */
  lemma {:induction false} DigitsEnd(x: seq<Byte>, y: seq<Byte>, acc: nat)
    requires DigitRun(x) < |x|
    ensures DigitRun(x + y) == DigitRun(x) && Value(x + y, acc) == Value(x, acc)
  {
    if IsDigit(x[0]) {
      assert (x + y)[1..] == x[1..] + y;
      DigitsEnd(x[1..], y, acc * 10 + (x[0] - 48));
    }
  }

  lemma DropConcat(x: seq<Byte>, y: seq<Byte>, k: nat)
    requires k <= |x|
    ensures (x + y)[k..] == x[k..] + y
  {
  }

  lemma AfterFlagConcat(body: seq<Byte>, g: seq<Byte>)
    requires body != []
    ensures AfterFlag(body + g) == AfterFlag(body) + g
  {
    DropConcat(body, g, 1);
  }

  lemma DirectiveConcat(body: seq<Byte>, g: seq<Byte>)
    requires HasConversion(body)
    ensures HasConversion(body + g)
    ensures ReadDirective(body + g) == (ReadDirective(body).0, ReadDirective(body).1 + g)
  {
    hide DigitRun, Value;
    AfterFlagConcat(body, g);
    DigitsEnd(AfterFlag(body), g, 0);
    DropConcat(AfterFlag(body), g, DigitRun(AfterFlag(body)) + 1);
  }

  /** Parsing distributes over the concatenation of formats that are complete. */
  lemma {:induction false} ParseConcat(f: seq<Byte>, g: seq<Byte>)
    requires Complete(f) && Complete(g)
    ensures Complete(f + g) && Parse(f + g) == Parse(f) + Parse(g)
    decreases |f|, 1
  {
    if f == [] {
      assert f + g == g;
    } else {
      ParseRestConcat(f, g);
    }
  }

  lemma {:induction false} ParseRestConcat(f: seq<Byte>, g: seq<Byte>)
    requires f != [] && Complete(f) && Complete(g)
    ensures Complete(f + g) && Parse(f + g) == Parse(f) + Parse(g)
    decreases |f|, 0
  {
    var body := f[1..];
    assert f + g == [f[0]] + (body + g);
    if f[0] != PERCENT {
      ParseConcat(body, g);
      ParseLiteral(f[0], body + g);
      Associate([Literal(f[0])], Parse(body), Parse(g));
    } else {
      hide ReadDirective, HasConversion;
      var (seg, rest) := ReadDirective(body);
      ParseConcat(rest, g);
      DirectiveConcat(body, g);
      ParseDirective(seg, body + g, rest + g);
      Associate([seg], Parse(rest), Parse(g));
    }
  }

  lemma Associate<T>(a: seq<T>, b: seq<T>, c: seq<T>)
    ensures a + (b + c) == a + b + c
  {
  }

  /** Formats compose: a concatenated format prints what its parts print, each with its own arguments. */
  lemma FormatsCompose(f: seq<Byte>, g: seq<Byte>, xs: seq<Arg>, ys: seq<Arg>)
    requires Complete(f) && Complete(g) && Supplied(Parse(f), xs) && Supplied(Parse(g), ys)
    requires Consumes(Parse(f)) == |xs|
    ensures Complete(f + g) && Supplied(Parse(f + g), xs + ys)
    ensures Render(Parse(f + g), xs + ys) == Render(Parse(f), xs) + Render(Parse(g), ys)
  {
    ParseConcat(f, g);
    RenderConcat(Parse(f), Parse(g), xs, ys);
  }

  // ---------- what each directive prints ----------

  /** A directive written out: its flag, its width unless that is 0, and its letter. */
  function Written(zero: bool, width: nat, conv: Byte): seq<Byte> {
    [37] + (if zero then [48] else []) + Digits(width, 10) + [conv]
  }

  lemma ParsesAlone(zero: bool, width: nat, conv: Byte)
    requires !(48 <= conv <= 57)
    ensures Complete(Written(zero, width, conv))
    ensures Parse(Written(zero, width, conv)) == [Directive(zero, width, conv)]
  {
    var seg := Directive(zero, width, conv);
    ParseUndoesFormat([seg]);
    assert Format([seg]) == FormatOne(seg) + Format([]) == FormatOne(seg);
    assert FormatOne(seg) == Written(zero, width, conv);
  }

  lemma {:induction false} RenderAlone(seg: Segment, args: seq<Arg>)
    requires Finds(seg, args)
    ensures Supplied([seg], args) && Render([seg], args) == SegmentText(seg, args)
  {
    assert [seg][1..] == [];
  }

  /** `%d` prints a number in base ten, padded on the left; with zeros or unpadded, `atoi` reads it back. */
  lemma PrintsDecimal(zero: bool, width: nat, v: Word)
    ensures var fmt := Written(zero, width, 100);
      && Complete(fmt) && Supplied(Parse(fmt), [IntArg(v)])
      && var text := Render(Parse(fmt), [IntArg(v)]);
         && text == Number(v, 10, width, zero)
         && Numeral(if v == 0 then [48] else Digits(v, 10), 10) == v
         && (zero || width <= 1 ==> Value(text + [0], 0) == v)
  {
    ParsesAlone(zero, width, 100);
    RenderAlone(Directive(zero, width, 100), [IntArg(v)]);
    DigitsRoundTrip(v, 10);
    ValueOfNumberIff(v, width, zero);
    NumberMeaning(v, 10, 0, false);
    if v > 0 { DigitsRoundTrip(v, 10); }
    assert Numeral([48], 10) == 0 by { assert [48][..0] == []; }
  }

  /** `%x` prints eight hexadecimal digits, whatever the width. */
  lemma PrintsHex(zero: bool, width: nat, v: Word)
    ensures var fmt := Written(zero, width, 120);
      && Complete(fmt) && Supplied(Parse(fmt), [IntArg(v)])
      && var text := Render(Parse(fmt), [IntArg(v)]); |text| == 8 && HexValue(text) == v
  {
    ParsesAlone(zero, width, 120);
    RenderAlone(Directive(zero, width, 120), [IntArg(v)]);
    SixteenToTheEighth();
    HexRoundTrip(v, 8);
  }

  lemma SixteenToTheEighth()
    ensures Power(16, 8) == TWO_TO_THE_32
  {
    assert Power(16, 4) == 65536;
  }

  /** `%c` prints one byte. */
  lemma PrintsCharacter(zero: bool, width: nat, v: Word)
    ensures var fmt := Written(zero, width, 99);
      Complete(fmt) && Supplied(Parse(fmt), [IntArg(v)]) && Render(Parse(fmt), [IntArg(v)]) == [v % 256]
  {
    ParsesAlone(zero, width, 99);
    RenderAlone(Directive(zero, width, 99), [IntArg(v)]);
  }

  /** `%s` prints the characters of a string, and "(null)" for a null pointer. */
  lemma PrintsString(zero: bool, width: nat, chars: seq<Byte>)
    ensures var fmt := Written(zero, width, 115);
      && Complete(fmt) && Supplied(Parse(fmt), [StrArg(Some(chars))]) && Supplied(Parse(fmt), [StrArg(None)])
      && Render(Parse(fmt), [StrArg(Some(chars))]) == chars
      && Render(Parse(fmt), [StrArg(None)]) == [40, 110, 117, 108, 108, 41]
  {
    ParsesAlone(zero, width, 115);
    RenderAlone(Directive(zero, width, 115), [StrArg(Some(chars))]);
    RenderAlone(Directive(zero, width, 115), [StrArg(None)]);
  }

  /** Any other letter prints nothing and takes no argument; text outside directives prints itself. */
  lemma PrintsOtherwise(zero: bool, width: nat, conv: Byte, c: Byte)
    requires !(48 <= conv <= 57) && conv != 99 && conv != 100 && conv != 115 && conv != 120 && c != 37
    ensures var fmt := Written(zero, width, conv);
      Complete(fmt) && Supplied(Parse(fmt), []) && Render(Parse(fmt), []) == []
    ensures Complete([c]) && Supplied(Parse([c]), []) && Render(Parse([c]), []) == [c]
  {
    ParsesAlone(zero, width, conv);
    RenderAlone(Directive(zero, width, conv), []);
    ParseLiteral(c, []);
    assert [c] + [] == [c];
    RenderAlone(Literal(c), []);
    assert Parse([c]) == [Literal(c)];
  }
}
