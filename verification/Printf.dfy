/** The formatter of kernel/lib/printf.c, writing into a caller's buffer through an advancing index. */
module Printf {
  import opened Words
  import opened Libc
  import opened PrintfModel

  /** The buffer with text written over it from p on. */
  function Put(s: seq<Byte>, p: nat, text: seq<Byte>): (r: seq<Byte>)
    requires p + |text| <= |s|
    ensures |r| == |s|
  {
    s[..p] + text + s[p + |text|..]
  }

  lemma PutMore(s: seq<Byte>, p: nat, text: seq<Byte>, c: Byte)
    requires p + |text| < |s|
    ensures Put(s, p, text)[p + |text| := c] == Put(s, p, text + [c])
  {
  }

  lemma PutTwice(s: seq<Byte>, p: nat, a: seq<Byte>, b: seq<Byte>)
    requires p + |a| + |b| <= |s|
    ensures Put(Put(s, p, a), p + |a|, b) == Put(s, p, a + b)
  {
  }

  function Reverse(s: seq<Byte>): (r: seq<Byte>)
    ensures |r| == |s|
  {
    if s == [] then [] else [s[|s| - 1]] + Reverse(s[..|s| - 1])
  }

  /** How often a padding loop that counts down from n runs. */
  function PadCount(n: int): nat { if n > 0 then n else 0 }

  lemma PadStep(s: seq<Byte>, p: nat, c: Byte, k: nat)
    requires p + k < |s|
    ensures Put(s, p, Repeat(c, k))[p + k := c] == Put(s, p, Repeat(c, k + 1))
  {
    PutMore(s, p, Repeat(c, k), c);
    assert Repeat(c, k) + [c] == Repeat(c, k + 1);
  }

  /** A padding loop: n copies of one character. */
  method Pad(s: array<Byte>, ptr: nat, n: int, zeroPadding: bool) returns (end: nat)
    requires ptr + PadCount(n) <= s.Length
    modifies s
    ensures end == ptr + PadCount(n)
    ensures s[..] == Put(old(s[..]), ptr, Repeat(if zeroPadding then ZERO else SPACE, PadCount(n)))
  {
    ghost var before := s[..];
    var c := if zeroPadding then ZERO else SPACE;
    end := ptr;
    var left := n;
    while left > 0
      invariant left <= n || n <= 0
      invariant end == ptr + PadCount(n) - PadCount(left)
      invariant s[..] == Put(before, ptr, Repeat(c, end - ptr))
    {
      PadStep(before, ptr, c, end - ptr);
      s[end] := c;
      end := end + 1;
      left := left - 1;
    }
  }

  lemma ReverseAppend(s: seq<Byte>, d: Byte)
    ensures Reverse(s + [d]) == [d] + Reverse(s)
  {
    assert (s + [d])[..|s|] == s;
  }

  lemma ReverseMoves(x: seq<Byte>, d: Byte, prev: seq<Byte>)
    ensures x + [d] + Reverse(prev) == x + Reverse(prev + [d])
  {
    ReverseAppend(prev, d);
  }

  /** `(val % base) < 10 ? (val % base) + '0' : (val % base) - 10 + 'A'`, and the rest of the number. */
  method SplitDigit(val: nat, base: nat) returns (q: nat, d: Byte)
    requires 0 < val && 2 <= base
    ensures q < val && Digits(val, base) == Digits(q, base) + [d]
  {
    QuotientSmaller(val, base);
    d := if val % base < 10 then val % base + 48 else (val % base - 10 + 65) % 256;
    q := val / base;
  }

  /** The digit loop of `parse_num`: least significant first, into 32 bytes of scratch. */
  method ReadDigits(buf: array<Byte>, val: nat, base: nat, ghost goal: seq<Byte>) returns (i: nat)
    requires buf.Length == 32 && 2 <= base && goal == Digits(val, base) && |goal| <= 32
    modifies buf
    ensures i == |goal| && Reverse(buf[..i]) == goal
  {
    i := 0;
    var left := val;
    ghost var high := goal;
    assert high + [] == goal;
    while left != 0
      invariant high == Digits(left, base) && i + |high| == |goal| && high + Reverse(buf[..i]) == goal
      decreases left
    {
      ghost var prev, before := buf[..i], high;
      var q, d := SplitDigit(left, base);
      high := Digits(q, base);
      ReverseMoves(high, d, prev);
      assert |before| == |high| + 1;
      buf[i] := d;
      assert buf[..i + 1] == prev + [d];
      i, left := i + 1, q;
    }
    assert [] + Reverse(buf[..i]) == Reverse(buf[..i]);
  }

  lemma {:induction false} ReverseAt(s: seq<Byte>, k: nat)
    requires k < |s|
    ensures Reverse(s)[k] == s[|s| - 1 - k]
  {
    if k > 0 { ReverseAt(s[..|s| - 1], k - 1); }
  }

  /** The last loop of `parse_num`: the scratch digits, back to front. */
  method EmitDigits(s: array<Byte>, ptr: nat, buf: array<Byte>, count: nat) returns (end: nat)
    requires buf != s && count <= buf.Length && ptr + count <= s.Length
    modifies s
    ensures end == ptr + count && s[..] == Put(old(s[..]), ptr, Reverse(buf[..count]))
  {
    ghost var before, digits := s[..], Reverse(buf[..count]);
    var i := count;
    end := ptr;
    while i > 0
      invariant i <= count && end == ptr + (count - i)
      invariant s[..] == Put(before, ptr, digits[..count - i])
    {
      ReverseAt(buf[..count], count - i);
      PutNext(before, ptr, digits, count - i);
      i := i - 1;
      s[end] := buf[i];
      end := end + 1;
    }
    assert digits[..count] == digits;
  }

  /** One more character of a text. */
  lemma PutNext(s: seq<Byte>, p: nat, text: seq<Byte>, k: nat)
    requires k < |text| && p + |text| <= |s|
    ensures Put(s, p, text[..k])[p + k := text[k]] == Put(s, p, text[..k + 1])
  {
    PutMore(s, p, text[..k], text[k]);
    assert text[..k] + [text[k]] == text[..k + 1];
  }

  /** The padding and digit loops of `parse_num`. */
  method EmitNumber(s: array<Byte>, ptr: nat, buf: array<Byte>, i: nat, width: int, zeroPadding: bool,
                    ghost text: seq<Byte>)
      returns (end: nat)
    requires buf != s && i <= buf.Length && ptr + |text| <= s.Length
    requires text == Repeat(if zeroPadding then ZERO else SPACE, if width > i then width - i else 0) + Reverse(buf[..i])
    modifies s
    ensures end == ptr + |text| && s[..] == Put(old(s[..]), ptr, text)
  {
    ghost var before, c := s[..], if zeroPadding then ZERO else SPACE;
    end := Pad(s, ptr, width - i, zeroPadding);
    PutTwice(before, ptr, Repeat(c, end - ptr), Reverse(buf[..i]));
    end := EmitDigits(s, end, buf, i);
  }

  /** `parse_num` for a value other than 0. */
  method ParseDigits(s: array<Byte>, ptr: nat, val: Word, base: Word, width: int, zeroPadding: bool,
                     ghost text: seq<Byte>)
      returns (end: nat)
    requires 2 <= base && val != 0 && text == Number(val, base, width, zeroPadding) && ptr + |text| <= s.Length
    modifies s
    ensures end == ptr + |text| && s[..] == Put(old(s[..]), ptr, text)
  {
    ghost var before, digits := s[..], Digits(val, base);
    DigitsFitScratch(val, base);
    var buf := new Byte[32];
    var i := ReadDigits(buf, val, base, digits);
    assert s[..] == before;
    end := EmitNumber(s, ptr, buf, i, width, zeroPadding, text);
  }

  lemma NumberOfZero(base: nat, width: int, zeroPadding: bool)
    requires 2 <= base
    ensures Number(0, base, width, zeroPadding) ==
      Repeat(if zeroPadding then ZERO else SPACE, PadCount(width - 1)) + [ZERO]
  {
  }

  /** `parse_num` for 0. */
  method ParseZero(s: array<Byte>, ptr: nat, width: int, zeroPadding: bool) returns (end: nat)
    requires ptr + PadCount(width - 1) < s.Length
    modifies s
    ensures end == ptr + PadCount(width - 1) + 1
    ensures s[..] == Put(old(s[..]), ptr, Repeat(if zeroPadding then ZERO else SPACE, PadCount(width - 1)) + [ZERO])
  {
    ghost var before, c := s[..], if zeroPadding then ZERO else SPACE;
    end := Pad(s, ptr, width - 1, zeroPadding);
    PutMore(before, ptr, Repeat(c, end - ptr), ZERO);
    s[end] := ZERO;
    end := end + 1;
  }

  /** `parse_num`. */
  method ParseNum(s: array<Byte>, ptr: nat, val: Word, base: Word, width: int, zeroPadding: bool) returns (end: nat)
    requires 2 <= base && ptr + |Number(val, base, width, zeroPadding)| <= s.Length
    modifies s
    ensures end == ptr + |Number(val, base, width, zeroPadding)|
    ensures s[..] == Put(old(s[..]), ptr, Number(val, base, width, zeroPadding))
  {
    if val == 0 {
      NumberOfZero(base, width, zeroPadding);
      hide Number, Digits, Put;
      end := ParseZero(s, ptr, width, zeroPadding);
    } else {
      end := ParseDigits(s, ptr, val, base, width, zeroPadding, Number(val, base, width, zeroPadding));
    }
  }

  /** `parse_hex`. */
  method ParseHex(s: array<Byte>, ptr: nat, val: Word) returns (end: nat)
    requires ptr + 8 <= s.Length
    modifies s
    ensures end == ptr + 8 && s[..] == Put(old(s[..]), ptr, HexDigits(val, 8))
  {
    ghost var before, digits := s[..], HexDigits(val, 8);
    end := ptr;
    var i := 8;
    while i > 0
      invariant 0 <= i <= 8 && end == ptr + (8 - i)
      invariant s[..] == Put(before, ptr, digits[..8 - i])
    {
      i := i - 1;
      HexDigitAt(val, 8, i);
      var power := Shift(i);
      PutNext(before, ptr, digits, 7 - i);
      s[end] := HexChar(val / power % 16);
      end := end + 1;
    }
    assert digits[..8] == digits;
  }

  /** `1 << (i * 4)`. */
  method Shift(i: nat) returns (p: nat)
    ensures p == Power(16, i) && 0 < p
  {
    p := 1;
    for j := 0 to i
      invariant p == Power(16, j) && 0 < p
    {
      p := 16 * p;
    }
  }

  lemma PowerPositive(base: nat, n: nat)
    requires 0 < base
    ensures 0 < Power(base, n)
  {
  }

  /** Digit i from the right. */
  lemma {:induction false} HexDigitAt(val: nat, n: nat, i: nat)
    requires i < n
    ensures 0 < Power(16, i) && HexDigits(val, n)[n - 1 - i] == HexChar(val / Power(16, i) % 16)
  {
    PowerPositive(16, i);
    if i > 0 {
      PowerPositive(16, i - 1);
      HexDigitAt(val / 16, n - 1, i - 1);
      DivDiv(val, Power(16, i - 1));
    }
  }

  lemma DivDiv(x: nat, p: nat)
    requires 0 < p
    ensures x / 16 / p == x / (16 * p)
  {
    var q, r := x / 16 / p, x / 16 % p;
    assert x / 16 == q * p + r;
    assert x == q * (16 * p) + (16 * r + x % 16);
    DivisionIs(x, 16 * p, q, 16 * r + x % 16);
  }

  /** `parse_string`. */
  method ParseString(s: array<Byte>, ptr: nat, text: Text) returns (end: nat)
    requires ptr + |TextOf(text)| <= s.Length
    modifies s
    ensures end == ptr + |TextOf(text)| && s[..] == Put(old(s[..]), ptr, TextOf(text))
  {
    ghost var before := s[..];
    var str := TextOf(text);
    end := ptr;
    var i := 0;
    while i < |str|
      invariant i <= |str| && end == ptr + i && s[..] == Put(before, ptr, str[..i])
    {
      PutNext(before, ptr, str, i);
      s[end] := str[i];
      i := i + 1;
      end := end + 1;
    }
    assert str[..|str|] == str;
  }

  /** The width loop: the value of the digits from position `from`, and where they end. */
  method ReadWidth(fmt: seq<Byte>, from: nat) returns (width: nat, at: nat)
    requires CString(fmt) && from < |fmt| && DigitRun(fmt[from..|fmt| - 1]) < |fmt| - 1 - from
    ensures at == from + DigitRun(fmt[from..|fmt| - 1]) && width == Value(fmt[from..|fmt| - 1], 0)
  {
    ghost var rest := fmt[from..|fmt| - 1];
    width, at := 0, from;
    while IsDigit(fmt[at])
      invariant from <= at <= from + DigitRun(rest)
      invariant Value(rest, 0) == Value(fmt[at..|fmt| - 1], width)
      decreases |fmt| - at
    {
      assert fmt[at] == rest[at - from];
      assert fmt[at..|fmt| - 1][1..] == fmt[at + 1..|fmt| - 1];
      width := width * 10 + (fmt[at] - 48);
      at := at + 1;
    }
    RunEnds(rest, at - from);
  }

  lemma RunEnds(rest: seq<Byte>, n: nat)
    requires n <= DigitRun(rest) < |rest| && !IsDigit(rest[n])
    ensures n == DigitRun(rest)
  {
  }

  /** The flag and width part of a directive: its zero flag, its width, and where its conversion character is. */
  method ReadFlags(fmt: seq<Byte>, from: nat) returns (zero: bool, width: nat, at: nat)
    requires CString(fmt) && from < |fmt| && HasConversion(fmt[from..|fmt| - 1])
    ensures from <= at < |fmt| - 1
    ensures ReadDirective(fmt[from..|fmt| - 1]) == (Directive(zero, width, fmt[at]), fmt[at + 1..|fmt| - 1])
  {
    ghost var body := fmt[from..|fmt| - 1];
    zero, at := false, from;
    if fmt[at] == ZERO {
      zero := true;
      at := at + 1;
    }
    ghost var start, rest := at, AfterFlag(body);
    assert rest == fmt[start..|fmt| - 1];
    width, at := ReadWidth(fmt, at);
    assert rest[at - start + 1..] == fmt[at + 1..|fmt| - 1];
  }

  /** One character written after what has been written so far. */
  method PrintLiteral(s: array<Byte>, ptr: nat, c: Byte) returns (end: nat)
    requires ptr < s.Length
    modifies s
    ensures end == ptr + 1 && s[..] == Put(old(s[..]), ptr, [c])
  {
    s[ptr] := c;
    end := ptr + 1;
  }

  /** The `switch` of `sprintf` for a directive that takes an integer. */
  method PrintInt(s: array<Byte>, ptr: nat, seg: Segment, value: Word) returns (end: nat)
    requires TakesInt(seg) && ptr + |RenderInt(seg, value)| <= s.Length
    modifies s
    ensures end == ptr + |RenderInt(seg, value)| && s[..] == Put(old(s[..]), ptr, RenderInt(seg, value))
  {
    if seg.conv == LETTER_D {
      end := ParseNum(s, ptr, value, 10, seg.width, seg.zero);
    } else if seg.conv == LETTER_X {
      end := ParseHex(s, ptr, value);
    } else {
      end := PrintLiteral(s, ptr, value % 256);
    }
  }

  /** What the format still has to print from position i, with the arguments not yet taken. */
  ghost predicate Left(fmt: seq<Byte>, i: nat, args: seq<Arg>, a: nat) {
    && i < |fmt| && a <= |args| && Complete(fmt[i..|fmt| - 1]) && Supplied(Parse(fmt[i..|fmt| - 1]), args[a..])
  }

  ghost function TextLeft(fmt: seq<Byte>, i: nat, args: seq<Arg>, a: nat): seq<Byte>
    requires Left(fmt, i, args, a)
  {
    Render(Parse(fmt[i..|fmt| - 1]), args[a..])
  }

  /** Printing text takes the format from position i to `next` and the arguments from a to b. */
  ghost predicate Advances(fmt: seq<Byte>, i: nat, args: seq<Arg>, a: nat, text: seq<Byte>, next: nat, b: nat) {
    && i < next && Left(fmt, i, args, a) && Left(fmt, next, args, b)
    && TextLeft(fmt, i, args, a) == text + TextLeft(fmt, next, args, b)
  }

  lemma LiteralTurn(fmt: seq<Byte>, i: nat, args: seq<Arg>, a: nat)
    requires CString(fmt) && Left(fmt, i, args, a) && i < |fmt| - 1 && fmt[i] != PERCENT
    ensures Advances(fmt, i, args, a, [fmt[i]], i + 1, a)
  {
    var rest := fmt[i..|fmt| - 1];
    assert rest[0] == fmt[i] && rest[1..] == fmt[i + 1..|fmt| - 1];
    assert Parse(rest)[0] == Literal(fmt[i]) && Parse(rest)[1..] == Parse(rest[1..]);
  }

  function NextArg(seg: Segment, a: nat): nat { if TakesInt(seg) || TakesText(seg) then a + 1 else a }

  lemma DirectiveTurn(fmt: seq<Byte>, i: nat, args: seq<Arg>, a: nat, seg: Segment, at: nat)
    requires CString(fmt) && Left(fmt, i, args, a) && i < at < |fmt| - 1 && fmt[i] == PERCENT && seg.Directive?
    requires HasConversion(fmt[i + 1..|fmt| - 1])
    requires ReadDirective(fmt[i + 1..|fmt| - 1]) == (seg, fmt[at + 1..|fmt| - 1])
    ensures a <= |args| && Finds(seg, args[a..])
    ensures Advances(fmt, i, args, a, SegmentText(seg, args[a..]), at + 1, NextArg(seg, a))
  {
    hide Value, DigitRun, SegmentText, AfterFlag;
    var rest := fmt[i..|fmt| - 1];
    assert rest[0] == PERCENT && rest[1..] == fmt[i + 1..|fmt| - 1];
    var segs := Parse(rest);
    assert segs[0] == seg && segs[1..] == Parse(fmt[at + 1..|fmt| - 1]);
    if TakesInt(seg) || TakesText(seg) {
      assert args[a..][1..] == args[a + 1..];
    }
  }

  /** The `switch` of `sprintf`; b is the next argument afterwards. */
  method PrintDirective(s: array<Byte>, ptr: nat, seg: Segment, args: seq<Arg>, a: nat) returns (end: nat, b: nat)
    requires seg.Directive? && a <= |args| && Finds(seg, args[a..])
    requires ptr + |SegmentText(seg, args[a..])| <= s.Length
    modifies s
    ensures end == ptr + |SegmentText(seg, args[a..])| && s[..] == Put(old(s[..]), ptr, SegmentText(seg, args[a..]))
    ensures b == NextArg(seg, a)
  {
    end, b := ptr, a;
    if TakesInt(seg) {
      end := PrintInt(s, ptr, seg, args[a].value);
      b := a + 1;
    } else if TakesText(seg) {
      end := ParseString(s, ptr, args[a].text);
      b := a + 1;
    }
  }

  /** Reads the directive behind a '%'. */
  method ReadPercent(fmt: seq<Byte>, i: nat, args: seq<Arg>, a: nat) returns (seg: Segment, at: nat)
    requires CString(fmt) && Left(fmt, i, args, a) && fmt[i] == PERCENT
    ensures i < at && seg.Directive? && a <= |args| && Finds(seg, args[a..])
    ensures Advances(fmt, i, args, a, SegmentText(seg, args[a..]), at + 1, NextArg(seg, a))
  {
    assert fmt[i..|fmt| - 1][1..] == fmt[i + 1..|fmt| - 1];
    var zero, width, c := ReadFlags(fmt, i + 1);
    seg, at := Directive(zero, width, fmt[c]), c;
    DirectiveTurn(fmt, i, args, a, seg, at);
  }

  /** One turn of `sprintf`: what it prints, and where the format and the arguments go on. */
  method PrintTurn(s: array<Byte>, ptr: nat, fmt: seq<Byte>, i: nat, args: seq<Arg>, a: nat)
      returns (end: nat, next: nat, b: nat, ghost text: seq<Byte>)
    requires CString(fmt) && Left(fmt, i, args, a) && fmt[i] != 0
    requires ptr + |TextLeft(fmt, i, args, a)| <= s.Length
    modifies s
    ensures Advances(fmt, i, args, a, text, next, b)
    ensures end == ptr + |text| && s[..] == Put(old(s[..]), ptr, text)
  {
    hide Render, Parse, Complete, Supplied, SegmentText, Finds;
    if fmt[i] == PERCENT {
      var seg, at := ReadPercent(fmt, i, args, a);
      text := SegmentText(seg, args[a..]);
      end, b := PrintDirective(s, ptr, seg, args, a);
      next := at + 1;
    } else {
      LiteralTurn(fmt, i, args, a);
      text := [fmt[i]];
      end := PrintLiteral(s, ptr, fmt[i]);
      next, b := i + 1, a;
    }
  }

  /** The text a terminated format and its arguments stand for. */
  ghost predicate Renderable(fmt: seq<Byte>, args: seq<Arg>) {
    CString(fmt) && Complete(fmt[..|fmt| - 1]) && Supplied(Parse(fmt[..|fmt| - 1]), args)
  }

  /** `sprintf`: writes the rendering of the format, without a terminator, and returns its length. */
  method Sprintf(s: array<Byte>, fmt: seq<Byte>, args: seq<Arg>) returns (ptr: nat)
    requires Renderable(fmt, args) && |Render(Parse(fmt[..|fmt| - 1]), args)| <= s.Length
    modifies s
    ensures ptr == |Render(Parse(fmt[..|fmt| - 1]), args)|
    ensures s[..] == Put(old(s[..]), 0, Render(Parse(fmt[..|fmt| - 1]), args))
  {
    assert fmt[0..|fmt| - 1] == fmt[..|fmt| - 1] && args[0..] == args;
    ptr := PrintAll(s, fmt, args);
  }

  /** The loop of `sprintf`. */
  method PrintAll(s: array<Byte>, fmt: seq<Byte>, args: seq<Arg>) returns (ptr: nat)
    requires CString(fmt) && Left(fmt, 0, args, 0) && |TextLeft(fmt, 0, args, 0)| <= s.Length
    modifies s
    ensures ptr == |TextLeft(fmt, 0, args, 0)| && s[..] == Put(old(s[..]), 0, TextLeft(fmt, 0, args, 0))
  {
    ghost var before, goal := s[..], TextLeft(fmt, 0, args, 0);
    ghost var done, text: seq<Byte>, more := [], [], goal;
    ptr := 0;
    var i, a := 0, 0;
    while fmt[i] != 0
      invariant Left(fmt, i, args, a) && more == TextLeft(fmt, i, args, a)
      invariant goal == done + more && ptr == |done| && s[..] == Put(before, 0, done)
      decreases |fmt| - i
    {
      ptr, i, a, text := PrintTurn(s, ptr, fmt, i, args, a);
      PutTwice(before, 0, done, text);
      ghost var next := TextLeft(fmt, i, args, a);
      Associate(done, text, next);
      done, more := done + text, next;
    }
    NothingLeft(fmt, i, args, a);
    assert done + [] == done;
  }

  lemma NothingLeft(fmt: seq<Byte>, i: nat, args: seq<Arg>, a: nat)
    requires CString(fmt) && Left(fmt, i, args, a) && fmt[i] == 0
    ensures i == |fmt| - 1 && TextLeft(fmt, i, args, a) == []
  {
  }
}
