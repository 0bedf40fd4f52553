/** Memory and string routines of kernel/lib/libc.c. */
module Libc {
  import opened Words

  const SPACE: Byte := 32

  datatype Pointer = Null | At(offset: nat)

  // ---------- copies ----------

  /** Memory with the n bytes at dest replaced by those that were at src. */
  function Copied(m: seq<Byte>, dest: nat, src: nat, n: nat): (r: seq<Byte>)
    requires dest + n <= |m| && src + n <= |m|
    ensures |r| == |m|
  {
    m[..dest] + m[src..src + n] + m[dest + n..]
  }

  /** What a byte-by-byte copy from the front leaves, overlapping or not. */
  function CopiedForward(m: seq<Byte>, dest: nat, src: nat, n: nat): (r: seq<Byte>)
    requires dest + n <= |m| && src + n <= |m|
    ensures |r| == |m|
  {
    if n == 0 then m else
    var prev := CopiedForward(m, dest, src, n - 1);
    prev[dest + n - 1 := prev[src + n - 1]]
  }

  /** `memcpy`: always from the front. */
  method Memcpy(m: array<Byte>, dest: nat, src: nat, n: nat)
    requires dest + n <= m.Length && src + n <= m.Length
    modifies m
    ensures m[..] == CopiedForward(old(m[..]), dest, src, n)
  {
    for i := 0 to n
      invariant m[..] == CopiedForward(old(m[..]), dest, src, i)
    {
      m[dest + i] := m[src + i];
    }
  }

  /** `memmove`: from the front or from the back, whichever reads each byte before overwriting it. */
  method Memmove(m: array<Byte>, dest: nat, src: nat, n: nat)
    requires dest + n <= m.Length && src + n <= m.Length
    modifies m
    ensures m[..] == Copied(old(m[..]), dest, src, n)
  {
    if src > dest {
      for i := 0 to n
        invariant forall k :: 0 <= k < m.Length ==>
          m[k] == if dest <= k < dest + i then old(m[src + (k - dest)]) else old(m[k])
      {
        m[dest + i] := m[src + i];
      }
    } else if src < dest {
      for i := n downto 0
        invariant forall k :: 0 <= k < m.Length ==>
          m[k] == if dest + i <= k < dest + n then old(m[src + (k - dest)]) else old(m[k])
      {
        m[dest + i] := m[src + i];
      }
    }
  }

  /** When the destination does not start inside the source, the forward copy is a copy. */
  lemma {:induction false} ForwardIsCopy(m: seq<Byte>, dest: nat, src: nat, n: nat)
    requires dest + n <= |m| && src + n <= |m| && (dest <= src || src + n <= dest)
    ensures CopiedForward(m, dest, src, n) == Copied(m, dest, src, n)
  {
    if n > 0 {
      ForwardIsCopy(m, dest, src, n - 1);
    }
  }

  /** The byte between source and destination that ends up at position k: they are repeated over and over. */
  function Origin(dest: nat, src: nat, k: nat): (o: nat)
    requires src < dest <= k
    ensures src <= o < dest
  {
    src + (k - dest) % (dest - src)
  }

  lemma OriginOfSource(dest: nat, src: nat, k: nat)
    requires src < dest <= k
    ensures var from := k - (dest - src); Origin(dest, src, k) == if from < dest then from else Origin(dest, src, from)
  {
    if dest - src <= k - dest {
      OneTurnBack(k - dest, dest - src);
    }
  }

  lemma OneTurnBack(i: nat, d: nat)
    requires 0 < d <= i
    ensures i % d == (i - d) % d
  {
    var q, r := (i - d) / d, (i - d) % d;
    assert i - d == q * d + r;
    assert (q + 1) * d == q * d + d;
    DivisionIs(i, d, q + 1, r);
  }

  /** When it does, the copy repeats the bytes between source and destination, and changes nothing else. */
  lemma {:induction false} ForwardRepeats(m: seq<Byte>, dest: nat, src: nat, n: nat)
    requires src < dest && dest + n <= |m|
    ensures var r := CopiedForward(m, dest, src, n);
      forall k :: 0 <= k < |m| ==> r[k] == m[if dest <= k < dest + n then Origin(dest, src, k) else k]
  {
    hide Origin;
    if n > 0 {
      ForwardRepeats(m, dest, src, n - 1);
      OriginOfSource(dest, src, dest + n - 1);
    }
  }

  lemma {:induction false} ForwardDiffersOn(m: seq<Byte>, dest: nat, src: nat, n: nat)
    requires src < dest < src + n && dest + n <= |m| && m[src] != m[dest]
    ensures CopiedForward(m, dest, src, n) != Copied(m, dest, src, n)
  {
    var k := dest + (dest - src);
    ForwardRepeats(m, dest, src, n);
    OriginOfSource(dest, src, k);
    OriginOfSource(dest, src, dest);
    assert CopiedForward(m, dest, src, n)[k] == m[src];
    assert Copied(m, dest, src, n)[k] == m[dest];
  }

  /** Memory that is zero but for one byte. */
  function OneHot(size: nat, k: nat): (m: seq<Byte>)
    ensures |m| == size && forall i :: 0 <= i < size ==> m[i] == if i == k then 1 else 0
  {
    seq(size, i => if i == k then 1 else 0)
  }

  /** `memcpy` copies for every content of memory exactly when the destination does not start inside the source. */
  lemma {:induction false} MemcpyCopiesIff(size: nat, dest: nat, src: nat, n: nat)
    requires dest + n <= size && src + n <= size
    ensures (forall m: seq<Byte> :: |m| == size ==> CopiedForward(m, dest, src, n) == Copied(m, dest, src, n))
       <==> dest <= src || src + n <= dest
  {
    if dest <= src || src + n <= dest {
      forall m: seq<Byte> | |m| == size ensures CopiedForward(m, dest, src, n) == Copied(m, dest, src, n) {
        ForwardIsCopy(m, dest, src, n);
      }
    } else {
      ForwardDiffersOn(OneHot(size, src), dest, src, n);
    }
  }

  // ---------- strings ----------

  /** A string with its terminator: an index into it is never past the terminator. */
  predicate CString(s: seq<Byte>) {
    0 < |s| && s[|s| - 1] == 0 && forall i :: 0 <= i < |s| - 1 ==> s[i] != 0
  }

  /** `strlen`. */
  method Strlen(s: seq<Byte>, p: nat) returns (n: nat)
    requires CString(s) && p < |s|
    ensures p + n == |s| - 1
  {
    n := 0;
    while s[p + n] != 0
      invariant p + n < |s|
      decreases |s| - p - n
    {
      n := n + 1;
    }
  }

  /** `strchr`: the first c at or after p; the terminator counts as a character. */
  method Strchr(s: seq<Byte>, p: nat, c: Byte) returns (r: Pointer)
    requires CString(s) && p < |s|
    ensures r.At? ==> p <= r.offset < |s| && s[r.offset] == c && forall i :: p <= i < r.offset ==> s[i] != c
    ensures r == Null <==> forall i :: p <= i < |s| ==> s[i] != c
  {
    var i := p;
    while true
      invariant p <= i < |s| && forall j :: p <= j < i ==> s[j] != c
      decreases |s| - i
    {
      if s[i] == c {
        return At(i);
      }
      if s[i] == 0 {
        return Null;
      }
      i := i + 1;
    }
  }

  /** The two strings agree on their first k characters, none of them a terminator. */
  predicate Agree(x: seq<Byte>, p: nat, y: seq<Byte>, q: nat, k: nat) {
    p + k <= |x| && q + k <= |y| && x[p..p + k] == y[q..q + k] && forall i :: p <= i < p + k ==> x[i] != 0
  }

  lemma AgreeNext(x: seq<Byte>, p: nat, y: seq<Byte>, q: nat, k: nat)
    requires Agree(x, p, y, q, k) && p + k < |x| && q + k < |y|
    ensures Agree(x, p, y, q, k + 1) <==> x[p + k] == y[q + k] != 0
  {
    assert x[p..p + k + 1] == x[p..p + k] + [x[p + k]] && y[q..q + k + 1] == y[q..q + k] + [y[q + k]];
  }

  lemma {:induction false} AgreeLess(x: seq<Byte>, p: nat, y: seq<Byte>, q: nat, k: nat, j: nat)
    requires Agree(x, p, y, q, k) && j <= k
    ensures Agree(x, p, y, q, j)
  {
    var xs, ys := x[p..p + k], y[q..q + k];
    assert xs[..j] == x[p..p + j];
    assert ys[..j] == y[q..q + j];
  }

  /** `strncmp`: 0 if the strings agree for n characters or end together before that, else the first difference. */
  method Strncmp(x: seq<Byte>, p: nat, y: seq<Byte>, q: nat, n: nat) returns (r: int)
    requires CString(x) && CString(y) && p < |x| && q < |y|
    ensures r == 0 ==> Agree(x, p, y, q, n) || exists k :: (0 <= k < n && Agree(x, p, y, q, k)
      && p + k == |x| - 1 && q + k == |y| - 1)
    ensures r != 0 ==> !Agree(x, p, y, q, n) && exists k :: (0 <= k < n && Agree(x, p, y, q, k)
      && p + k < |x| && q + k < |y| && r + y[q + k] == x[p + k])
  {
    var k := 0;
    while k < n
      invariant k <= n && p + k < |x| + 1 && q + k < |y| + 1 && Agree(x, p, y, q, k)
    {
      AgreeInside(x, p, y, q, k);
      AgreeNext(x, p, y, q, k);
      var u1: int, u2: int := x[p + k], y[q + k];
      if u1 != u2 {
        if Agree(x, p, y, q, n) { AgreeLess(x, p, y, q, n, k + 1); }
        return u1 - u2;
      }
      if u1 == 0 {
        return 0;
      }
      k := k + 1;
    }
    return 0;
  }

  /** Agreement never reaches a terminator. */
  lemma AgreeInside(x: seq<Byte>, p: nat, y: seq<Byte>, q: nat, k: nat)
    requires CString(x) && CString(y) && p < |x| && q < |y| && Agree(x, p, y, q, k)
    ensures p + k < |x| && q + k < |y|
  {
    if k > 0 {
      assert x[p + (k - 1)] == x[p..p + k][k - 1] == y[q..q + k][k - 1] == y[q + (k - 1)];
    }
  }

  /** The needle, without its terminator, stands at offset p of the haystack. */
  predicate Occurs(a: seq<Byte>, b: seq<Byte>, p: nat)
    requires CString(a) && CString(b)
  {
    p + |b| <= |a| && a[p..p + |b| - 1] == b[..|b| - 1]
  }

  lemma OccursIsAgree(a: seq<Byte>, b: seq<Byte>, p: nat)
    requires CString(a) && CString(b)
    ensures Occurs(a, b, p) <==> p < |a| && Agree(a, p, b, 0, |b| - 1)
  {
    var len := |b| - 1;
    assert b[0..len] == b[..len];
    if p < |a| && Agree(a, p, b, 0, len) {
      AgreeInside(a, p, b, 0, len);
    }
    if Occurs(a, b, p) {
      forall i | p <= i < p + len ensures a[i] != 0 {
        assert a[p..p + len][i - p] == b[..len][i - p];
      }
    }
  }

  lemma OccursStart(a: seq<Byte>, b: seq<Byte>, p: nat)
    requires CString(a) && CString(b) && |b| > 1 && Occurs(a, b, p)
    ensures a[p] == b[0]
  {
    assert a[p..p + |b| - 1][0] == b[..|b| - 1][0];
  }

  /** `strstr`: the leftmost occurrence, or null exactly when there is none. */
  method Strstr(a: seq<Byte>, b: seq<Byte>) returns (r: Pointer)
    requires CString(a) && CString(b)
    ensures r.At? ==> Occurs(a, b, r.offset) && forall q :: 0 <= q < r.offset ==> !Occurs(a, b, q)
    ensures r == Null <==> forall q: nat :: !Occurs(a, b, q)
  {
    var len := Strlen(b, 0);
    if len == 0 {
      assert Occurs(a, b, 0);
      return At(0);
    }
    hide Occurs, CString;
    var p := Strchr(a, 0, b[0]);
    NotBefore(a, b, 0, p);
    while p != Null
      invariant p.At? ==> p.offset < |a| - 1 && a[p.offset] == b[0]
      invariant p.At? ==> forall q :: 0 <= q < p.offset ==> !Occurs(a, b, q)
      invariant p == Null ==> forall q: nat :: !Occurs(a, b, q)
      decreases if p.At? then |a| - p.offset else 0
    {
      var c := Strncmp(a, p.offset, b, 0, len);
      OccursIsAgree(a, b, p.offset);
      if c == 0 {
        return p;
      }
      var from := p.offset + 1;
      p := Strchr(a, from, b[0]);
      NotBefore(a, b, from, p);
    }
    return Null;
  }

  /** No occurrence starts where the needle's first character is not. */
  lemma NotBefore(a: seq<Byte>, b: seq<Byte>, from: nat, p: Pointer)
    requires CString(a) && CString(b) && |b| > 1
    requires p.At? ==> from <= p.offset < |a| && forall i :: from <= i < p.offset ==> a[i] != b[0]
    requires p == Null ==> forall i :: from <= i < |a| ==> a[i] != b[0]
    ensures forall q :: from <= q && (p.At? ==> q < p.offset) ==> !Occurs(a, b, q)
  {
    forall q | from <= q && (p.At? ==> q < p.offset) ensures !Occurs(a, b, q) {
      if Occurs(a, b, q) {
        OccursStart(a, b, q);
      }
    }
  }

  // ---------- atoi ----------

  predicate IsDigit(c: Byte) { 48 <= c <= 57 }

  /** The value of the leading decimal digits, after a value already read. */
  function Value(s: seq<Byte>, acc: nat): nat {
    if s != [] && IsDigit(s[0]) then Value(s[1..], acc * 10 + (s[0] - 48)) else acc
  }

  const INT_MAX := 0x7FFF_FFFF

  /** No value that `atoi` computes on the way leaves the range of an `int`. */
  predicate FitsInt(s: seq<Byte>, acc: nat) {
    s != [] && IsDigit(s[0]) ==>
      acc * 10 <= INT_MAX && acc * 10 + (s[0] - 48) <= INT_MAX && FitsInt(s[1..], acc * 10 + (s[0] - 48))
  }

  lemma {:induction false} ValueGrows(s: seq<Byte>, acc: nat)
    ensures acc <= Value(s, acc)
  {
    if s != [] && IsDigit(s[0]) {
      ValueGrows(s[1..], acc * 10 + (s[0] - 48));
    }
  }

  /** `atoi` overflows exactly when the value it should return does not fit. */
  lemma {:induction false} FitsIntIff(s: seq<Byte>, acc: nat)
    requires acc <= INT_MAX
    ensures FitsInt(s, acc) <==> Value(s, acc) < 0x8000_0000
  {
    if s != [] && IsDigit(s[0]) {
      var next := acc * 10 + (s[0] - 48);
      ValueGrows(s[1..], next);
      if next <= INT_MAX {
        FitsIntIff(s[1..], next);
      }
    }
  }

  lemma {:induction false} ValueStops(s: seq<Byte>, acc: nat)
    ensures Value(s + [0], acc) == Value(s, acc)
  {
    if s != [] && IsDigit(s[0]) {
      assert (s + [0])[1..] == s[1..] + [0];
      ValueStops(s[1..], acc * 10 + (s[0] - 48));
    }
  }

  /** `atoi`, which reads up to the first byte that is no digit. Where the value does not fit an `int` C overflows. */
  method Atoi(s: seq<Byte>) returns (n: nat)
    requires s != [] && !IsDigit(s[|s| - 1])
    ensures n == Value(s, 0) && (n < 0x8000_0000 <==> FitsInt(s, 0))
  {
    FitsIntIff(s, 0);
    n := 0;
    var i := 0;
    while IsDigit(s[i])
      invariant i < |s| && Value(s, 0) == Value(s[i..], n)
      decreases |s| - i
    {
      n := n * 10;
      n := n + (s[i] - 48);
      i := i + 1;
    }
  }
}
