/** Numbers as series of bytes that hold seven bits each (include/clarisma/util/varint.h, lines 44-79, 93-157 and
    173-207). */
module Varints {
  import opened Quotients

  type Byte = b: nat | b < 256

  const MODULUS := 0x1_0000_0000_0000_0000

  // ---------------------------------------------------------------- the encoding

  function Encoded(v: nat): (bytes: seq<Byte>)
    ensures bytes != []
  {
    if v < 0x80 then [v] else [v % 0x80 + 0x80] + Encoded(v / 0x80)
  }

  /** The bytes up to the first without a continuation bit */
  function Length(bytes: seq<Byte>): (n: nat)
    ensures n <= |bytes|
  {
    if bytes == [] then 0 else if bytes[0] < 0x80 then 1 else 1 + Length(bytes[1..])
  }

  /** The number that these bytes hold, of any width */
  function Decoded(bytes: seq<Byte>): nat {
    if bytes == [] then 0 else if bytes[0] < 0x80 then bytes[0] else bytes[0] % 0x80 + 0x80 * Decoded(bytes[1..])
  }

  lemma {:induction false} DecodedEncoding(v: nat, rest: seq<Byte>)
    ensures Decoded(Encoded(v) + rest) == v && Length(Encoded(v) + rest) == |Encoded(v)|
  {
    if v >= 0x80 {
      assert (Encoded(v) + rest)[1..] == Encoded(v / 0x80) + rest;
      DecodedEncoding(v / 0x80, rest);
    }
  }

  function Power(n: nat): nat { if n == 0 then 1 else 0x80 * Power(n - 1) }

  /** The bytes hold the number's digits to base 128, the lowest first; all but the last are marked. */
  lemma {:induction false} EncodedDigits(v: nat, i: nat)
    requires i < |Encoded(v)|
    ensures Power(i) > 0 && Encoded(v)[i] == v / Power(i) % 0x80 + if i + 1 < |Encoded(v)| then 0x80 else 0
  {
    if i == 0 {
      assert v >= 0x80 ==> |Encoded(v)| > 1;
    } else {
      EncodedDigits(v / 0x80, i - 1);
      DividedAgain(v, Power(i - 1));
    }
  }

  lemma DividedAgain(v: nat, p: nat)
    requires p > 0
    ensures v / 0x80 / p == v / (0x80 * p)
  {
    DivideTwice(v, 0x80, p, 0x80 * p);
  }

  /** No number takes more bytes than its size allows. */
  lemma {:induction false} EncodingFits(v: nat, n: nat)
    requires n > 0
    ensures v < Power(n) <==> |Encoded(v)| <= n
  {
    if n == 1 {
      assert Power(1) == 0x80;
      assert v >= 0x80 ==> |Encoded(v)| == 1 + |Encoded(v / 0x80)|;
    } else if v >= 0x80 {
      EncodingFits(v / 0x80, n - 1);
    } else {
      PowerGrows(n);
    }
  }

  lemma {:induction false} PowerGrows(n: nat)
    requires n > 0
    ensures Power(n) >= 0x80
  {
    if n > 1 {
      PowerGrows(n - 1);
    }
  }

  // ---------------------------------------------------------------- size

  /** 64 less the number of leading zeros */
  function BitLength(v: nat): nat { if v == 0 then 0 else 1 + BitLength(v / 2) }

  function VarintSize(v: nat): nat {
    (BitLength(if v % 2 == 0 then v + 1 else v) + 6) / 7
  }

  lemma SevenBits(v: nat)
    requires v >= 0x80
    ensures BitLength(v) == 7 + BitLength(v / 0x80)
  {
    var a, b, c := v / 2, v / 4, v / 8;
    var d, e, f := v / 16, v / 32, v / 64;
    assert b == a / 2 && c == b / 2 && d == c / 2 && e == d / 2 && f == e / 2 && v / 0x80 == f / 2;
    assert BitLength(v) == 1 + BitLength(a) && BitLength(a) == 1 + BitLength(b) && BitLength(b) == 1 + BitLength(c);
    assert BitLength(c) == 1 + BitLength(d) && BitLength(d) == 1 + BitLength(e) && BitLength(e) == 1 + BitLength(f);
  }

  lemma {:induction false} BitLengthOdd(v: nat)
    requires v > 0 && v % 2 == 0
    ensures BitLength(v + 1) == BitLength(v)
  {
    assert (v + 1) / 2 == v / 2;
  }

  function Two(n: nat): nat { if n == 0 then 1 else 2 * Two(n - 1) }

  lemma {:induction false} FewBits(v: nat, n: nat)
    requires v < Two(n)
    ensures BitLength(v) <= n
  {
    if v > 0 {
      FewBits(v / 2, n - 1);
    }
  }

  /** The size is that of the encoding. */
  lemma {:induction false} SizeIsLength(v: nat)
    ensures VarintSize(v) == |Encoded(v)|
  {
    var odd := if v % 2 == 0 then v + 1 else v;
    if v < 0x80 {
      assert Two(7) == 0x80;
      FewBits(odd, 7);
    } else {
      SizeIsLength(v / 0x80);
      if v % 2 == 0 {
        BitLengthOdd(v);
      }
      SevenBits(v);
      var w := v / 0x80;
      if w % 2 == 0 {
        BitLengthOdd(w);
      }
    }
  }

  // ---------------------------------------------------------------- reading and writing

  lemma EncodedStep(v: nat)
    ensures Encoded(v) == if v < 0x80 then [v] else [v % 0x80 + 0x80] + Encoded(v / 0x80)
  {
  }

  /** The array with bytes written from `start` on */
  ghost function Overlay(was: seq<Byte>, start: nat, bytes: seq<Byte>): (now: seq<Byte>)
    requires start + |bytes| <= |was|
    ensures |now| == |was|
  {
    was[..start] + bytes + was[start + |bytes|..]
  }

  lemma OneMoreByte(was: seq<Byte>, start: nat, bytes: seq<Byte>, x: Byte)
    requires start + |bytes| < |was|
    ensures Overlay(was, start, bytes)[start + |bytes| := x] == Overlay(was, start, bytes + [x])
    ensures Overlay(was, start, []) == was
  {
    assert was[start + |bytes|..] == [was[start + |bytes|]] + was[start + |bytes| + 1..];
  }

  method WriteVarint(a: array<Byte>, start: nat, val: nat) returns (p: nat)
    requires start + |Encoded(val)| <= a.Length
    modifies a
    ensures p == start + |Encoded(val)|
    ensures a[..] == Overlay(old(a[..]), start, Encoded(val))
  {
    hide Encoded, Overlay;
    p := start;
    var v := val;
    ghost var was: seq<Byte>, written: seq<Byte> := a[..], [];
    EncodedStep(val);
    OneMoreByte(was, start, [], 0);
    while v >= 0x80
      invariant p == start + |written| && p + |Encoded(v)| <= a.Length
      invariant Encoded(val) == written + Encoded(v)
      invariant a[..] == Overlay(was, start, written)
      decreases v
    {
      EncodedStep(v);
      OneMoreByte(was, start, written, v % 0x80 + 0x80);
      ghost var now := a[..];
      a[p] := v % 0x80 + 0x80;
      assert a[..] == now[p := v % 0x80 + 0x80];
      written := written + [v % 0x80 + 0x80];
      p := p + 1;
      v := v / 0x80;
    }
    EncodedStep(v);
    OneMoreByte(was, start, written, v);
    ghost var now := a[..];
    a[p] := v;
    assert a[..] == now[p := v];
    p := p + 1;
  }

  /** Some byte has no continuation bit. */
  predicate Complete(bytes: seq<Byte>) { bytes != [] && (bytes[0] < 0x80 || Complete(bytes[1..])) }

  lemma {:induction false} EncodingIsComplete(v: nat, rest: seq<Byte>)
    ensures Complete(Encoded(v) + rest)
  {
    if v >= 0x80 {
      assert (Encoded(v) + rest)[1..] == Encoded(v / 0x80) + rest;
      EncodingIsComplete(v / 0x80, rest);
    }
  }

  lemma ByteRead(data: seq<Byte>, p: nat)
    requires p < |data|
    ensures var (b, now, next) := (data[p], data[p..], data[p + 1..]);
            && Length(now) == (if b < 0x80 then 1 else 1 + Length(next))
            && Decoded(now) == (if b < 0x80 then b else b % 0x80 + 0x80 * Decoded(next))
            && (Complete(now) <==> b < 0x80 || Complete(next))
  {
    assert data[p..][1..] == data[p + 1..];
  }

  lemma CompleteStarts(data: seq<Byte>, p: nat)
    requires p <= |data| && Complete(data[p..])
    ensures p < |data| && 1 <= Length(data[p..])
  {
  }

  /** `val` is what the bytes up to `p` hold, and more follow. */
  ghost predicate Partial(data: seq<Byte>, start: nat, p: nat, val: nat, unit: nat) {
    && start <= p <= |data| && val < unit && Complete(data[p..])
    && Length(data[start..]) == p - start + Length(data[p..])
    && Decoded(data[start..]) == val + unit * Decoded(data[p..])
  }

  function Digit(b: Byte): (d: nat)
    ensures d < 0x80
  {
    b % 0x80
  }

  lemma More(data: seq<Byte>, start: nat, p: nat, val: nat, unit: nat)
    requires Partial(data, start, p, val, unit)
    ensures p < |data|
    ensures var (b, val') := (data[p], val + unit * Digit(data[p]));
            if b < 0x80 then Length(data[start..]) == p + 1 - start && Decoded(data[start..]) == val' && (unit < MODULUS / 0x80 ==> val' % MODULUS == val')
            else Partial(data, start, p + 1, val', 0x80 * unit) && Length(data[start..]) > p + 1 - start
  {
    hide Length, Decoded, Complete;
    CompleteStarts(data, p);
    ByteRead(data, p);
    var b, rest := data[p] as nat, Decoded(data[p + 1..]);
    if b >= 0x80 {
      CompleteStarts(data, p + 1);
      Distributed(unit, b % 0x80, rest);
    }
    Scaled(unit, b % 0x80);
  }

  lemma Scaled(unit: nat, digit: nat)
    requires digit < 0x80
    ensures unit * digit <= 0x7f * unit
  {
  }

  lemma Distributed(unit: nat, digit: nat, rest: nat)
    ensures unit * (digit + 0x80 * rest) == unit * digit + 0x80 * unit * rest
  {
  }

  lemma Nothing(data: seq<Byte>, start: nat)
    requires start <= |data| && Complete(data[start..])
    ensures Partial(data, start, start, 0, 1)
  {
  }

  /** Reads at most ten bytes. Of the number that they hold, 64 bits are kept. */
  method ReadVarint64(data: seq<Byte>, start: nat) returns (val: nat, p: nat)
    requires start <= |data| && Complete(data[start..]) && Length(data[start..]) <= 10
    ensures p == start + Length(data[start..]) && p <= |data|
    ensures val == Decoded(data[start..]) % MODULUS
  {
    hide Length, Decoded, Complete, Partial, Digit;
    Nothing(data, start);
    More(data, start, start, 0, 1);
    var b := data[start];
    p := start + 1;
    val := Digit(b);
    if b < 0x80 { return; }
    More(data, start, p, val, 0x80);
    b, p := data[p], p + 1;
    val := val + 0x80 * Digit(b);
    if b < 0x80 { return; }
    More(data, start, p, val, 0x4000);
    b, p := data[p], p + 1;
    val := val + 0x4000 * Digit(b);
    if b < 0x80 { return; }
    More(data, start, p, val, 0x20_0000);
    b, p := data[p], p + 1;
    val := val + 0x20_0000 * Digit(b);
    if b < 0x80 { return; }
    More(data, start, p, val, 0x1000_0000);
    b, p := data[p], p + 1;
    val := val + 0x1000_0000 * Digit(b);
    if b < 0x80 { return; }
    More(data, start, p, val, 0x8_0000_0000);
    b, p := data[p], p + 1;
    val := val + 0x8_0000_0000 * Digit(b);
    if b < 0x80 { return; }
    More(data, start, p, val, 0x400_0000_0000);
    b, p := data[p], p + 1;
    val := val + 0x400_0000_0000 * Digit(b);
    if b < 0x80 { return; }
    More(data, start, p, val, 0x2_0000_0000_0000);
    b, p := data[p], p + 1;
    val := val + 0x2_0000_0000_0000 * Digit(b);
    if b < 0x80 { return; }
    More(data, start, p, val, 0x100_0000_0000_0000);
    b, p := data[p], p + 1;
    val := val + 0x100_0000_0000_0000 * Digit(b);
    if b < 0x80 { return; }
    More(data, start, p, val, 0x8000_0000_0000_0000);
    b, p := data[p], p + 1;
    // the shift leaves one bit of the tenth byte
    val := (val + 0x8000_0000_0000_0000 * Digit(b)) % MODULUS;
  }

  /** What is written is read back: a 64-bit number takes at most ten bytes, and none of its bits is lost. */
  lemma ReadsWhatIsWritten(v: nat, rest: seq<Byte>)
    requires v < MODULUS
    ensures var bytes := Encoded(v) + rest;
            Complete(bytes) && Length(bytes) == VarintSize(v) <= 10 && Decoded(bytes) % MODULUS == v
  {
    DecodedEncoding(v, rest);
    EncodingIsComplete(v, rest);
    SizeIsLength(v);
    EncodingFits(v, 10);
    assert Power(5) == 0x8_0000_0000;
    assert Power(10) == 0x80 * 0x80 * 0x80 * 0x80 * 0x80 * Power(5);
  }

  // ---------------------------------------------------------------- signed numbers

  const HALF := 0x8000_0000_0000_0000

  predicate IsInt64(v: int) { -HALF <= v < HALF }

  /** A 64-bit pattern as a signed number */
  function Signed(x: nat): int { if x >= HALF then x - MODULUS else x }

  /** (v << 1) ^ (v >> 63), where the latter is all ones for a negative number, else 0 */
  function ToZigzag(v: int): nat
    requires IsInt64(v)
  {
    var doubled := 2 * v % MODULUS;
    if v < 0 then MODULUS - 1 - doubled else doubled
  }

  /** (v >> 1) ^ -(v & 1), where v is unsigned */
  function FromZigzag(v: nat): int
    requires v < MODULUS
  {
    Signed(if v % 2 == 1 then MODULUS - 1 - v / 2 else v / 2)
  }

  /** The same with v signed, so the shift keeps the sign */
  function FromSignedZigzag(v: int): int { if v % 2 == 1 then -(v / 2) - 1 else v / 2 }

  /** 0, -1, 1, -2, 2, ... become 0, 1, 2, 3, 4, ... */
  lemma ZigzagAlternates(v: int)
    requires IsInt64(v)
    ensures ToZigzag(v) == if v < 0 then -2 * v - 1 else 2 * v
  {
    if v < 0 {
      assert 2 * v % MODULUS == 2 * v + MODULUS;
    }
  }

  lemma ZigzagReturns(v: int)
    requires IsInt64(v)
    ensures ToZigzag(v) < MODULUS && FromZigzag(ToZigzag(v)) == v
  {
    ZigzagAlternates(v);
  }

  lemma ZigzagReturnsUnsigned(u: nat)
    requires u < MODULUS
    ensures IsInt64(FromZigzag(u)) && ToZigzag(FromZigzag(u)) == u
  {
    ZigzagAlternates(FromZigzag(u));
  }

  method WriteSignedVarint(a: array<Byte>, start: nat, val: int) returns (p: nat)
    requires IsInt64(val) && start + |Encoded(ToZigzag(val))| <= a.Length
    modifies a
    ensures p == start + |Encoded(ToZigzag(val))|
    ensures a[..] == old(a[..start]) + Encoded(ToZigzag(val)) + old(a[p..])
  {
    p := WriteVarint(a, start, ToZigzag(val));
  }

  method ReadSignedVarint64(data: seq<Byte>, start: nat) returns (val: int, p: nat)
    requires start <= |data| && Complete(data[start..]) && Length(data[start..]) <= 10
    ensures p == start + Length(data[start..]) && p <= |data|
    ensures val == FromSignedZigzag(Signed(Decoded(data[start..]) % MODULUS))
  {
    var pattern;
    pattern, p := ReadVarint64(data, start);
    val := FromSignedZigzag(Signed(pattern));
  }

  /** A signed number is read back exactly if it fits into 63 bits. */
  lemma ReadsSignedExactly(v: int, rest: seq<Byte>)
    requires IsInt64(v)
    ensures var bytes := Encoded(ToZigzag(v)) + rest;
            && Complete(bytes) && Length(bytes) <= 10
            && (FromSignedZigzag(Signed(Decoded(bytes) % MODULUS)) == v <==> -HALF / 2 <= v < HALF / 2)
  {
    ZigzagAlternates(v);
    ReadsWhatIsWritten(ToZigzag(v), rest);
  }

  // ---------------------------------------------------------------- skipping

  /** The number of bytes that end a number */
  function Ends(data: seq<Byte>, p: nat, end: nat): nat
    requires p <= end <= |data|
    decreases end - p
  {
    if p == end then 0 else (if data[p] < 0x80 then 1 else 0) + Ends(data, p + 1, end)
  }

  lemma {:induction false} EndsAdd(data: seq<Byte>, p: nat, q: nat, end: nat)
    requires p <= q <= end <= |data|
    ensures Ends(data, p, end) == Ends(data, p, q) + Ends(data, q, end)
    decreases q - p
  {
    if p < q {
      EndsAdd(data, p + 1, q, end);
    }
  }

  lemma LastEnds(data: seq<Byte>, p: nat, end: nat)
    requires p < end <= |data|
    ensures Ends(data, p, end) == Ends(data, p, end - 1) + if data[end - 1] < 0x80 then 1 else 0
  {
    EndsAdd(data, p, end - 1, end);
    assert Ends(data, end - 1, end) == if data[end - 1] < 0x80 then 1 else 0;
  }

  method CountVarints(data: seq<Byte>, start: nat, end: nat) returns (count: nat)
    requires start <= end <= |data|
    ensures count == Ends(data, start, end)
  {
    count := 0;
    var p := start;
    while p < end
      invariant start <= p <= end && count + Ends(data, p, end) == Ends(data, start, end)
    {
      if data[p] < 0x80 {
        count := count + 1;
      }
      p := p + 1;
    }
  }

  /** `p` lies right after the `count`-th number from `start`. */
  predicate Skipped(data: seq<Byte>, start: nat, p: nat, count: nat) {
    start < p <= |data| && Ends(data, start, p) == count && data[p - 1] < 0x80
  }

  method SkipVarints(data: seq<Byte>, start: nat, count: nat) returns (p: nat)
    requires start <= |data| && 0 < count <= Ends(data, start, |data|)
    ensures Skipped(data, start, p, count)
  {
    p := start;
    var left := count;
    while true
      invariant start <= p <= |data| && 0 < left <= Ends(data, p, |data|) && Ends(data, start, p) + left == count
      decreases |data| - p
    {
      LastEnds(data, start, p + 1);
      var b := data[p];
      p := p + 1;
      if b < 0x80 {
        left := left - 1;
        if left == 0 {
          return;
        }
      }
    }
  }

  /** A complete number must precede the numbers that are skipped. */
  method SkipVarintsBackwardUnsafe(data: seq<Byte>, start: nat, count: nat) returns (p: nat)
    requires 0 < start <= |data| && data[start - 1] < 0x80 && 0 < count < Ends(data, 0, start)
    ensures 0 < p <= start && data[p - 1] < 0x80 && Skipped(data, p, start, count)
  {
    p := start;
    var left := count;
    LastEnds(data, 0, start);
    while true
      invariant 0 < p <= start && 0 < left <= Ends(data, 0, p - 1) && Ends(data, p - 1, start - 1) + left == count
      decreases p
    {
      p := p - 1;
      LastEnds(data, 0, p);
      LastEnds(data, p, start);
      var b := data[p - 1];
      if b < 0x80 {
        left := left - 1;
        if left == 0 {
          return;
        }
      }
    }
  }

  /** There is one place from which skipping so many numbers leads here, if another number ends there. */
  lemma SkippedFrom(data: seq<Byte>, a: nat, b: nat, p: nat, count: nat)
    requires a > 0 && b > 0 && Skipped(data, a, p, count) && Skipped(data, b, p, count)
    requires data[a - 1] < 0x80 && data[b - 1] < 0x80
    ensures a == b
  {
    var low, high := if a < b then a else b, if a < b then b else a;
    EndsAdd(data, low, high, p);
    if low < high {
      LastEnds(data, low, high);
    }
  }

  /** Skipping leads to where reading a number leads. */
  lemma {:induction false} SkipIsRead(data: seq<Byte>, start: nat)
    requires start <= |data| && Complete(data[start..])
    ensures Skipped(data, start, start + Length(data[start..]), 1)
    decreases |data| - start
  {
    ByteRead(data, start);
    if data[start] >= 0x80 {
      SkipIsRead(data, start + 1);
    } else {
      LastEnds(data, start, start + 1);
    }
  }

  /** If a number ends where the forward skip begins, then the backward skip can follow, and it undoes this. */
  lemma BackwardUndoesForward(data: seq<Byte>, start: nat, there: nat, count: nat)
    requires 0 < start <= |data| && data[start - 1] < 0x80 && count > 0 && Skipped(data, start, there, count)
    ensures 0 < there <= |data| && data[there - 1] < 0x80 && count < Ends(data, 0, there)
    ensures forall back {:trigger Skipped(data, back, there, count)} ::
              0 < back <= there && data[back - 1] < 0x80 && Skipped(data, back, there, count) ==> back == start
  {
    EndsAdd(data, 0, start, there);
    LastEnds(data, 0, start);
    forall back | 0 < back <= there && data[back - 1] < 0x80 && Skipped(data, back, there, count) ensures back == start {
      SkippedFrom(data, start, back, there, count);
    }
  }
}
