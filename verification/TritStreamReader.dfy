/** Reading a stream of base-3 digits and bits, eight bytes at a time (include/clarisma/util/TritStreamReader.h,
    lines 59-157). */
module TritStreamReaders {
  import opened Quotients

  type Byte = b: nat | b < 256

  /** A digit from 0 to 2 */
  type Trit = t: nat | t < 3

  // ---------------------------------------------------------------- bits, one at a time

  /** The lowest `n` bits of a number, least significant first */
  function Bits(x: nat, n: nat): (bits: seq<bool>)
    ensures |bits| == n
  {
    if n == 0 then [] else [x % 2 == 1] + Bits(x / 2, n - 1)
  }

  /** The bits of each byte, in ascending address order */
  function StreamBits(bytes: seq<Byte>): (bits: seq<bool>)
    ensures |bits| == 8 * |bytes|
  {
    if bytes == [] then [] else Bits(bytes[0], 8) + StreamBits(bytes[1..])
  }

  /** A little-endian word */
  function Word(bytes: seq<Byte>): nat { if bytes == [] then 0 else bytes[0] + 256 * Word(bytes[1..]) }

  lemma Twice(x: nat, y: nat)
    ensures 2 * x * y == 2 * (x * y)
  {
  }

  lemma Halved(x: nat, y: nat)
    ensures (x + 2 * y) % 2 == x % 2 && (x + 2 * y) / 2 == x / 2 + y
  {
  }

  lemma {:induction false} BitsSplit(low: nat, high: nat, n: nat, m: nat, unit: nat)
    requires low < unit && unit == Unit(n)
    ensures Bits(low + unit * high, n + m) == Bits(low, n) + Bits(high, m)
  {
    if n > 0 {
      var half := Unit(n - 1);
      Twice(half, high);
      Halved(low, half * high);
      BitsSplit(low / 2, high, n - 1, m, half);
    }
  }

  function Unit(n: nat): (u: nat)
    ensures u > 0
  {
    if n == 0 then 1 else 2 * Unit(n - 1)
  }

  /** Reading a word in one piece yields the bits of its bytes in order. */
  lemma {:induction false} WordBits(bytes: seq<Byte>)
    ensures Bits(Word(bytes), 8 * |bytes|) == StreamBits(bytes)
  {
    if bytes != [] {
      assert Unit(8) == 256;
      BitsSplit(bytes[0], Word(bytes[1..]), 8, 8 * |bytes| - 8, 256);
      WordBits(bytes[1..]);
    }
  }

  lemma {:induction false} StreamBitsSplit(a: seq<Byte>, b: seq<Byte>)
    ensures StreamBits(a + b) == StreamBits(a) + StreamBits(b)
  {
    if a == [] {
      assert a + b == b;
    } else {
      assert (a + b)[1..] == a[1..] + b;
      StreamBitsSplit(a[1..], b);
    }
  }

  lemma {:induction false} BitAt(x: nat, n: nat, i: nat)
    requires i < n
    ensures Bits(x, n)[i] <==> x / Unit(i) % 2 == 1
  {
    if i > 0 {
      BitAt(x / 2, n - 1, i - 1);
      HalfDivided(x, Unit(i - 1));
    }
  }

  lemma HalfDivided(x: nat, u: nat)
    requires u > 0
    ensures x / 2 / u == x / (2 * u)
  {
    DivideTwice(x, 2, u, 2 * u);
  }

  /** Bits come from the least significant of each byte upward, and bytes in ascending order. */
  lemma {:induction false} StreamBitAt(bytes: seq<Byte>, i: nat)
    requires i < 8 * |bytes|
    ensures StreamBits(bytes)[i] <==> bytes[i / 8] / [1, 2, 4, 8, 16, 32, 64, 128][i % 8] % 2 == 1
  {
    if i < 8 {
      BitAt(bytes[0], 8, i);
      assert Unit(1) == 2 && Unit(2) == 4 && Unit(3) == 8 && Unit(4) == 16 && Unit(5) == 32 && Unit(6) == 64 && Unit(7) == 128;
    } else {
      StreamBitAt(bytes[1..], i - 8);
      assert (i - 8) / 8 == i / 8 - 1 && (i - 8) % 8 == i % 8;
    }
  }

  lemma WordTaken(bytes: seq<Byte>, p: nat)
    requires p + 8 <= |bytes|
    ensures Bits(Word(bytes[p..p + 8]), 64) + StreamBits(bytes[p + 8..]) == StreamBits(bytes[p..])
  {
    hide Bits, StreamBits, Word;
    WordBits(bytes[p..p + 8]);
    StreamBitsSplit(bytes[p..p + 8], bytes[p + 8..]);
    assert bytes[p..] == bytes[p..p + 8] + bytes[p + 8..];
  }

  // ---------------------------------------------------------------- the code

  function Code(t: Trit): seq<bool> { if t == 0 then [false, false] else if t == 1 then [true] else [false, true] }

  function Encoding(trits: seq<Trit>): seq<bool> { if trits == [] then [] else Code(trits[0]) + Encoding(trits[1..]) }

  datatype Read = PastEnd | Read(value: nat, rest: seq<bool>)

  /** The decoder that takes one bit at a time */
  function Decoded(bits: seq<bool>, asSingleBit: bool): (r: Read)
    ensures r.Read? ==> r.value < 3 && |r.rest| < |bits|
  {
    if bits == [] then PastEnd
    else if asSingleBit then Read(if bits[0] then 1 else 0, bits[1..])
    else if bits[0] then Read(1, bits[1..])
    else if |bits| == 1 then PastEnd
    else Read(if bits[1] then 2 else 0, bits[2..])
  }

  /** What a series of calls returns, up to the first that runs past the end */
  function DecodedAll(bits: seq<bool>, asSingleBits: seq<bool>): (values: seq<nat>)
    ensures |values| <= |asSingleBits|
  {
    if asSingleBits == [] then [] else
    match Decoded(bits, asSingleBits[0])
    case PastEnd => []
    case Read(value, rest) => [value] + DecodedAll(rest, asSingleBits[1..])
  }

  function AllTrits(n: nat): seq<bool> { seq(n, i => false) }

  /** Whatever follows it, the encoding of a series of digits is decoded to these digits. */
  lemma {:induction false} EncodingDecodes(trits: seq<Trit>, rest: seq<bool>)
    ensures DecodedAll(Encoding(trits) + rest, AllTrits(|trits|)) == trits
  {
    hide Decoded, Code;
    if trits != [] {
      var others := Encoding(trits[1..]) + rest;
      CodeDecodes(trits[0], others);
      assert Encoding(trits) + rest == Code(trits[0]) + others;
      assert AllTrits(|trits|)[1..] == AllTrits(|trits| - 1);
      EncodingDecodes(trits[1..], rest);
    }
  }

  /** The code of a digit, read as a number with its first bit lowest, is the digit; and no code begins another. */
  lemma CodeIsValue(t: Trit, u: Trit)
    ensures 1 <= |Code(t)| <= 2
    ensures (if Code(t)[0] then 1 else 0) + (if |Code(t)| == 2 && Code(t)[1] then 2 else 0) == t
    ensures Code(t) <= Code(u) ==> t == u
  {
  }

  lemma CodeDecodes(t: Trit, others: seq<bool>)
    ensures Decoded(Code(t) + others, false) == Read(t, others)
  {
    var code := Code(t);
    assert (code + others)[|code|..] == others;
  }

  // ---------------------------------------------------------------- the reader

  datatype Result = EndOfStream | Value(value: nat)

  class TritStreamReader {
    const data: seq<Byte>
    var p: nat
    var buf: nat
    var avail: nat

    ghost predicate Valid()
      reads this
    {
      p <= |data| && (|data| - p) % 8 == 0
    }

    /** The bits that have not been consumed */
    ghost function Pending(): seq<bool>
      requires Valid()
      reads this
    {
      Bits(buf, avail) + StreamBits(data[p..])
    }

    constructor (bytes: seq<Byte>)
      requires |bytes| >= 8 && |bytes| % 8 == 0
      ensures Valid() && Pending() == StreamBits(bytes)
    {
      data := bytes;
      p, buf, avail := 0, 0, 0;
      new;
      assert data[p..] == bytes;
    }

    constructor WithFirst(bytes: seq<Byte>, firstTrit: Trit)
      requires |bytes| >= 8 && |bytes| % 8 == 0
      ensures Valid() && Pending() == Code(firstTrit) + StreamBits(bytes)
    {
      data := bytes;
      p, buf, avail := 0, firstTrit, 2 - firstTrit % 2;
      new;
      assert data[p..] == bytes;
      assert Bits(buf, avail) == Code(firstTrit);
    }

    /** Fetches the next word, unless none is left. What was in the register is gone. */
    method Refill() returns (ok: bool)
      requires Valid()
      modifies this
      ensures Valid() && ok == (old(p) < |data|)
      ensures ok ==> avail == 64 && Bits(buf, avail) + StreamBits(data[p..]) == StreamBits(data[old(p)..])
      ensures !ok ==> buf == old(buf) && avail == old(avail) && p == old(p)
    {
      hide Bits, StreamBits, Word;
      if p == |data| {
        return false;
      }
      WordTaken(data, p);
      buf := Word(data[p..p + 8]);
      p := p + 8;
      avail := 64;
      return true;
    }

    /** Returns what the decoder returns that takes one bit at a time, and consumes the same bits. */
    method Next(asSingleBit: bool) returns (r: Result)
      requires Valid()
      modifies this
      ensures Valid()
      ensures match Decoded(old(Pending()), asSingleBit) {
                case PastEnd => r == EndOfStream && Pending() == old(Pending())
                case Read(value, rest) => r == Value(value) && Pending() == rest
              }
    {
      hide Bits, StreamBits, ShiftedRight, Decoded;
      ghost var before := data[p..];
      var v := buf % 4;
      var single := if asSingleBit then 1 else v % 2;
      var width := 2 - single;
      var shift: nat := width;
      if avail < width {
        var pastAvail := avail;
        ghost var past := buf;
        var ok := Refill();
        if !ok {
          NoneTaken(buf, avail, before);
          return EndOfStream;
        }
        var vUpper := buf % 4;
        v := if pastAvail == 0 then vUpper else v % 2 + 2 * vUpper;
        single := if asSingleBit then 1 else v % 2;
        width := 2 - single;
        shift := width - pastAvail;
        if pastAvail == 1 {
          TakenAcross(past, buf, avail, StreamBits(data[p..]));
        } else {
          assert old(Pending()) == Bits(buf, avail) + StreamBits(data[p..]);
          Taken(buf, avail, StreamBits(data[p..]), asSingleBit);
        }
      } else {
        Taken(buf, avail, StreamBits(data[p..]), asSingleBit);
      }
      avail := avail - shift;
      buf := ShiftedRight(buf, shift);
      r := Value(if width == 1 then v % 2 else v % 4);
    }

    method NextBit() returns (r: Result)
      requires Valid()
      modifies this
      ensures Valid()
      ensures match Decoded(old(Pending()), true) {
                case PastEnd => r == EndOfStream && Pending() == old(Pending())
                case Read(value, rest) => r == Value(value) && Pending() == rest
              }
    {
      r := Next(true);
    }
  }

  function ShiftedRight(x: nat, shift: nat): nat { if shift == 0 then x else ShiftedRight(x / 2, shift - 1) }

  lemma LowBits(x: nat)
    ensures x % 4 % 2 == x % 2 && x % 4 == x % 2 + 2 * (x / 2 % 2)
  {
  }

  /** The register holds too few bits, and no word is left. */
  lemma NoneTaken(x: nat, n: nat, bytes: seq<Byte>)
    requires bytes == [] && (n == 0 || (n == 1 && x % 4 % 2 == 0))
    ensures n == 0 ==> Decoded(Bits(x, n) + StreamBits(bytes), true) == PastEnd
    ensures Decoded(Bits(x, n) + StreamBits(bytes), false) == PastEnd
  {
    LowBits(x);
  }

  /** The value lies in the register. */
  lemma Taken(x: nat, n: nat, others: seq<bool>, asSingleBit: bool)
    requires n >= if asSingleBit || x % 4 % 2 == 1 then 1 else 2
    ensures var width := if asSingleBit || x % 4 % 2 == 1 then 1 else 2;
            Decoded(Bits(x, n) + others, asSingleBit)
              == Read(if width == 1 then x % 4 % 2 else x % 4, Bits(ShiftedRight(x, width), n - width) + others)
  {
    LowBits(x);
    var bits := Bits(x, n) + others;
    assert bits[1..] == Bits(x / 2, n - 1) + others;
    if n > 1 {
      assert bits[2..] == bits[1..][1..] == Bits(x / 2 / 2, n - 2) + others;
      assert ShiftedRight(x, 2) == ShiftedRight(x / 2, 1) == x / 2 / 2;
    }
  }

  /** The first bit of a digit lies in the old word, the second in the new one. */
  lemma TakenAcross(x: nat, y: nat, n: nat, others: seq<bool>)
    requires x % 4 % 2 == 0 && n > 0
    ensures var v := x % 4 % 2 + 2 * (y % 4);
            v % 2 == 0 && Decoded(Bits(x, 1) + (Bits(y, n) + others), false) == Read(v % 4, Bits(ShiftedRight(y, 1), n - 1) + others)
  {
    LowBits(x);
    LowBits(y);
    assert ShiftedRight(y, 1) == y / 2;
    assert (Bits(x, 1) + (Bits(y, n) + others))[2..] == (Bits(y, n) + others)[1..] == Bits(y / 2, n - 1) + others;
  }

  /** Any mix of calls on any buffer returns what the decoder that takes one bit at a time returns, and fails exactly
      when that decoder does. */
  method ReadAll(reader: TritStreamReader, asSingleBits: seq<bool>) returns (values: seq<nat>)
    requires reader.Valid()
    modifies reader
    ensures values == DecodedAll(old(reader.Pending()), asSingleBits)
  {
    hide TritStreamReader.Pending;
    values := [];
    var i := 0;
    ghost var bits := reader.Pending();
    while i < |asSingleBits|
      invariant 0 <= i <= |asSingleBits| && reader.Valid()
      invariant DecodedAll(bits, asSingleBits) == values + DecodedAll(reader.Pending(), asSingleBits[i..])
    {
      var r := reader.Next(asSingleBits[i]);
      assert asSingleBits[i..][1..] == asSingleBits[i + 1..];
      if r.EndOfStream? {
        return;
      }
      values := values + [r.value];
      i := i + 1;
    }
  }
}
