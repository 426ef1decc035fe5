/** The bit stream of drbd_vli.h: a byte buffer, a cursor, and fields of up to 64 bits that
    start at any bit. */
module Bitstream {
  import opened Bits

  type byte = x: nat | x < 256

  const ENOBUFS: int := 105
  const EINVAL: int := 22

  lemma {:induction false} BitHigh(x: nat, n: nat, j: nat)
    requires x < Pow2(n) && n <= j
    ensures !Bit(x, j)
  {
    MaskSmall(x, n);
    BitMask(x, n, j);
  }

  lemma {:induction false} ByteHigh(x: byte, j: nat)
    requires 8 <= j
    ensures !Bit(x, j)
  {
    assert Pow2(8) == 256;
    BitHigh(x, 8, j);
  }

  /** The buffer as a bit string, least significant bit of the first byte first. */
  function Stream(buf: seq<byte>): (s: seq<bool>)
    ensures |s| == 8 * |buf|
  {
    if buf == [] then [] else Field(buf[0], 8) + Stream(buf[1..])
  }

  lemma {:induction false} StreamAt(buf: seq<byte>, i: nat, j: nat, p: nat)
    requires i < |buf| && j < 8 && p == 8 * i + j
    ensures Stream(buf)[p] == Bit(buf[i], j)
    decreases i
  {
    if i > 0 { StreamAt(buf[1..], i - 1, j, p - 8); }
  }

  // ----- put -----

  function LowByte(x: nat): byte {
    assert Pow2(8) == 256;
    Mask(x, 8)
  }

  /** *b |= c */
  function OrByte(x: byte, c: byte): (r: byte)
    ensures forall j: nat :: Bit(r, j) == (Bit(x, j) || Bit(c, j))
  {
    var r := Or(x, c);
    assert r < 256 by {
      assert Pow2(8) == 256;
      forall j: nat ensures Bit(r, j) == Bit(Mask(r, 8), j) {
        BitOr(x, c, j);
        BitMask(r, 8, j);
        if j >= 8 { ByteHigh(x, j); ByteHigh(c, j); }
      }
      SameBits(r, Mask(r, 8));
    }
    assert forall j: nat :: Bit(r, j) == (Bit(x, j) || Bit(c, j)) by {
      forall j: nat ensures Bit(r, j) == (Bit(x, j) || Bit(c, j)) { BitOr(x, c, j); }
    }
    r
  }

  /** What a put of v at bit position bit contributes to the k-th byte from the cursor on. */
  function Chunk(v: nat, bit: nat, k: nat): byte
    requires bit < 8
  {
    if k == 0 then LowByte(Shl(LowByte(v), bit)) else LowByte(Shr(v, 8 * k - bit))
  }

  lemma {:induction false} ChunkBit(v: nat, bit: nat, k: nat, j: nat, q: int)
    requires bit < 8 && j < 8 && q == 8 * k + j - bit
    ensures Bit(Chunk(v, bit, k), j) == (q >= 0 && Bit(v, q))
  {
    if k == 0 {
      BitMask(Shl(LowByte(v), bit), 8, j);
      BitShl(LowByte(v), bit, j);
      if j >= bit { BitMask(v, 8, j - bit); }
    } else {
      BitMask(Shr(v, 8 * k - bit), 8, j);
      BitShr(v, 8 * k - bit, j);
    }
  }

  /** The stream s with the bits of f added from position pos on. */
  function Overlay(s: seq<bool>, pos: nat, f: seq<bool>): (r: seq<bool>)
    requires pos + |f| <= |s|
    ensures |r| == |s|
  {
    seq(|s|, p requires 0 <= p < |s| => s[p] || (pos <= p < pos + |f| && f[p - pos]))
  }

  /** One bit of a byte that took a chunk of the field. */
  lemma {:induction false} ChunkAt(was: byte, val: nat, bits: nat, bit: nat, k: nat, j: nat, q: int)
    requires bit < 8 && j < 8 && q == 8 * k + j - bit
    ensures Bit(OrByte(was, Chunk(Mask(val, bits), bit, k)), j) == (Bit(was, j) || (0 <= q < bits && Bit(val, q)))
  {
    ChunkBit(Mask(val, bits), bit, k, j, q);
    if q >= 0 { BitMask(val, bits, q); }
  }

  /** The same for bytes that the put does not reach. */
  lemma {:induction false} TouchedBit(was: byte, now: byte, val: nat, bits: nat, bit: nat, k: int, n: nat, j: nat,
      q: int)
    requires bit < 8 && j < 8 && q == 8 * k + j - bit && 8 * n >= bit + bits
    requires now == if 0 <= k < n then OrByte(was, Chunk(Mask(val, bits), bit, k)) else was
    ensures Bit(now, j) == (Bit(was, j) || (0 <= q < bits && Bit(val, q)))
  {
    if 0 <= k < n { ChunkAt(was, val, bits, bit, k, j, q); }
  }

  lemma {:induction false} ChunksAt(was: seq<byte>, now: seq<byte>, b: nat, bit: nat, val: nat, bits: nat, n: nat,
      i: nat, j: nat, p: nat, q: int)
    requires bit < 8 && i < |was| == |now| && j < 8 && p == 8 * i + j && q == p - 8 * b - bit && 8 * n >= bit + bits
    requires now[i] == if b <= i < b + n then OrByte(was[i], Chunk(Mask(val, bits), bit, i - b)) else was[i]
    ensures Stream(now)[p] == (Stream(was)[p] || (0 <= q < bits && Bit(val, q)))
  {
    StreamAt(was, i, j, p);
    StreamAt(now, i, j, p);
    TouchedBit(was[i], now[i], val, bits, bit, i - b, n, j, q);
  }

  lemma {:induction false} OverlayIs(s: seq<bool>, t: seq<bool>, pos: nat, f: seq<bool>)
    requires |s| == |t| && pos + |f| <= |s|
    requires forall p :: 0 <= p < |s| ==> var q := p - pos; t[p] == (s[p] || (0 <= q < |f| && f[q]))
    ensures t == Overlay(s, pos, f)
  {}

  /** Adding one chunk to each byte touched adds the whole field. */
  lemma {:induction false} ChunksOverlay(was: seq<byte>, now: seq<byte>, b: nat, bit: nat, val: nat, bits: nat, n: nat,
      pos: nat)
    requires bit < 8 && pos == 8 * b + bit && pos + bits <= 8 * |was| && |now| == |was|
    requires b + n <= |was| && 8 * n >= bit + bits
    requires forall i :: 0 <= i < |was| ==>
      now[i] == if b <= i < b + n then OrByte(was[i], Chunk(Mask(val, bits), bit, i - b)) else was[i]
    ensures Stream(now) == Overlay(Stream(was), pos, Field(val, bits))
  {
    var s, t, f := Stream(was), Stream(now), Field(val, bits);
    forall p | 0 <= p < |s| ensures var q := p - pos; t[p] == (s[p] || (0 <= q < |f| && f[q])) {
      ChunksAt(was, now, b, bit, val, bits, n, p / 8, p % 8, p, p - pos);
    }
    OverlayIs(s, t, pos, f);
  }

  // ----- get -----

  /** memcpy of at most eight bytes, and le64_to_cpu */
  function LeWord(bs: seq<byte>): nat {
    if bs == [] then 0 else Or(bs[0], Shl(LeWord(bs[1..]), 8))
  }

  lemma {:induction false} LeWordBit(bs: seq<byte>, j: nat)
    ensures Bit(LeWord(bs), j) == (j < 8 * |bs| && Bit(bs[j / 8], j % 8))
    decreases |bs|
  {
    if bs == [] {
      BitZero(j);
    } else {
      BitOr(bs[0], Shl(LeWord(bs[1..]), 8), j);
      BitShl(LeWord(bs[1..]), 8, j);
      if j >= 8 {
        ByteHigh(bs[0], j);
        LeWordBit(bs[1..], j - 8);
      }
    }
  }

  /** The field of n bits at byte b and bit position bit. */
  function Fetch(buf: seq<byte>, b: nat, bit: nat, n: nat): nat
    requires bit < 8 && 8 * b + bit + n <= 8 * |buf| && n > 0
  {
    var bytes := (bit + n + 7) / 8;
    var hi := Mask(Shl(LeWord(buf[b + 1..b + bytes]), 8 - bit), 64);
    Mask(Or(hi, Shr(buf[b], bit)), n)
  }

  /** The part of a field that the bytes after the first one hold. */
  lemma {:induction false} HighBit(rest: seq<byte>, bit: nat, j: nat, q: int)
    requires bit < 8 && j < 64 && q == bit + j - 8
    ensures Bit(Mask(Shl(LeWord(rest), 8 - bit), 64), j) == (0 <= q < 8 * |rest| && Bit(rest[q / 8], q % 8))
  {
    BitMask(Shl(LeWord(rest), 8 - bit), 64, j);
    BitShl(LeWord(rest), 8 - bit, j);
    if q >= 0 { LeWordBit(rest, q); }
  }

  /** Bit j of a field whose first byte is x: byte i, bit m of x and the bytes after it. */
  lemma {:induction false} FetchAt(x: byte, rest: seq<byte>, bit: nat, n: nat, j: nat, i: nat, m: nat)
    requires bit < 8 && j < n <= 64 && bit + n <= 8 + 8 * |rest| && bit + j == 8 * i + m && m < 8
    ensures Bit(Mask(Or(Mask(Shl(LeWord(rest), 8 - bit), 64), Shr(x, bit)), n), j) ==
      Bit(if i == 0 then x else rest[i - 1], m)
  {
    var hi, q := Mask(Shl(LeWord(rest), 8 - bit), 64), bit + j - 8;
    BitMask(Or(hi, Shr(x, bit)), n, j);
    BitOr(hi, Shr(x, bit), j);
    BitShr(x, bit, j);
    HighBit(rest, bit, j, q);
    if i > 0 {
      ByteHigh(x, bit + j);
      assert q / 8 == i - 1 && q % 8 == m;
    }
  }

  lemma {:induction false} FetchBit(buf: seq<byte>, b: nat, bit: nat, n: nat, j: nat, p: nat)
    requires bit < 8 && 8 * b + bit + n <= 8 * |buf| && 0 < n <= 64 && p == 8 * b + bit + j
    ensures Bit(Fetch(buf, b, bit, n), j) == (j < n && Stream(buf)[p])
  {
    var bytes := (bit + n + 7) / 8;
    var rest := buf[b + 1..b + bytes];
    if j < n {
      var i, m := (bit + j) / 8, (bit + j) % 8;
      FetchAt(buf[b], rest, bit, n, j, i, m);
      StreamAt(buf, b + i, m, p);
      assert i > 0 ==> rest[i - 1] == buf[b + i];
    } else {
      BitMask(Or(Mask(Shl(LeWord(rest), 8 - bit), 64), Shr(buf[b], bit)), n, j);
    }
  }

  lemma {:induction false} FetchSame(buf: seq<byte>, b: nat, bit: nat, n: nat, pos: nat, j: nat)
    requires bit < 8 && pos == 8 * b + bit && pos + n <= 8 * |buf| && 0 < n <= 64
    ensures Bit(Fetch(buf, b, bit, n), j) == Bit(Val(Stream(buf)[pos..pos + n]), j)
  {
    FetchBit(buf, b, bit, n, j, pos + j);
    BitVal(Stream(buf)[pos..pos + n], j);
  }

  lemma {:induction false} FetchIs(buf: seq<byte>, b: nat, bit: nat, n: nat, pos: nat)
    requires bit < 8 && pos == 8 * b + bit && pos + n <= 8 * |buf| && 0 < n <= 64
    ensures Fetch(buf, b, bit, n) == Val(Stream(buf)[pos..pos + n])
  {
    var x, y := Fetch(buf, b, bit, n), Val(Stream(buf)[pos..pos + n]);
    forall j: nat ensures Bit(x, j) == Bit(y, j) { FetchSame(buf, b, bit, n, pos, j); }
    SameBits(x, y);
  }

  class BitStream {
    const buf: array<byte>
    const padBits: nat
    /** cur.b - buf, and cur.bit */
    var b: nat
    var bit: nat

    /** The cursor is in the buffer. */
    ghost predicate Inside()
      reads this
    {
      bit < 8 && Pos() <= 8 * buf.Length
    }

    /** ... and in front of the padding. */
    ghost predicate Valid()
      reads this
    {
      bit < 8 && Pos() + padBits <= 8 * buf.Length
    }

    ghost function Pos(): nat
      reads this
    {
      8 * b + bit
    }

    constructor (buf: array<byte>, padBits: nat)
      requires padBits <= 8 * buf.Length
      ensures Valid() && this.buf == buf && this.padBits == padBits && Pos() == 0
    {
      this.buf, this.padBits, b, bit := buf, padBits, 0, 0;
    }

    /** bitstream_cursor_advance */
    method Advance(bits: nat)
      requires bit < 8
      modifies this
      ensures bit < 8 && Pos() == old(Pos()) + bits
    {
      var sum := bits + bit;
      b := b + sum / 8;
      bit := sum % 8;
    }

    /** The writing part of bitstream_put_bits, byte by byte. */
    method StoreBytes(v: nat, bits: nat) returns (ghost n: nat)
      requires bit < 8 && 0 < bits && Pos() + bits <= 8 * buf.Length
      modifies buf
      ensures b + n <= buf.Length && 8 * n >= bit + bits
      ensures forall i :: 0 <= i < buf.Length ==>
        buf[i] == if b <= i < b + n then OrByte(old(buf[i]), Chunk(v, bit, i - b)) else old(buf[i])
    {
      buf[b] := OrByte(buf[b], Chunk(v, bit, 0));
      var k := 1;
      while 8 * k - bit < bits
        invariant 1 <= k && 8 * (k - 1) < bit + bits
        invariant forall i :: 0 <= i < buf.Length ==>
          buf[i] == if b <= i < b + k then OrByte(old(buf[i]), Chunk(v, bit, i - b)) else old(buf[i])
      {
        buf[b + k] := OrByte(buf[b + k], Chunk(v, bit, k));
        k := k + 1;
      }
      n := k;
    }

    method Store(val: nat, bits: nat)
      requires bit < 8 && 0 < bits <= 64 && Pos() + bits <= 8 * buf.Length
      modifies buf
      ensures Stream(buf[..]) == old(Overlay(Stream(buf[..]), Pos(), Field(val, bits)))
    {
      ghost var was := buf[..];
      ghost var n := StoreBytes(Mask(val, bits), bits);
      ChunksOverlay(was, buf[..], b, bit, val, bits, n, Pos());
    }

    /** bitstream_put_bits: adds the field and moves on, or leaves everything alone.  It does not
        care for padding. */
    method Put(val: nat, bits: nat) returns (r: int)
      requires Inside() && bits <= 64
      modifies this, buf
      ensures Inside()
      ensures old(Pos()) + bits > 8 * buf.Length ==> r == -ENOBUFS && buf[..] == old(buf[..]) && Pos() == old(Pos())
      ensures old(Pos()) + bits <= 8 * buf.Length ==>
        r == bits && Pos() == old(Pos()) + bits
        && Stream(buf[..]) == old(Overlay(Stream(buf[..]), Pos(), Field(val, bits)))
    {
      if bits == 0 {
        assert Stream(buf[..]) == Overlay(Stream(buf[..]), Pos(), Field(val, bits));
        return 0;
      }
      if b + (bit + bits - 1) / 8 >= buf.Length {
        return -ENOBUFS;
      }
      Store(val, bits);
      Advance(bits);
      return bits;
    }

    /** Zero bits at a byte boundary without padding are taken for all that are left. */
    ghost predicate AsksForAll(bits: nat)
      reads this
    {
      bits == 0 && bit == 0 && padBits == 0
    }

    /** bitstream_get_bits: the next bits that are not padding, as many as there are. */
    method Get(bits: nat) returns (r: int, out: nat)
      requires Valid() && (AsksForAll(bits) ==> 8 * buf.Length - Pos() <= 64)
      modifies this
      ensures Valid()
      ensures bits > 64 ==> r == -EINVAL && Pos() == old(Pos())
      ensures bits <= 64 ==>
        var left := 8 * buf.Length - padBits - old(Pos());
        && r == (if bits <= left && !old(AsksForAll(bits)) then bits else left)
        && Pos() == old(Pos()) + r
        && out == Val(Stream(buf[..])[old(Pos())..Pos()])
    {
      if bits > 64 {
        return -EINVAL, 0;
      }
      var n := bits;
      // the sum is unsigned: 0 - 1 is past the end
      if bit + padBits + bits == 0 || b + (bit + padBits + bits - 1) / 8 >= buf.Length {
        n := 8 * (buf.Length - b) - bit - padBits;
      }
      if n == 0 {
        assert Stream(buf[..])[Pos()..Pos()] == [];
        return 0, 0;
      }
      FetchIs(buf[..], b, bit, n, Pos());
      out := Fetch(buf[..], b, bit, n);
      Advance(n);
      r := n;
    }

    /** The stream holds exactly the string s, up to the cursor, and zeros behind it. */
    ghost predicate Holds(s: seq<bool>)
      reads this, buf
    {
      Valid() && padBits == 0 && |s| == Pos() && Stream(buf[..]) == Padded(s, 8 * buf.Length)
    }

    /** A put into a stream that was filled by puts. */
    method Append(val: nat, bits: nat, ghost s: seq<bool>) returns (r: int)
      requires Holds(s) && bits <= 64
      modifies this, buf
      ensures if |s| + bits <= 8 * buf.Length then r == bits && Holds(s + Field(val, bits))
              else r == -ENOBUFS && Holds(s) && buf[..] == old(buf[..])
    {
      ghost var n := 8 * buf.Length;
      r := Put(val, bits);
      if |s| + bits <= n { OverlayPadded(s, n, Field(val, bits)); }
    }
  }

  /** s followed by zeros. */
  function Padded(s: seq<bool>, n: nat): (r: seq<bool>)
    requires |s| <= n
    ensures |r| == n && r[..|s|] == s
  {
    s + seq(n - |s|, _ => false)
  }

  lemma {:induction false} OverlayPadded(s: seq<bool>, n: nat, f: seq<bool>)
    requires |s| + |f| <= n
    ensures Overlay(Padded(s, n), |s|, f) == Padded(s + f, n)
  {}

  // ----- any sequence of puts is read back under any sequence of gets -----

  /** The fields, each as value and width, one after the other. */
  function Written(fields: seq<(nat, nat)>): (s: seq<bool>) {
    if fields == [] then [] else Written(fields[..|fields| - 1]) + Field(fields[|fields| - 1].0, fields[|fields| - 1].1)
  }

  method PutAll(bs: BitStream, fields: seq<(nat, nat)>) returns (done: nat)
    requires bs.Holds([]) && forall i :: 0 <= i < |fields| ==> fields[i].1 <= 64
    modifies bs, bs.buf
    ensures done <= |fields| && bs.Holds(Written(fields[..done]))
    ensures done < |fields| ==> |Written(fields[..done + 1])| > 8 * bs.buf.Length
  {
    done := 0;
    while done < |fields|
      invariant done <= |fields| && bs.Holds(Written(fields[..done]))
    {
      var (v, n) := fields[done];
      var r := bs.Append(v, n, Written(fields[..done]));
      assert fields[..done + 1][..done] == fields[..done];
      if r < 0 {
        return;
      }
      done := done + 1;
    }
  }

  /** Each get asks for 1 to 64 bits; together they return the string from where the cursor is,
      and stop exactly at the padding. */
  method GetAll(bs: BitStream, widths: seq<nat>) returns (got: seq<bool>)
    requires bs.Valid() && forall i :: 0 <= i < |widths| ==> 0 < widths[i] <= 64
    modifies bs
    ensures bs.Valid()
    ensures bs.Pos() == var want, end := old(bs.Pos()) + Sum(widths), 8 * bs.buf.Length - bs.padBits;
      if want <= end then want else end
    ensures got == Stream(bs.buf[..])[old(bs.Pos())..bs.Pos()]
  {
    got := [];
    assert Stream(bs.buf[..])[bs.Pos()..bs.Pos()] == [];
    var i := 0;
    assert widths[..0] == [];
    while i < |widths|
      invariant i <= |widths| && bs.Valid()
      invariant bs.Pos() == var want, end := old(bs.Pos()) + Sum(widths[..i]), 8 * bs.buf.Length - bs.padBits;
        if want <= end then want else end
      invariant got == Stream(bs.buf[..])[old(bs.Pos())..bs.Pos()]
    {
      ghost var p := bs.Pos();
      var n, word := bs.Get(widths[i]);
      ghost var s := Stream(bs.buf[..]);
      FieldVal(s[p..bs.Pos()]);
      assert s[old(bs.Pos())..p] + s[p..bs.Pos()] == s[old(bs.Pos())..bs.Pos()];
      got := got + Field(word, n);
      assert widths[..i + 1][..i] == widths[..i];
      i := i + 1;
    }
    assert widths[..i] == widths;
  }

  function Sum(s: seq<nat>): nat {
    if s == [] then 0 else Sum(s[..|s| - 1]) + s[|s| - 1]
  }
}
