/** Run-length packets of the bitmap exchange: fill_bitmap_rle_bits on the sending and
    recv_bm_rle_bits on the receiving side. */
module BitmapRle {
  import opened Wrappers
  import opened Bits
  import opened Bitstream
  import opened Vli

  type Bitmap = seq<bool>

  /** bm_xfer_ctx; both sides move their own. */
  class Xfer {
    const bmBits: nat
    const bmWords: nat
    var bitOffset: nat
    var wordOffset: nat

    constructor (bits: nat)
      ensures bmBits == bits && bmWords == (bits + 63) / 64 && bitOffset == 0 && wordOffset == 0
    {
      bmBits, bmWords, bitOffset, wordOffset := bits, (bits + 63) / 64, 0, 0;
    }

    /** bm_xfer_ctx_bit_to_word_offset */
    method BitToWord()
      modifies this`wordOffset
      ensures wordOffset == bitOffset / 64
    {
      wordOffset := bitOffset / 64;
    }
  }

  // ----- the encoding byte -----

  const RLE_VLI_BITS: nat := 2

  /** dcbp_set_start, dcbp_set_pad_bits, dcbp_set_code */
  function SetStart(e: byte, on: bool): byte { e % 0x80 + if on then 0x80 else 0 }
  function SetPad(e: byte, n: nat): byte
    requires n < 8
  {
    e / 0x80 * 0x80 + n * 0x10
  }
  function SetCode(e: byte, code: nat): byte
    requires code < 0x10
  {
    e / 0x10 * 0x10 + code
  }

  /** dcbp_get_start, dcbp_get_pad_bits, dcbp_get_code */
  function GetStart(e: byte): bool { e / 0x80 != 0 }
  function GetPad(e: byte): nat { e / 0x10 % 8 }
  function GetCode(e: byte): nat { e % 0x10 }

  lemma {:induction false} Digits(h: nat, pad: nat, code: nat)
    requires h < 2 && pad < 8 && code < 0x10
    ensures var e := h * 0x80 + pad * 0x10 + code;
      e / 0x80 == h && e % 0x80 == pad * 0x10 + code && e / 0x10 == h * 8 + pad && e % 0x10 == code
  {}

  /** Whatever is left in the socket buffer, the three fields arrive. */
  lemma {:induction false} EncodingArrives(stale: byte, start: bool, pad: nat, code: nat)
    requires pad < 8 && code < 0x10
    ensures var e := SetCode(SetPad(SetStart(stale, start), pad), code);
      GetStart(e) == start && GetPad(e) == pad && GetCode(e) == code
  {
    var h := if start then 1 else 0;
    var low := stale % 0x80;
    Digits(h, low / 0x10, low % 0x10);
    assert SetStart(stale, start) / 0x80 == h;
    Digits(h, pad, 0);
    Digits(h, pad, code);
  }

  /** The order counts: setting the pad bits wipes out the code, and nothing but the start bit is
      left of what was set before; the start and the code spare one another. */
  lemma {:induction false} PadWipesCode(e: byte, start: bool, pad: nat, code: nat)
    requires pad < 8 && code < 0x10
    ensures GetCode(SetPad(e, pad)) == 0 && GetPad(SetPad(e, pad)) == pad && GetStart(SetPad(e, pad)) == GetStart(e)
    ensures GetCode(SetStart(e, start)) == GetCode(e) && GetPad(SetStart(e, start)) == GetPad(e)
      && GetStart(SetStart(e, start)) == start
    ensures GetCode(SetCode(e, code)) == code && GetPad(SetCode(e, code)) == GetPad(e)
      && GetStart(SetCode(e, code)) == GetStart(e)
  {
    var h, p, c := e / 0x80, e / 0x10 % 8, e % 0x10;
    assert e == h * 0x80 + p * 0x10 + c;
    Digits(h, pad, 0);
    Digits(if start then 1 else 0, p, c);
    Digits(h, p, c);
    Digits(h, p, code);
  }

  // ----- run lengths -----

  function Run(value: bool, n: nat): (s: seq<bool>)
    ensures |s| == n && forall i :: 0 <= i < n ==> s[i] == value
  {
    seq(n, _ => value)
  }

  /** The value of the run after k others. */
  function Polarity(start: bool, k: nat): bool { if k % 2 == 0 then start else !start }

  function Expand(start: bool, runs: seq<nat>): (s: seq<bool>) {
    if runs == [] then []
    else Expand(start, runs[..|runs| - 1]) + Run(Polarity(start, |runs| - 1), runs[|runs| - 1])
  }

  ghost predicate Encodables(t: Table, runs: seq<nat>) {
    forall i :: 0 <= i < |runs| ==> 0 < runs[i] < Limit(t) && Encode(t, runs[i]).Some?
  }

  ghost function Codes(t: Table, runs: seq<nat>): (s: seq<bool>)
    requires Encodables(t, runs)
  {
    if runs == [] then [] else Codes(t, runs[..|runs| - 1]) + Code(t, runs[|runs| - 1])
  }

  /** The same from the front. */
  lemma {:induction false} ExpandFront(start: bool, runs: seq<nat>)
    requires runs != []
    ensures Expand(start, runs) == Run(start, runs[0]) + Expand(!start, runs[1..])
  {
    var n := |runs| - 1;
    if n == 0 {
      assert Expand(start, runs[..0]) == [] && Expand(!start, runs[1..]) == [];
    } else {
      ExpandFront(start, runs[..n]);
      assert runs[..n][1..] == runs[1..][..n - 1];
      assert runs[1..][|runs[1..]| - 1] == runs[n];
      assert Polarity(!start, n - 1) == Polarity(start, n);
    }
  }

  lemma {:induction false} Assoc(a: seq<bool>, b: seq<bool>, c: seq<bool>)
    ensures (a + b) + c == a + (b + c)
  {}

  lemma {:induction false} CodesBack(t: Table, runs: seq<nat>)
    requires Encodables(t, runs) && runs != []
    ensures var n := |runs| - 1;
      Encodables(t, runs[..n]) && Encode(t, runs[n]).Some? && Codes(t, runs) == Codes(t, runs[..n]) + Code(t, runs[n])
  {}

  lemma {:induction false} CodesFront(t: Table, runs: seq<nat>)
    requires Encodables(t, runs) && runs != []
    ensures Encodables(t, runs[1..]) && Codes(t, runs) == Code(t, runs[0]) + Codes(t, runs[1..])
  {
    var n, tail := |runs| - 1, runs[1..];
    CodesBack(t, runs);
    if n == 0 {
      assert Codes(t, runs[..0]) == [] && Codes(t, tail) == [];
    } else {
      var pre := runs[..n];
      CodesFront(t, pre);
      assert pre[1..] == tail[..n - 1] && tail[n - 1] == runs[n] && pre[0] == runs[0];
      CodesBack(t, tail);
      Assoc(Code(t, runs[0]), Codes(t, tail[..n - 1]), Code(t, runs[n]));
    }
  }

  // ----- sending -----

  /** _drbd_bm_find_next and _drbd_bm_find_next_zero, with the end of the bitmap for "none". */
  function FindNext(bm: Bitmap, from: nat, value: bool): (r: nat)
    requires from <= |bm|
    ensures from <= r <= |bm|
    ensures forall i :: from <= i < r ==> bm[i] != value
    ensures r < |bm| ==> bm[r] == value
    decreases |bm| - from
  {
    if from == |bm| || bm[from] == value then from else FindNext(bm, from + 1, value)
  }

  /** vli_encode_bits */
  method EncodeBits(t: Table, bs: BitStream, v: nat, ghost s: seq<bool>) returns (r: int)
    requires Decisive(t) && bs.Holds(s)
    modifies bs, bs.buf
    ensures r > 0 ==> 0 < v < Limit(t) && Encode(t, v).Some? && bs.Holds(s + Code(t, v))
    ensures r == -ENOBUFS ==> Encode(t, v).Some? && |s| + |Code(t, v)| > 8 * bs.buf.Length && bs.Holds(s)
    ensures r <= 0 && r != -ENOBUFS ==> !(0 < v < Limit(t)) && bs.Holds(s)
  {
    Encodable(t, v);
    var c := Encode(t, v);
    if c.None? {
      return -EINVAL;
    }
    DecodeEncode(t, v, 0);
    r := bs.Append(c.value.0, c.value.1, s);
  }

  /** What the loop has encoded so far: bits from..upto of the bitmap, as runs. */
  ghost predicate Encoded(t: Table, bm: Bitmap, from: nat, upto: nat, start: bool, runs: seq<nat>, s: seq<bool>) {
    && from <= upto <= |bm|
    && Encodables(t, runs) && s == Codes(t, runs) && Expand(start, runs) == bm[from..upto]
  }

  lemma {:induction false} EncodeOne(t: Table, bm: Bitmap, from: nat, upto: nat, next: nat, start: bool,
      runs: seq<nat>, s: seq<bool>)
    requires Encoded(t, bm, from, upto, start, runs, s) && upto < next <= |bm|
    requires Encodables(t, [next - upto])
    requires forall i :: upto <= i < next ==> bm[i] == Polarity(start, |runs|)
    ensures Encode(t, next - upto).Some?
    ensures Encoded(t, bm, from, next, start, runs + [next - upto], s + Code(t, next - upto))
  {
    var n := next - upto;
    assert (runs + [n])[..|runs|] == runs && [n][0] == n;
    assert Run(Polarity(start, |runs|), n) == bm[upto..next];
    assert bm[from..next] == bm[from..upto] + bm[upto..next];
  }

  lemma {:induction false} NothingEncoded(t: Table, bm: Bitmap, from: nat, upto: nat, start: bool, runs: seq<nat>,
      s: seq<bool>)
    requires Decisive(t) && Encoded(t, bm, from, upto, start, runs, s)
    ensures s == [] ==> from == upto
  {
    if runs != [] { DecodeEncode(t, runs[|runs| - 1], 0); } else { assert |bm[from..upto]| == 0; }
  }

  /** The state of the encoding loop.  toggle is 2 before the first run, else 0 for a run of set
      bits and 1 for a run of clear ones to come next. */
  ghost predicate Filling(t: Table, bm: Bitmap, from: nat, at: nat, start: bool, runs: seq<nat>, s: seq<bool>,
      toggle: nat) {
    && Encoded(t, bm, from, at, start, runs, s) && toggle <= 2
    && (toggle == 2 ==> runs == [] && at == from)
    && (toggle < 2 ==> (Polarity(start, |runs|) <==> toggle == 0))
    && (toggle < 2 && at < |bm| ==> bm[at] == (toggle == 0))
  }

  lemma {:induction false} FillBegins(t: Table, bm: Bitmap, from: nat)
    requires from <= |bm|
    ensures Filling(t, bm, from, from, false, [], [], 2)
  {}

  /** The first bit is set: the empty first run is not encoded. */
  lemma {:induction false} FillStartsSet(t: Table, bm: Bitmap, from: nat, start: bool, s: seq<bool>)
    requires Filling(t, bm, from, from, start, [], s, 2) && from < |bm| && bm[from]
    ensures Filling(t, bm, from, from, true, [], s, 0)
  {}

  /** A run is never empty, unless it is the first. */
  lemma {:induction false} RunToCome(t: Table, bm: Bitmap, from: nat, at: nat, start: bool, runs: seq<nat>,
      s: seq<bool>, toggle: nat)
    requires Filling(t, bm, from, at, start, runs, s, toggle) && at < |bm|
    ensures FindNext(bm, at, toggle != 0) == at ==> toggle == 2 && bm[at]
  {}

  lemma {:induction false} FillGoesOn(t: Table, bm: Bitmap, from: nat, at: nat, start: bool, runs: seq<nat>,
      s: seq<bool>, toggle: nat)
    requires Filling(t, bm, from, at, start, runs, s, toggle) && at < |bm|
    ensures var next := FindNext(bm, at, toggle != 0);
            var first := if toggle == 2 then false else start;
            next > at && Encodables(t, [next - at]) ==>
              && Encode(t, next - at).Some?
              && Filling(t, bm, from, next, first, runs + [next - at], s + Code(t, next - at),
                  if toggle == 0 then 1 else 0)
  {
    var next := FindNext(bm, at, toggle != 0);
    var first := if toggle == 2 then false else start;
    if next > at && Encodables(t, [next - at]) {
      EncodeOne(t, bm, from, at, next, first, runs, s);
    }
  }

  /** The run of equal bits that begins at a bit. */
  function RunAt(bm: Bitmap, at: nat): (n: nat)
    requires at < |bm|
  {
    FindNext(bm, at, !bm[at]) - at
  }

  lemma {:induction false} RunComes(t: Table, bm: Bitmap, from: nat, at: nat, start: bool, runs: seq<nat>,
      s: seq<bool>, toggle: nat)
    requires Filling(t, bm, from, at, start, runs, s, toggle) && at < |bm| && FindNext(bm, at, toggle != 0) > at
    ensures FindNext(bm, at, toggle != 0) - at == RunAt(bm, at)
  {}

  /** No further run fits, or there is none. */
  ghost predicate Maximal(t: Table, bm: Bitmap, at: nat, used: nat, room: nat) {
    at < |bm| ==> Encode(t, RunAt(bm, at)).Some? && used + |Code(t, RunAt(bm, at))| > room
  }

  /** Encodes the run up to tmp, if there is room for it. */
  method EncodeRun(t: Table, bm: Bitmap, c: Xfer, bs: BitStream, tmp: nat, ghost at: nat, ghost s: seq<bool>)
    returns (r: int)
    requires Decisive(t) && c.bitOffset == at < tmp <= |bm| && bs.Holds(s)
    modifies c`bitOffset, bs, bs.buf
    ensures r > 0 ==> Encodables(t, [tmp - at]) && bs.Holds(s + Code(t, [tmp - at][0])) && c.bitOffset == tmp
    ensures r <= 0 ==> bs.Holds(s) && c.bitOffset == at && (r != -ENOBUFS ==> |bm| >= Limit(t))
    ensures r == -ENOBUFS ==> Encode(t, tmp - at).Some? && |s| + |Code(t, tmp - at)| > 8 * bs.buf.Length
  {
    var rl := tmp - c.bitOffset;
    r := EncodeBits(t, bs, rl, s);
    if r > 0 {
      c.bitOffset := tmp;
    }
  }

  /** One round of the loop of fill_bitmap_rle_bits.  error stands for the early returns: -1 for a
      run of length zero, which an unchanging bitmap rules out, and 0 for a run beyond the code. */
  method FillOne(t: Table, bm: Bitmap, c: Xfer, bs: BitStream, start: bool, toggle: nat, ghost from: nat,
      ghost runs: seq<nat>, ghost s: seq<bool>)
    returns (start': bool, toggle': nat, full: bool, error: int, rl: nat, ghost runs': seq<nat>, ghost s': seq<bool>)
    requires Decisive(t) && c.bmBits == |bm| && c.bitOffset < |bm| && bs.Holds(s)
      && Filling(t, bm, from, c.bitOffset, start, runs, s, toggle)
    modifies c`bitOffset, bs, bs.buf
    ensures error <= 0 && (error < 0 ==> error == -EINVAL && |bm| >= Limit(t))
    ensures error == 0 ==>
      c.bitOffset == old(c.bitOffset) + rl && bs.Holds(s')
      && Filling(t, bm, from, c.bitOffset, start', runs', s', toggle')
    ensures error == 0 && !full ==> rl > 0 || toggle' < toggle
    ensures error == 0 && full ==> Maximal(t, bm, c.bitOffset, |s'|, 8 * bs.buf.Length)
  {
    start', toggle', full, error, runs', s' := start, toggle, false, 0, runs, s;
    var tmp := FindNext(bm, c.bitOffset, toggle != 0);
    rl := tmp - c.bitOffset;
    RunToCome(t, bm, from, c.bitOffset, start, runs, s, toggle);
    if toggle == 2 && rl == 0 {
      FillStartsSet(t, bm, from, start, s);
      start', toggle' := true, 0;
      return;
    }
    FillGoesOn(t, bm, from, c.bitOffset, start, runs, s, toggle);
    RunComes(t, bm, from, c.bitOffset, start, runs, s, toggle);
    var r := EncodeRun(t, bm, c, bs, tmp, c.bitOffset, s);
    if r == -ENOBUFS {
      full, rl := true, 0;
      assert Maximal(t, bm, c.bitOffset, |s|, 8 * bs.buf.Length);
    } else if r <= 0 {
      error := -EINVAL;
    } else {
      start' := if toggle == 2 then false else start;
      toggle' := if toggle == 0 then 1 else 0;
      s', runs' := s + Code(t, [rl][0]), runs + [rl];
    }
  }

  method FillLoop(t: Table, bm: Bitmap, c: Xfer, bs: BitStream)
    returns (start: bool, plain: nat, error: int, ghost runs: seq<nat>)
    requires Decisive(t) && c.bmBits == |bm| && c.bitOffset < |bm| && bs.Holds([])
    modifies c`bitOffset, bs, bs.buf
    ensures error <= 0
    ensures error == 0 ==> plain == c.bitOffset - old(c.bitOffset)
    ensures error == 0 ==>
      Encodables(t, runs) && bs.Holds(Codes(t, runs))
      && Encoded(t, bm, old(c.bitOffset), c.bitOffset, start, runs, Codes(t, runs))
      && Maximal(t, bm, c.bitOffset, |Codes(t, runs)|, 8 * bs.buf.Length)
    ensures error < 0 ==> error == -EINVAL && |bm| >= Limit(t)
  {
    ghost var from, s := c.bitOffset, [];
    start, plain, error, runs := false, 0, 0, [];
    FillBegins(t, bm, from);
    var toggle: nat, full, rl: nat := 2, false, 0;
    while !full && c.bitOffset < c.bmBits
      invariant error == 0 && plain == c.bitOffset - from
      invariant bs.Holds(s) && Filling(t, bm, from, c.bitOffset, start, runs, s, toggle)
      invariant full ==> Maximal(t, bm, c.bitOffset, |s|, 8 * bs.buf.Length)
      decreases !full, |bm| - c.bitOffset, toggle
    {
      start, toggle, full, error, rl, runs, s := FillOne(t, bm, c, bs, start, toggle, from, runs, s);
      if error < 0 {
        return;
      }
      plain := plain + rl;
    }
  }

  /** P_COMPRESSED_BITMAP and P_BITMAP */
  datatype Packet = Rle(encoding: byte, code: seq<byte>) | Plain(words: seq<nat>)

  /** The bits of a code string that are not padding. */
  function Payload(code: seq<byte>, pad: nat): seq<bool>
    requires pad <= 8 * |code|
  {
    Stream(code)[..8 * |code| - pad]
  }

  /** A packet that describes bits from..upto of the bitmap. */
  ghost predicate Carries(t: Table, p: Packet, bm: Bitmap, from: nat, upto: nat, runs: seq<nat>) {
    && p.Rle? && p.code != [] && GetCode(p.encoding) == RLE_VLI_BITS
    && Encoded(t, bm, from, upto, GetStart(p.encoding), runs, Payload(p.code, GetPad(p.encoding)))
  }

  lemma {:induction false} ZeroStream(buf: seq<byte>)
    requires forall i :: 0 <= i < |buf| ==> buf[i] == 0
    ensures Stream(buf) == Padded([], 8 * |buf|)
  {
    forall p | 0 <= p < 8 * |buf| ensures !Stream(buf)[p] {
      StreamAt(buf, p / 8, p % 8, p);
      BitZero(p % 8);
    }
  }

  lemma {:induction false} StreamPrefix(buf: seq<byte>, n: nat)
    requires n <= |buf|
    ensures Stream(buf[..n]) == Stream(buf)[..8 * n]
    decreases n
  {
    if n > 0 {
      StreamPrefix(buf[1..], n - 1);
      assert buf[..n][1..] == buf[1..][..n - 1];
    } else {
      assert buf[..n] == [];
    }
  }

  /** Cutting the buffer after the last byte in use leaves the string and its padding. */
  lemma {:induction false} CutBuffer(buf: seq<byte>, s: seq<bool>, len: nat, pad: nat)
    requires len <= |buf| && |s| <= 8 * |buf| && Stream(buf) == Padded(s, 8 * |buf|) && |s| == 8 * len - pad
    ensures Payload(buf[..len], pad) == s
  {
    StreamPrefix(buf, len);
  }

  /** bitstream_init on a buffer set to zero */
  method NewStream(size: nat) returns (bs: BitStream)
    ensures fresh(bs) && fresh(bs.buf) && bs.buf.Length == size && bs.Holds([])
  {
    var buf := new byte[size](_ => 0);
    bs := new BitStream(buf, 0);
    ZeroStream(buf[..]);
  }

  /** The bytes in use and the number of pad bits in the last one. */
  method Cut(bs: BitStream, ghost s: seq<bool>) returns (code: seq<byte>, pad: nat)
    requires bs.Holds(s)
    ensures |code| <= bs.buf.Length && pad < 8 && pad <= 8 * |code| && Payload(code, pad) == s
  {
    var len := bs.b + if bs.bit != 0 then 1 else 0;
    pad := (8 - bs.bit) % 8;
    CutBuffer(bs.buf[..], s, len, pad);
    code := bs.buf[..len];
  }

  method FillBuffer(t: Table, bm: Bitmap, c: Xfer, size: nat)
    returns (start: bool, plain: nat, error: int, code: seq<byte>, pad: nat, ghost runs: seq<nat>)
    requires Decisive(t) && c.bmBits == |bm| && c.bitOffset < |bm|
    modifies c`bitOffset
    ensures |code| <= size && pad < 8 && pad <= 8 * |code| && error <= 0
    ensures error == 0 ==> plain == c.bitOffset - old(c.bitOffset)
    ensures error == 0 ==> Encoded(t, bm, old(c.bitOffset), c.bitOffset, start, runs, Payload(code, pad))
    ensures error == 0 ==> Maximal(t, bm, c.bitOffset, |Payload(code, pad)|, 8 * size)
    ensures error < 0 ==> |bm| >= Limit(t)
  {
    code, pad := [], 0;
    var bs := NewStream(size);
    start, plain, error, runs := FillLoop(t, bm, c, bs);
    if error == 0 {
      code, pad := Cut(bs, Codes(t, runs));
    }
  }

  method Stamp(stale: byte, start: bool, pad: nat) returns (e: byte)
    requires pad < 8
    ensures GetStart(e) == start && GetPad(e) == pad && GetCode(e) == RLE_VLI_BITS
  {
    EncodingArrives(stale, start, pad, RLE_VLI_BITS);
    e := SetCode(SetPad(SetStart(stale, start), pad), RLE_VLI_BITS);
  }

  /** The longest description from a bit on that fits into size bytes: it ends at upto and is no
      shorter than the bits themselves. */
  ghost predicate NoGain(t: Table, bm: Bitmap, from: nat, upto: nat, first: bool, runs: seq<nat>, size: nat) {
    && Encodables(t, runs) && Encoded(t, bm, from, upto, first, runs, Codes(t, runs))
    && Maximal(t, bm, upto, |Codes(t, runs)|, 8 * size) && upto - from <= 8 * ((|Codes(t, runs)| + 7) / 8)
  }

  /** fill_bitmap_rle_bits into a packet of at most size code bytes, for a sender that may use
      run lengths.  A result without code means "send it as plain text"; that is so exactly when it
      may not use them, there is nothing to describe, or the longest description that fits does
      not pay. */
  method Fill(t: Table, bm: Bitmap, c: Xfer, useRle: bool, size: nat, stale: byte)
    returns (p: Packet, ghost runs: seq<nat>, ghost upto: nat, ghost first: bool)
    requires Decisive(t) && c.bmBits == |bm| && (c.bitOffset < |bm| ==> c.wordOffset == c.bitOffset / 64)
    modifies c
    ensures p.Rle? && |p.code| <= size
    ensures p.code == [] ==> c.wordOffset == old(c.wordOffset)
    ensures p.code == [] && useRle && old(c.bitOffset) < |bm| < Limit(t) ==>
      NoGain(t, bm, old(c.bitOffset), upto, first, runs, size)
    ensures p.code != [] ==> useRle && Carries(t, p, bm, old(c.bitOffset), c.bitOffset, runs)
    ensures p.code != [] ==> Maximal(t, bm, c.bitOffset, |Payload(p.code, GetPad(p.encoding))|, 8 * size)
    ensures p.code != [] ==> c.bitOffset - old(c.bitOffset) >= 8 * |p.code| && c.wordOffset == c.bitOffset / 64
  {
    runs, upto, first, p := [], c.bitOffset, false, Rle(stale, []);
    if !useRle || c.bitOffset >= c.bmBits {
      return;
    }
    var start, plain, error, code, pad;
    start, plain, error, code, pad, runs := FillBuffer(t, bm, c, size);
    upto, first := c.bitOffset, start;
    if error < 0 {
      return;
    }
    if plain < 8 * |code| {
      c.bitOffset := c.bitOffset - plain;
      c.BitToWord();
      c.bitOffset := c.wordOffset * 64;
      return;
    }
    NothingEncoded(t, bm, old(c.bitOffset), c.bitOffset, start, runs, Payload(code, pad));
    c.BitToWord();
    var e := Stamp(stale, start, pad);
    p := Rle(e, code);
  }

  // ----- receiving -----

  /** Where decoding got to, and what it did to the bitmap. */
  datatype Decoded = Decoded(ok: bool, at: nat, bm: Bitmap)

  /** _drbd_bm_set_bits */
  function SetRun(bm: Bitmap, from: nat, n: nat): (r: Bitmap)
    ensures |r| == |bm|
  {
    seq(|bm|, i requires 0 <= i < |bm| => bm[i] || from <= i < from + n)
  }

  function Head(s: seq<bool>): seq<bool> { if |s| <= 64 then s else s[..64] }

  /** The value of the code word at the front of a string, and its length. */
  type Reader = seq<bool> -> Option<(nat, nat)>

  ghost predicate IsReader(f: Reader, t: Table) { forall s :: ReadsAs(f, t, s) }
  predicate ReadsAs(f: Reader, t: Table, s: seq<bool>) { f(s) == Decode(t, Val(Head(s))) }

  /** What recv_bm_rle_bits makes of any string of code bits. */
  function Receive(f: Reader, s: seq<bool>, toggle: bool, at: nat, bm: Bitmap): Decoded
    decreases |s|
  {
    if s == [] then Decoded(true, at, bm)
    else
      match f(s)
      case None => Decoded(false, at, bm)
      case Some((rl, n)) =>
        if n == 0 || (toggle && at + rl > |bm|) then Decoded(false, at, bm)
        else
          var bm' := if toggle then SetRun(bm, at, rl) else bm;
          if n > |s| then Decoded(false, at, bm')
          else Receive(f, s[n..], !toggle, at + rl, bm')
  }

  /** The receiver's bitmap after the bits of src from..upto arrived. */
  function Merge(bm: Bitmap, src: Bitmap, from: nat, upto: nat): (r: Bitmap)
    requires |src| == |bm|
    ensures |r| == |bm|
  {
    seq(|bm|, i requires 0 <= i < |bm| => bm[i] || (from <= i < upto && src[i]))
  }

  /** The reader reads code words. */
  ghost predicate Reads(f: Reader, t: Table) {
    forall r: nat, rest: seq<bool> :: 0 < r < Limit(t) && Encode(t, r).Some? ==> Finds(f, t, r, rest)
  }
  ghost predicate Finds(f: Reader, t: Table, r: nat, rest: seq<bool>)
    requires Encode(t, r).Some?
  {
    Code(t, r) != [] && f(Code(t, r) + rest) == Some((r, |Code(t, r)|))
  }

  lemma {:induction false} ReaderReads(f: Reader, t: Table)
    requires Decisive(t) && IsReader(f, t)
    ensures Reads(f, t)
  {
    forall r: nat, rest: seq<bool> | 0 < r < Limit(t) && Encode(t, r).Some? ensures Finds(f, t, r, rest) {
      HeadOf(t, r, rest);
      assert ReadsAs(f, t, Code(t, r) + rest);
    }
  }

  lemma {:induction false} ReceiveOneRun(f: Reader, code: seq<bool>, r: nat, rest: seq<bool>, toggle: bool, from: nat,
      bm: Bitmap)
    requires code != [] && f(code + rest) == Some((r, |code|)) && (toggle ==> from + r <= |bm|)
    ensures Receive(f, code + rest, toggle, from, bm)
         == Receive(f, rest, !toggle, from + r, if toggle then SetRun(bm, from, r) else bm)
  {
    assert (code + rest)[|code|..] == rest;
  }

  /** A string of code words is decoded to the runs it stands for. */
  lemma {:induction false} ReceiveCodes(f: Reader, t: Table, runs: seq<nat>, toggle: bool, src: Bitmap, from: nat,
      upto: nat, bm: Bitmap)
    requires Reads(f, t) && Encodables(t, runs) && |bm| == |src| && from <= upto <= |src|
      && Expand(toggle, runs) == src[from..upto]
    ensures Receive(f, Codes(t, runs), toggle, from, bm) == Decoded(true, upto, Merge(bm, src, from, upto))
    decreases |runs|
  {
    if runs == [] {
      assert from == upto && Merge(bm, src, from, upto) == bm;
    } else {
      var r, rest := runs[0], runs[1..];
      CodesFront(t, runs);
      ExpandFront(toggle, runs);
      var e := Expand(!toggle, rest);
      assert src[from..upto] == Run(toggle, r) + e;
      SplitRun(src, from, upto, toggle, r, e, bm);
      assert Finds(f, t, r, Codes(t, rest));
      ReceiveOneRun(f, Code(t, r), r, Codes(t, rest), toggle, from, bm);
      ReceiveCodes(f, t, rest, !toggle, src, from + r, upto, if toggle then SetRun(bm, from, r) else bm);
    }
  }

  function Total(runs: seq<nat>): nat {
    if runs == [] then 0 else runs[0] + Total(runs[1..])
  }

  /** The run lengths that a string is decoded to, up to a code word that is cut off. */
  function Runs(f: Reader, s: seq<bool>): seq<nat>
    decreases |s|
  {
    if s == [] then []
    else
      match f(s)
      case None => []
      case Some((rl, n)) => if n == 0 || n > |s| then [] else [rl] + Runs(f, s[n..])
  }

  /** When a string is decoded to its end, only a last run of clear bits may end behind the bitmap. */
  lemma {:induction false} ReceiveRuns(f: Reader, s: seq<bool>, toggle: bool, at: nat, bm: Bitmap)
    requires Receive(f, s, toggle, at, bm).ok
    ensures var runs := Runs(f, s);
      && Receive(f, s, toggle, at, bm).at == at + Total(runs)
      && (runs != [] && Polarity(toggle, |runs| - 1) ==> at + Total(runs) <= |bm|)
    decreases |s|
  {
    if s != [] {
      var (rl, n) := f(s).value;
      var rest := Runs(f, s[n..]);
      ReceiveRuns(f, s[n..], !toggle, at + rl, if toggle then SetRun(bm, at, rl) else bm);
      assert Total([rl] + rest) == rl + Total(rest) by { assert ([rl] + rest)[1..] == rest; }
    }
  }

  /** The look-ahead is long enough for any code word. */
  lemma {:induction false} HeadOf(t: Table, r: nat, rest: seq<bool>)
    requires Decisive(t) && 0 < r < Limit(t)
    ensures Encode(t, r).Some? && 0 < |Code(t, r)| && Decode(t, Val(Head(Code(t, r) + rest))) == Some((r, |Code(t, r)|))
  {
    DecodeCode(t, r, []);
    var code := Code(t, r);
    var h := Head(code + rest);
    var more := if |code| + |rest| <= 64 then rest else rest[..64 - |code|];
    assert h == code + more;
    DecodeCode(t, r, more);
  }

  lemma {:induction false} SplitRun(src: Bitmap, from: nat, upto: nat, toggle: bool, r: nat, e: seq<bool>, bm: Bitmap)
    requires from <= upto <= |src| == |bm| && src[from..upto] == Run(toggle, r) + e
    ensures from + r <= upto && src[from + r..upto] == e
    ensures Merge(if toggle then SetRun(bm, from, r) else bm, src, from + r, upto) == Merge(bm, src, from, upto)
  {}

  /** The bits not consumed yet, and the look-ahead that holds the first of them. */
  ghost predicate Ahead(bs: BitStream, rem: seq<bool>, look: nat, have: nat)
    reads bs, bs.buf
  {
    bs.Valid() && have == |Head(rem)| && look == Val(Head(rem)) && rem[have..] == Unread(bs)
  }

  /** The bits behind the cursor, up to the padding. */
  ghost function Unread(bs: BitStream): seq<bool>
    reads bs, bs.buf
    requires bs.Valid()
  {
    Stream(bs.buf[..])[bs.Pos()..8 * bs.buf.Length - bs.padBits]
  }

  /** Taking n bits off the look-ahead leaves the value of the others. */
  lemma {:induction false} Consume(rem: seq<bool>, n: nat, look: nat)
    requires n <= |Head(rem)| && look == Val(Head(rem))
    ensures (if n < 64 then Shr(look, n) else 0) == Val(Head(rem)[n..])
  {
    ShrVal(Head(rem), n);
  }

  /** Filling up the look-ahead. */
  lemma {:induction false} Refill(rem: seq<bool>, n: nat, more: seq<bool>, next: seq<bool>)
    requires n <= |Head(rem)| && rem[|Head(rem)|..] == next && more <= next
    requires |more| == if |Head(rem)| - n + |next| <= 64 then |next| else 64 - (|Head(rem)| - n)
    ensures Head(rem[n..]) == Head(rem)[n..] + more
    ensures rem[n..][|Head(rem[n..])|..] == next[|more|..]
  {}

  lemma {:induction false} Shift(rem: seq<bool>, n: nat, look: nat, more: seq<bool>, next: seq<bool>)
    requires n <= |Head(rem)| && look == Val(Head(rem)) && rem[|Head(rem)|..] == next && more <= next
    requires |more| == if |Head(rem)| - n + |next| <= 64 then |next| else 64 - (|Head(rem)| - n)
    ensures Or(if n < 64 then Shr(look, n) else 0, Shl(Val(more), |Head(rem)| - n)) == Val(Head(rem[n..]))
    ensures |Head(rem[n..])| == |Head(rem)| - n + |more| && rem[n..][|Head(rem[n..])|..] == next[|more|..]
  {
    Consume(rem, n, look);
    Refill(rem, n, more, next);
    OrVal(Head(rem)[n..], more);
  }

  /** The bits left of the look-ahead, with tmp behind them. */
  method Join(look: nat, n: nat, tmp: nat, have: nat, ghost rem: seq<bool>, ghost more: seq<bool>,
      ghost next: seq<bool>) returns (r: nat)
    requires n <= |Head(rem)| && look == Val(Head(rem)) && rem[|Head(rem)|..] == next && more <= next
    requires |more| == if |Head(rem)| - n + |next| <= 64 then |next| else 64 - (|Head(rem)| - n)
    requires tmp == Val(more) && have == |Head(rem)| - n
    ensures r == Val(Head(rem[n..])) && |Head(rem[n..])| == have + |more| && rem[n..][have + |more|..] == next[|more|..]
  {
    Shift(rem, n, look, more, next);
    r := Or(if n < 64 then Shr(look, n) else 0, Shl(tmp, have));
  }

  lemma {:induction false} SplitSlice(s: seq<bool>, p: nat, end: nat, n: nat)
    requires p + n <= end <= |s|
    ensures s[p..p + n] <= s[p..end] && s[p..end][n..] == s[p + n..end]
  {}

  /** A get, as a step along the unread bits. */
  method GetUnread(bs: BitStream, want: nat, ghost next: seq<bool>) returns (bits: nat, word: nat)
    requires bs.Valid() && 0 < want <= 64 && next == Unread(bs)
    modifies bs
    ensures bs.Valid() && bits == (if want <= |next| then want else |next|)
    ensures word == Val(next[..bits]) && Unread(bs) == next[bits..]
  {
    ghost var s, p := Stream(bs.buf[..]), bs.Pos();
    bits, word := bs.Get(want);
    SplitSlice(s, p, 8 * bs.buf.Length - bs.padBits, bits);
    assert next[..bits] == s[p..p + bits];
  }

  /** Moves the look-ahead on by one code word of n bits. */
  method Step(bs: BitStream, look: nat, have: nat, n: nat, ghost rem: seq<bool>) returns (look': nat, have': nat)
    requires Ahead(bs, rem, look, have) && 1 <= n <= have
    modifies bs
    ensures Ahead(bs, rem[n..], look', have')
  {
    ghost var next := rem[have..];
    var bits, tmp := GetUnread(bs, 64 - (have - n), next);
    look' := Join(look, n, tmp, have - n, rem, next[..bits], next);
    have' := have - n + bits;
  }

  method OpenStream(code: seq<byte>, pad: nat) returns (bs: BitStream)
    requires pad <= 8 * |code|
    ensures fresh(bs) && bs.Valid() && bs.Pos() == 0 && bs.padBits == pad && bs.buf[..] == code
  {
    var buf := new byte[|code|](i requires 0 <= i < |code| => code[i]);
    assert buf[..] == code;
    bs := new BitStream(buf, pad);
  }

  method FirstLook(bs: BitStream, ghost rem: seq<bool>) returns (look: nat, have: nat)
    requires bs.Valid() && bs.Pos() == 0 && rem == Stream(bs.buf[..])[..8 * bs.buf.Length - bs.padBits]
    modifies bs
    ensures Ahead(bs, rem, look, have)
  {
    var bits, word := bs.Get(64);
    assert Head(rem) == Stream(bs.buf[..])[0..bs.Pos()];
    look, have := word, bits;
  }

  const EIO: int := 5

  /** vli_decode_bits on the look-ahead */
  method DecodeBits(t: Table, look: nat, ghost rem: seq<bool>, ghost f: Reader) returns (rl: nat, n: nat)
    requires Decisive(t) && look == Val(Head(rem)) && IsReader(f, t)
    ensures f(rem) == Some((rl, n)) && 0 < n <= 64
  {
    assert ReadsAs(f, t, rem);
    EncodeDecode(t, look);
    var d := Decode(t, look).value;
    return d.0, d.1;
  }

  /** Reads one code word and sets its run. */
  method DecodeRun(t: Table, look: nat, have: nat, toggle: bool, s: nat, bm: Bitmap, ghost rem: seq<bool>,
      ghost f: Reader)
    returns (ok: bool, n: nat, s': nat, bm': Bitmap)
    requires Decisive(t) && IsReader(f, t) && have == |Head(rem)| > 0 && look == Val(Head(rem))
    ensures |bm'| == |bm|
    ensures ok ==> 1 <= n <= have && Receive(f, rem, toggle, s, bm) == Receive(f, rem[n..], !toggle, s', bm')
    ensures !ok ==> Receive(f, rem, toggle, s, bm) == Decoded(false, s', bm')
  {
    var rl;
    rl, n := DecodeBits(t, look, rem, f);
    ok, s', bm' := false, s, bm;
    if toggle {
      if s + rl > |bm| {
        return;
      }
      bm' := SetRun(bm, s, rl);
    }
    if have >= n {
      ok, s' := true, s + rl;
    }
  }

  /** One round of the decoding loop of recv_bm_rle_bits. */
  method DecodeOne(t: Table, bs: BitStream, look: nat, have: nat, toggle: bool, s: nat, bm: Bitmap,
      ghost rem: seq<bool>, ghost f: Reader)
    returns (ok: bool, look': nat, have': nat, s': nat, bm': Bitmap, ghost rem': seq<bool>)
    requires Decisive(t) && Ahead(bs, rem, look, have) && have > 0 && IsReader(f, t)
    modifies bs
    ensures |bm'| == |bm|
    ensures ok ==> Ahead(bs, rem', look', have') && |rem'| < |rem|
    ensures ok ==> Receive(f, rem, toggle, s, bm) == Receive(f, rem', !toggle, s', bm')
    ensures !ok ==> Receive(f, rem, toggle, s, bm) == Decoded(false, s', bm')
  {
    look', have', rem' := look, have, rem;
    var n;
    ok, n, s', bm' := DecodeRun(t, look, have, toggle, s, bm, rem, f);
    if ok {
      look', have' := Step(bs, look, have, n, rem);
      rem' := rem[n..];
    }
  }

  method DecodeLoop(t: Table, bs: BitStream, start: bool, from: nat, bm: Bitmap, ghost all: seq<bool>, ghost f: Reader)
    returns (r: Decoded)
    requires Decisive(t) && IsReader(f, t) && bs.Valid() && bs.Pos() == 0
      && all == Stream(bs.buf[..])[..8 * bs.buf.Length - bs.padBits]
    modifies bs
    ensures r == Receive(f, all, start, from, bm)
  {
    ghost var rem := all;
    var look: nat, have: nat := FirstLook(bs, rem);
    var ok, toggle, s: nat, cur := true, start, from, bm;
    while have > 0
      invariant Ahead(bs, rem, look, have)
      invariant Receive(f, rem, toggle, s, cur) == Receive(f, all, start, from, bm)
      decreases |rem|
    {
      ok, look, have, s, cur, rem := DecodeOne(t, bs, look, have, toggle, s, cur, rem, f);
      if !ok {
        return Decoded(false, s, cur);
      }
      toggle := !toggle;
    }
    r := Decoded(true, s, cur);
  }

  /** recv_bm_rle_bits: 0 when done, 1 when another packet is needed, negative on error */
  method ReceiveRle(t: Table, p: Packet, c: Xfer, bm: Bitmap, ghost f: Reader) returns (bm': Bitmap, status: int)
    requires Decisive(t) && IsReader(f, t) && p.Rle? && p.code != [] && c.bmBits == |bm|
    modifies c
    ensures var r := Receive(f, Payload(p.code, GetPad(p.encoding)), GetStart(p.encoding), old(c.bitOffset), bm);
      && bm' == r.bm
      && (r.ok ==> c.bitOffset == r.at && c.wordOffset == r.at / 64 && status == if r.at == |bm| then 0 else 1)
      && (!r.ok ==> status == -EIO && c.bitOffset == old(c.bitOffset) && c.wordOffset == old(c.wordOffset))
  {
    var pad := GetPad(p.encoding);
    var bs := OpenStream(p.code, pad);
    var r := DecodeLoop(t, bs, GetStart(p.encoding), c.bitOffset, bm, Payload(p.code, pad), f);
    bm' := r.bm;
    if !r.ok {
      return bm', -EIO;
    }
    c.bitOffset := r.at;
    c.BitToWord();
    status := if r.at != c.bmBits then 1 else 0;
  }
}
