/** The whole bitmap exchange.  No packet says which bits it is about: both sides keep an offset
    of their own, and a plain packet starts at the last 64-bit word that the offset is in. */
module BitmapXfer {
  import opened Bits
  import opened Bitstream
  import opened Vli
  import opened BitmapRle

  /** DRBD_SOCKET_BUFFER_SIZE less the header, which is a multiple of 8. */
  const MAX_HEADER: nat := 16
  const BUFFER: nat := 4096

  predicate PayloadSize(size: nat) {
    BUFFER - MAX_HEADER <= size < BUFFER && size % 8 == 0
  }

  // ----- plain text -----

  /** drbd_bm_get_lel: n words from word offset on; there is nothing behind the last bit. */
  function PlainWords(bm: Bitmap, offset: nat, n: nat): (w: seq<nat>)
    requires 64 * (offset + n) < |bm| + 64
    ensures |w| == n
  {
    seq<nat>(n, i requires 0 <= i < n => PlainWord(bm, offset + i))
  }

  function PlainWord(bm: Bitmap, w: nat): nat
    requires 64 * w < |bm|
  {
    Val(bm[64 * w..WordEnd(bm, w)])
  }

  function WordEnd(bm: Bitmap, w: nat): (e: nat)
    requires 64 * w < |bm|
    ensures 64 * w < e <= |bm|
  {
    if 64 * w + 64 <= |bm| then 64 * w + 64 else |bm|
  }

  /** drbd_bm_merge_lel */
  function MergeWords(bm: Bitmap, offset: nat, words: seq<nat>): (r: Bitmap)
    ensures |r| == |bm|
  {
    seq(|bm|, p requires 0 <= p < |bm| =>
      bm[p] || (offset <= p / 64 < offset + |words| && Bit(words[p / 64 - offset], p % 64)))
  }

  lemma {:induction false} PlainBit(src: Bitmap, offset: nat, n: nat, p: nat)
    requires 64 * (offset + n) < |src| + 64 && p < |src| && offset <= p / 64 < offset + n
    ensures Bit(PlainWords(src, offset, n)[p / 64 - offset], p % 64) == src[p]
  {
    var w, j := p / 64, p % 64;
    var slice := src[64 * w..WordEnd(src, w)];
    assert p == 64 * w + j && slice[j] == src[p];
    BitVal(slice, j);
    assert PlainWords(src, offset, n)[w - offset] == PlainWord(src, w) == Val(slice);
  }

  /** Plain words carry the bits of the sender. */
  lemma {:induction false} PlainMerges(src: Bitmap, bm: Bitmap, offset: nat, n: nat)
    requires |bm| == |src| && 64 * (offset + n) < |src| + 64
    ensures MergeWords(bm, offset, PlainWords(src, offset, n)) == Merge(bm, src, 64 * offset, 64 * (offset + n))
  {
    forall p | 0 <= p < |bm|
      ensures MergeWords(bm, offset, PlainWords(src, offset, n))[p] == Merge(bm, src, 64 * offset, 64 * (offset + n))[p]
    {
      assert offset <= p / 64 < offset + n <==> 64 * offset <= p < 64 * (offset + n);
      if offset <= p / 64 < offset + n { PlainBit(src, offset, n, p); }
    }
  }

  function Min(a: nat, b: nat): nat { if a < b then a else b }

  // ----- the two sides -----

  /** What each side may rely on between packets. */
  predicate Aligned(bits: nat, words: nat, bitOffset: nat, wordOffset: nat) {
    && words == (bits + 63) / 64
    && ((bitOffset < bits && wordOffset == bitOffset / 64) || (bitOffset == bits && wordOffset == words))
  }

  /** A packet for a receiver at the given offsets: where both sides are after it, and whether
      it is the last one. */
  ghost predicate Good(t: Table, p: Packet, size: nat, src: Bitmap, bit: nat, word: nat, bit': nat, word': nat,
      done: bool, runs: seq<nat>) {
    var words := (|src| + 63) / 64;
    match p
    case Rle(_, code) =>
      && 1 + |code| <= size && Carries(t, p, src, bit, bit', runs)
      && bit < bit' && word' == bit' / 64 && (done <==> bit' == |src|)
    case Plain(ws) =>
      && word <= words
      && (var n := Min(size / 8, words - word);
          && ws == PlainWords(src, word, n)
          && word' == word + n && bit' == Min(64 * word', |src|) && (done <==> n == 0))
  }

  /** send_bitmap_rle_or_plain */
  method Send(t: Table, bm: Bitmap, c: Xfer, useRle: bool, size: nat, stale: byte)
    returns (p: Packet, done: bool, ghost runs: seq<nat>)
    requires Decisive(t) && PayloadSize(size) && c.bmBits == |bm| && Aligned(|bm|, c.bmWords, c.bitOffset, c.wordOffset)
    modifies c
    ensures !done ==> Aligned(|bm|, c.bmWords, c.bitOffset, c.wordOffset)
    ensures Good(t, p, size, bm, old(c.bitOffset), old(c.wordOffset), c.bitOffset, c.wordOffset, done, runs)
  {
    ghost var upto, first;
    p, runs, upto, first := Fill(t, bm, c, useRle, size - 1, stale);
    if p.code != [] {
      done := c.bitOffset >= c.bmBits;
    } else {
      var n := Min(size / 8, c.bmWords - c.wordOffset);
      p := Plain(PlainWords(bm, c.wordOffset, n));
      c.wordOffset := c.wordOffset + n;
      c.bitOffset := Min(c.wordOffset * 64, c.bmBits);
      done := n == 0;
    }
  }

  /** Bitmap, bit and word offset after a packet, and the status: 0 for the last packet, 1 for more to come. */
  datatype Received = Received(bm: Bitmap, bit: nat, word: nat, status: int)

  /** num_words of receive_bitmap_plain.  Behind the last word the unsigned difference is larger
      than any packet. */
  function NumWords(size: nat, words: nat, word: nat): nat {
    if word <= words then Min(size / 8, words - word) else size / 8
  }

  /** What a receiver at the given offsets does with any plain packet. */
  function HandlePlain(words: seq<nat>, size: nat, bm: Bitmap, bit: nat, word: nat): Received {
    var n := NumWords(size, (|bm| + 63) / 64, word);
    if |words| != n then Received(bm, bit, word, -EIO)
    else if n == 0 then Received(bm, bit, word, 0)
    else Received(MergeWords(bm, word, words), Min(64 * (word + n), |bm|), word + n, 1)
  }

  function HandleRle(f: Reader, p: Packet, bm: Bitmap, bit: nat, word: nat): Received
    requires p.Rle? && p.code != []
  {
    var r := Receive(f, Payload(p.code, GetPad(p.encoding)), GetStart(p.encoding), bit, bm);
    if r.ok then Received(r.bm, r.at, r.at / 64, if r.at == |bm| then 0 else 1) else Received(r.bm, bit, word, -EIO)
  }

  /** ... and with any packet. */
  function Handle(f: Reader, p: Packet, size: nat, bm: Bitmap, bit: nat, word: nat): Received {
    if p.Plain? then HandlePlain(p.words, size, bm, bit, word)
    else if 1 + |p.code| > size || p.code == [] || GetCode(p.encoding) != RLE_VLI_BITS
      then Received(bm, bit, word, -EIO)
    else HandleRle(f, p, bm, bit, word)
  }

  /** receive_bitmap_plain */
  method ReceivePlain(words: seq<nat>, size: nat, c: Xfer, bm: Bitmap) returns (bm': Bitmap, status: int)
    requires c.bmWords == (|bm| + 63) / 64 && c.bmBits == |bm|
    modifies c
    ensures Received(bm', c.bitOffset, c.wordOffset, status) ==
      HandlePlain(words, size, bm, old(c.bitOffset), old(c.wordOffset))
  {
    var n := NumWords(size, c.bmWords, c.wordOffset);
    if n != |words| {
      return bm, -EIO;
    }
    if n == 0 {
      return bm, 0;
    }
    bm' := MergeWords(bm, c.wordOffset, words);
    c.wordOffset := c.wordOffset + n;
    c.bitOffset := Min(64 * c.wordOffset, c.bmBits);
    status := 1;
  }

  /** One round of the loop of receive_bitmap. */
  method ReceiveOne(t: Table, p: Packet, size: nat, c: Xfer, bm: Bitmap, ghost f: Reader)
    returns (bm': Bitmap, status: int)
    requires Decisive(t) && IsReader(f, t) && c.bmBits == |bm| && c.bmWords == (|bm| + 63) / 64
    modifies c
    ensures Received(bm', c.bitOffset, c.wordOffset, status) ==
      Handle(f, p, size, bm, old(c.bitOffset), old(c.wordOffset))
  {
    if p.Plain? {
      bm', status := ReceivePlain(p.words, size, c, bm);
    } else if 1 + |p.code| > size || p.code == [] || GetCode(p.encoding) != RLE_VLI_BITS {
      return bm, -EIO;
    } else {
      bm', status := ReceiveRle(t, p, c, bm, f);
    }
  }

  /** A receiver in range leaves its range exactly with a run-length packet that is decoded to its
      end and whose runs go on for more than a word behind the bitmap.  The last of these runs is
      then one of clear bits. */
  lemma {:induction false} OffsetsKept(f: Reader, p: Packet, size: nat, bm: Bitmap, bit: nat, word: nat)
    requires word <= (|bm| + 63) / 64
    ensures var r, words := Handle(f, p, size, bm, bit, word), (|bm| + 63) / 64;
      if p.Plain? || r.status < 0 then r.word <= words
      else
        var runs := Runs(f, Payload(p.code, GetPad(p.encoding)));
        && (r.word <= words <==> bit + Total(runs) < 64 * (words + 1))
        && (r.word > words && runs != [] ==> !Polarity(GetStart(p.encoding), |runs| - 1))
  {
    if p.Rle? && Handle(f, p, size, bm, bit, word).status >= 0 {
      ReceiveRuns(f, Payload(p.code, GetPad(p.encoding)), GetStart(p.encoding), bit, bm);
    }
  }

  // ----- lockstep -----

  lemma {:induction false} RleLockstep(f: Reader, t: Table, p: Packet, size: nat, src: Bitmap, bm: Bitmap, bit: nat,
      word: nat, bit': nat, word': nat, done: bool, runs: seq<nat>)
    requires Reads(f, t) && p.Rle? && |src| == |bm|
    requires Good(t, p, size, src, bit, word, bit', word', done, runs)
    ensures Handle(f, p, size, bm, bit, word) == Received(Merge(bm, src, bit, bit'), bit', word', if done then 0 else 1)
  {
    ReceiveCodes(f, t, runs, GetStart(p.encoding), src, bit, bit', bm);
  }

  lemma {:induction false} PlainLockstep(f: Reader, t: Table, p: Packet, size: nat, src: Bitmap, bm: Bitmap, bit: nat,
      word: nat, bit': nat, word': nat, done: bool, runs: seq<nat>)
    requires p.Plain? && PayloadSize(size) && |src| == |bm| && Aligned(|src|, (|src| + 63) / 64, bit, word)
    requires Good(t, p, size, src, bit, word, bit', word', done, runs)
    ensures word <= (|bm| + 63) / 64
    ensures Handle(f, p, size, bm, bit, word) ==
      Received(Merge(bm, src, 64 * word, bit'), bit', word', if done then 0 else 1)
  {
    var n := word' - word;
    PlainMerges(src, bm, word, n);
    assert Merge(bm, src, 64 * word, 64 * word') == Merge(bm, src, 64 * word, bit');
    if n == 0 { assert Merge(bm, src, 64 * word, bit') == bm; }
  }

  lemma {:induction false} MergeMore(bm: Bitmap, src: Bitmap, from: nat, mid: nat, upto: nat)
    requires |bm| == |src| && from <= mid <= upto
    ensures Merge(Merge(bm, src, 0, mid), src, from, upto) == Merge(bm, src, 0, upto)
  {}

  /** Whatever the sender sends, the receiver ends up at the same offsets and with the same idea
      of whether more is to come, and has all bits up to there. */
  lemma {:induction false} Lockstep(f: Reader, t: Table, p: Packet, size: nat, src: Bitmap, dst: Bitmap, bit: nat,
      word: nat, bit': nat, word': nat, done: bool, runs: seq<nat>)
    requires Reads(f, t) && PayloadSize(size) && |src| == |dst| && Aligned(|src|, (|src| + 63) / 64, bit, word)
    requires Good(t, p, size, src, bit, word, bit', word', done, runs)
    ensures word <= (|dst| + 63) / 64
    ensures Handle(f, p, size, Merge(dst, src, 0, bit), bit, word) ==
      Received(Merge(dst, src, 0, bit'), bit', word', if done then 0 else 1)
    ensures if done then bit' == |src| else bit < bit' <= |src|
  {
    var bm := Merge(dst, src, 0, bit);
    if p.Rle? {
      RleLockstep(f, t, p, size, src, bm, bit, word, bit', word', done, runs);
      MergeMore(dst, src, bit, bit, bit');
    } else {
      PlainLockstep(f, t, p, size, src, bm, bit, word, bit', word', done, runs);
      if done {
        assert Merge(bm, src, 64 * word, bit') == bm;
      } else {
        MergeMore(dst, src, 64 * word, bit, bit');
      }
    }
  }

  /** The exchange: the sender's packets, each sent as run lengths only if the connection allows
      it at that moment, and the receiver's loop.  It ends, the receiver takes the sender's last
      packet for the last one, and then has every bit that was set on either side. */
  method Exchange(t: Table, src: Bitmap, dst: Bitmap, size: nat, useRle: nat -> bool, stale: nat -> byte,
      ghost f: Reader) returns (bm: Bitmap, ok: bool)
    requires Decisive(t) && IsReader(f, t) && PayloadSize(size) && |src| == |dst|
    ensures ok && bm == Merge(dst, src, 0, |src|)
  {
    ReaderReads(f, t);
    var s := new Xfer(|src|);
    var r := new Xfer(|dst|);
    bm := dst;
    assert Merge(dst, src, 0, 0) == dst;
    var done, status, k := false, 1, 0;
    while !done
      invariant s != r && s.bmBits == r.bmBits == |src| && s.bmWords == r.bmWords == (|src| + 63) / 64
      invariant r.bitOffset == s.bitOffset <= |src| && r.wordOffset == s.wordOffset
      invariant !done ==> Aligned(|src|, s.bmWords, s.bitOffset, s.wordOffset)
      invariant done ==> s.bitOffset == |src|
      invariant status == if done then 0 else 1
      invariant bm == Merge(dst, src, 0, s.bitOffset)
      decreases !done, |src| - s.bitOffset
    {
      ghost var bit, word := s.bitOffset, s.wordOffset;
      ghost var runs;
      var p;
      p, done, runs := Send(t, src, s, useRle(k), size, stale(k));
      Lockstep(f, t, p, size, src, dst, bit, word, s.bitOffset, s.wordOffset, done, runs);
      bm, status := ReceiveOne(t, p, size, r, bm, f);
      k := k + 1;
    }
    ok := status == 0;
  }

  /** The exchange with the code table in use. */
  method ExchangeBitmaps(src: Bitmap, dst: Bitmap, size: nat, useRle: nat -> bool, stale: nat -> byte)
    returns (bm: Bitmap, ok: bool)
    requires PayloadSize(size) && |src| == |dst|
    ensures ok && |bm| == |dst| && forall i :: 0 <= i < |bm| ==> bm[i] == (dst[i] || src[i])
  {
    LevelsDecisive();
    ghost var f: Reader := s => Decode(LEVELS, Val(Head(s)));
    bm, ok := Exchange(LEVELS, src, dst, size, useRle, stale, f);
  }
}
