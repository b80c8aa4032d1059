/**
 * What the delta encoder does, read off pixels and payload bytes: which change of a pixel is noticed, which frame
 * it is sent in, and where in the payload (apps/agent/internal/stream/delta.go).
 */
module DeltaPixels {
  import opened Events
  import opened Bytes
  import opened DeltaWire
  import opened DeltaEncoder

  // ---------------------------------------------------------------- payload bytes

  /** Where the record of block i starts, behind the bitfield. */
  ghost function RecordStart(changed: seq<bool>, blocks: seq<Option<seq<byte>>>, i: nat): nat
    requires i <= |changed| == |blocks|
  {
    if i == 0 then 0
    else RecordStart(changed, blocks, i - 1)
         + (if changed[i - 1] && blocks[i - 1].Some? then 2 + |blocks[i - 1].value| else 0)
  }

  lemma {:induction false} StreamSplits(changed: seq<bool>, blocks: seq<Option<seq<byte>>>, i: nat)
    requires i <= |changed| == |blocks|
    ensures var all := Stream(Encoded(changed, blocks, 0));
            && RecordStart(changed, blocks, i) <= |all|
            && all[RecordStart(changed, blocks, i)..] == Stream(Encoded(changed, blocks, i))
  {
    if i > 0 {
      StreamSplits(changed, blocks, i - 1);
      EncodedStep(changed, blocks, i - 1);
      var sent := changed[i - 1] && blocks[i - 1].Some?;
      var record := if sent then U16(|blocks[i - 1].value|) + blocks[i - 1].value else [];
      DropTwice(Stream(Encoded(changed, blocks, 0)), RecordStart(changed, blocks, i - 1), record,
                Stream(Encoded(changed, blocks, i)));
    }
  }

  lemma DropTwice(all: seq<byte>, start: nat, record: seq<byte>, rest: seq<byte>)
    requires start <= |all| && all[start..] == record + rest
    ensures start + |record| <= |all| && all[start + |record|..] == rest
  {
    assert all[start + |record|..] == all[start..][|record|..];
  }

  /** At `at` stand the length of the data in two bytes, most significant first, and the data. */
  ghost predicate RecordAt(p: seq<byte>, at: nat, data: seq<byte>) {
    && at + 2 + |data| <= |p| && p[at] == |data| / 256 % 256 && p[at + 1] == |data| % 256
    && p[at + 2..at + 2 + |data|] == data
  }

  /** Bit i % 8 of byte 4 + i / 8. */
  ghost predicate Flags(p: seq<byte>, i: nat) {
    |p| > 4 + i / 8 && p[4 + i / 8] / [1, 2, 4, 8, 16, 32, 64, 128][i % 8] % 2 == 1
  }

  /** The payload begins with the grid size, most significant byte first, and flags exactly the changed blocks. */
  lemma PayloadHead(gridW: nat, gridH: nat, changed: seq<bool>, blocks: seq<Option<seq<byte>>>, i: nat)
    requires i < |changed| == |blocks|
    ensures var p := DeltaPayload(gridW, gridH, changed, blocks);
            && |p| >= 4 + (|changed| + 7) / 8
            && p[0] == gridW / 256 % 256 && p[1] == gridW % 256 && p[2] == gridH / 256 % 256 && p[3] == gridH % 256
            && (Flags(p, i) <==> changed[i])
  {
    var p := DeltaPayload(gridW, gridH, changed, blocks);
    PayloadParts(gridW, gridH, changed, blocks);
    HeadBytes(p, gridW, gridH);
    FlagsChanged(p, changed, i);
  }

  lemma HeadBytes(p: seq<byte>, gridW: nat, gridH: nat)
    requires |p| >= 4 && p[..2] == U16(gridW) && p[2..][..2] == U16(gridH)
    ensures p[0] == gridW / 256 % 256 && p[1] == gridW % 256 && p[2] == gridH / 256 % 256 && p[3] == gridH % 256
  {
    assert p[0] == p[..2][0] && p[1] == p[..2][1];
    assert p[2] == p[2..][..2][0] && p[3] == p[2..][..2][1];
  }

  lemma FlagsChanged(p: seq<byte>, changed: seq<bool>, i: nat)
    requires i < |changed| && |p| >= 4 + BitfieldSize(|changed|) && p[4..4 + BitfieldSize(|changed|)] == Bitfield(changed)
    ensures Flags(p, i) <==> changed[i]
  {
    assert p[4 + i / 8] == p[4..4 + BitfieldSize(|changed|)][i / 8];
    PackedBits(changed, |changed|, i / 8, i % 8);
    BitWeights(p[4 + i / 8], i % 8);
  }

  /** Behind the flags stand the changed blocks that encoded, in order, each behind its length. */
  lemma PayloadRecord(gridW: nat, gridH: nat, changed: seq<bool>, blocks: seq<Option<seq<byte>>>, i: nat)
    requires i < |changed| == |blocks| && changed[i] && blocks[i].Some?
    ensures RecordAt(DeltaPayload(gridW, gridH, changed, blocks),
                     4 + (|changed| + 7) / 8 + RecordStart(changed, blocks, i), blocks[i].value)
  {
    PayloadParts(gridW, gridH, changed, blocks);
    StreamSplits(changed, blocks, i);
    EncodedStep(changed, blocks, i);
    RecordIsAt(DeltaPayload(gridW, gridH, changed, blocks), 4 + BitfieldSize(|changed|), Stream(Encoded(changed, blocks, 0)),
               RecordStart(changed, blocks, i), blocks[i].value, Stream(Encoded(changed, blocks, i + 1)));
  }

  lemma RecordIsAt(p: seq<byte>, start: nat, rest: seq<byte>, from: nat, data: seq<byte>, more: seq<byte>)
    requires start <= |p| && p[start..] == rest && from <= |rest| && rest[from..] == U16(|data|) + data + more
    ensures RecordAt(p, start + from, data)
  {
    var at, tail := start + from, U16(|data|) + data + more;
    assert p[at..] == tail;
    assert tail[0] == |data| / 256 % 256 && tail[1] == |data| % 256 && tail[2..2 + |data|] == data;
    assert p[at] == p[at..][0] && p[at + 1] == p[at..][1];
    assert p[at + 2..at + 2 + |data|] == p[at..][2..2 + |data|];
  }

  // ---------------------------------------------------------------- pixels

  /** Pixel in column u and row v of the image. */
  function Pixel(img: Image, u: int, v: int): Rgb { img.at(img.minX + u, img.minY + v) }

  /** How far the weighted high bytes of two colours are apart. */
  function Contrast(p: Rgb, q: Rgb): int {
    31 * (p.r / 256 - q.r / 256) + 37 * (p.g / 256 - q.g / 256) + 41 * (p.b / 256 - q.b / 256)
  }

  /** A place in an image, and the pixel (dx, dy) away from it. */
  datatype Spot = Spot(img: Image, x: int, y: int) {
    function At(dx: int, dy: int): Rgb { img.at(x + dx, y + dy) }
  }

  ghost predicate Alike(p: Spot, q: Spot, dx: int, dy: int) { p.At(dx, dy) == q.At(dx, dy) }

  lemma WeightsDiffer(p: Rgb, q: Rgb)
    ensures Weight(q) - Weight(p) == Contrast(q, p)
  {}

  lemma RowStep(p: Spot, n: nat, dy: nat)
    requires n > 0
    ensures RowWeight(p.img, p.x, p.y + dy, n) == RowWeight(p.img, p.x, p.y + dy, n - 1) + Weight(p.At(n - 1, dy))
  {
    assert p.x + n - 1 == p.x + (n - 1);
  }

  lemma {:induction false} RowsDiffer(p: Spot, q: Spot, n: nat, k: nat, dy: nat)
    requires forall dx :: 0 <= dx < n && dx != k ==> Alike(p, q, dx, dy)
    ensures RowWeight(q.img, q.x, q.y + dy, n) - RowWeight(p.img, p.x, p.y + dy, n)
         == if k < n then Contrast(q.At(k, dy), p.At(k, dy)) else 0
  {
    if n > 0 {
      RowsDiffer(p, q, n - 1, k, dy);
      RowStep(p, n, dy);
      RowStep(q, n, dy);
      if k == n - 1 {
        WeightsDiffer(p.At(k, dy), q.At(k, dy));
      } else {
        assert Alike(p, q, n - 1, dy);
      }
    }
  }

  /** The first n rows of two blocks agree, but for column k in row m. */
  ghost predicate AgreeBut(p: Spot, q: Spot, n: nat, k: nat, m: nat) {
    forall dx, dy :: 0 <= dx < 16 && 0 <= dy < n && !(dx == k && dy == m) ==> Alike(p, q, dx, dy)
  }

  lemma LastRowDiffers(p: Spot, q: Spot, n: nat, k: nat, m: nat)
    requires n > 0 && k < 16 && AgreeBut(p, q, n, k, m)
    ensures AgreeBut(p, q, n - 1, k, m)
    ensures RowWeight(q.img, q.x, q.y + (n - 1), 16) - RowWeight(p.img, p.x, p.y + (n - 1), 16)
         == if m == n - 1 then Contrast(q.At(k, m), p.At(k, m)) else 0
  {
    assert AgreeBut(p, q, n - 1, k, m);
    RowsDiffer(p, q, 16, if m == n - 1 then k else 16, n - 1);
  }

  lemma BlockStep(p: Spot, n: nat)
    requires n > 0
    ensures BlockWeight(p.img, p.x, p.y, n) == BlockWeight(p.img, p.x, p.y, n - 1) + RowWeight(p.img, p.x, p.y + (n - 1), 16)
  {
    assert p.y + n - 1 == p.y + (n - 1);
  }

  lemma {:induction false} BlocksDiffer(p: Spot, q: Spot, n: nat, k: nat, m: nat)
    requires k < 16 && AgreeBut(p, q, n, k, m)
    ensures BlockWeight(q.img, q.x, q.y, n) - BlockWeight(p.img, p.x, p.y, n)
         == if m < n then Contrast(q.At(k, m), p.At(k, m)) else 0
  {
    if n > 0 {
      LastRowDiffers(p, q, n, k, m);
      BlocksDiffer(p, q, n - 1, k, m);
      BlockStep(p, n);
      BlockStep(q, n);
    }
  }

  /** Number of the block that pixel (u, v) is in, as the payload counts them. */
  function BlockOf(img: Image, u: nat, v: nat): nat {
    v / 16 * ((img.w + 15) / 16) + u / 16
  }

  /** Every pixel is in exactly the 16 by 16 square of its block. */
  lemma PixelIsInBlock(img: Image, u: nat, v: nat)
    requires u < img.w && v < img.h
    ensures BlockOf(img, u, v) < Total(img.w, img.h)
    ensures BlockX(img, BlockOf(img, u, v)) == img.minX + u / 16 * 16
    ensures BlockY(img, BlockOf(img, u, v)) == img.minY + v / 16 * 16
  {
    BlockAt(img, v / 16, u / 16);
  }

  /** The images show the same in the square around pixel (u, v), but for that pixel. */
  ghost predicate SameAround(a: Image, b: Image, u: nat, v: nat) {
    forall x, y :: u / 16 * 16 <= x < u / 16 * 16 + 16 && v / 16 * 16 <= y < v / 16 * 16 + 16 && !(x == u && y == v) ==>
      Pixel(a, x, y) == Pixel(b, x, y)
  }

  /** A hash notices the change of one pixel exactly if the weighted sum of its high bytes changes; so it notices
      every change in the high byte of a single channel. */
  lemma PixelIsHashed(a: Image, b: Image, u: nat, v: nat)
    requires a.w == b.w && a.h == b.h && u < a.w && v < a.h && SameAround(a, b, u, v)
    ensures BlockOf(a, u, v) == BlockOf(b, u, v) < Total(a.w, a.h)
    ensures HashAt(b, BlockOf(b, u, v)) - HashAt(a, BlockOf(a, u, v)) == Contrast(Pixel(b, u, v), Pixel(a, u, v))
  {
    PixelIsInBlock(a, u, v);
    PixelIsInBlock(b, u, v);
    var p, q := Corner(a, u, v), Corner(b, u, v);
    SquaresAgree(a, b, u, v);
    BlocksDiffer(p, q, 16, u % 16, v % 16);
    assert p.At(u % 16, v % 16) == Pixel(a, u, v) && q.At(u % 16, v % 16) == Pixel(b, u, v);
  }

  /** The corner of the pixel's square. */
  function Corner(img: Image, u: nat, v: nat): Spot {
    Spot(img, img.minX + u / 16 * 16, img.minY + v / 16 * 16)
  }

  lemma SquaresAgree(a: Image, b: Image, u: nat, v: nat)
    requires SameAround(a, b, u, v)
    ensures AgreeBut(Corner(a, u, v), Corner(b, u, v), 16, u % 16, v % 16)
  {
    var x, y := u / 16 * 16, v / 16 * 16;
    forall dx, dy | 0 <= dx < 16 && 0 <= dy < 16 && !(dx == u % 16 && dy == v % 16)
      ensures Alike(Corner(a, u, v), Corner(b, u, v), dx, dy)
    {
      assert Pixel(a, x + dx, y + dy) == Pixel(b, x + dx, y + dy);
    }
  }

  // ---------------------------------------------------------------- frames

  predicate IsFull(out: Output) { out.FullFrame? || out.FullFailed? }

  /** The encoder holds the hash of block i. */
  ghost predicate HoldsHash(s: State, a: Image, i: nat) {
    && ValidState(s) && s.imgW == a.w && s.imgH == a.h && s.hashes.Some?
    && i < Total(a.w, a.h) && s.hashes.value[i] == HashAt(a, i)
  }

  lemma EncoderHoldsBlock(s: State, a: Image, jpeg: Jpeg, i: nat, x: int, y: int)
    requires ValidState(s) && i < Total(a.w, a.h) && x == BlockX(a, i) && y == BlockY(a, i)
    requires IsFull(EncodeStep(s, a, jpeg).1) || jpeg.block(a, x, y).Some?
    ensures HoldsHash(EncodeStep(s, a, jpeg).0, a, i)
  {}

  /** After a full frame of an image, and after any frame in which the pixel's block could be encoded. */
  lemma EncoderHolds(s: State, a: Image, jpeg: Jpeg, u: nat, v: nat)
    requires ValidState(s) && u < a.w && v < a.h
    requires IsFull(EncodeStep(s, a, jpeg).1) || jpeg.block(a, a.minX + u / 16 * 16, a.minY + v / 16 * 16).Some?
    ensures HoldsHash(EncodeStep(s, a, jpeg).0, a, BlockOf(a, u, v))
  {
    PixelIsInBlock(a, u, v);
    EncoderHoldsBlock(s, a, jpeg, BlockOf(a, u, v), a.minX + u / 16 * 16, a.minY + v / 16 * 16);
  }

  /** The next frame of that size is full, or flags block i exactly if its hash differs. */
  lemma BlockIsFlagged(s: State, b: Image, jpeg: Jpeg, i: nat)
    requires ValidState(s) && s.imgW == b.w && s.imgH == b.h && s.hashes.Some? && i < Total(b.w, b.h)
    ensures var out := EncodeStep(s, b, jpeg).1;
            && (IsFull(out) || out.DeltaFrame?)
            && (out.DeltaFrame? ==> (Flags(out.payload, i) <==> s.hashes.value[i] != HashAt(b, i)))
  {
    PayloadHead(GridSide(b.w), GridSide(b.h), Changed(s.hashes.value, Hashes(b)), BlockBytes(b, jpeg), i);
  }

  /** What the encoder makes of image b after image a. */
  function SecondOutput(s: State, a: Image, jpegA: Jpeg, b: Image, jpegB: Jpeg): Output
    requires ValidState(s)
  {
    EncodeStep(EncodeStep(s, a, jpegA).0, b, jpegB).1
  }

  /** From pixels to the wire: when one pixel of a square changes between two frames, the second is a full frame, or a
      delta that flags the pixel's square exactly if the weighted sum of the pixel's high bytes changed. */
  lemma ChangedPixelIsSent(s: State, a: Image, jpegA: Jpeg, b: Image, jpegB: Jpeg, u: nat, v: nat)
    requires ValidState(s) && a.w == b.w && a.h == b.h && u < a.w && v < a.h && SameAround(a, b, u, v)
    requires IsFull(EncodeStep(s, a, jpegA).1)
             || jpegA.block(a, a.minX + u / 16 * 16, a.minY + v / 16 * 16).Some?
    ensures var i, out := BlockOf(b, u, v), SecondOutput(s, a, jpegA, b, jpegB);
            && (out.FullFrame? || out.FullFailed? || out.DeltaFrame?)
            && (out.DeltaFrame? ==> (Flags(out.payload, i) <==> Contrast(Pixel(b, u, v), Pixel(a, u, v)) != 0))
  {
    EncoderHolds(s, a, jpegA, u, v);
    NextFrameFlags(EncodeStep(s, a, jpegA).0, a, b, jpegB, u, v);
  }

  lemma NextFrameFlags(s: State, a: Image, b: Image, jpeg: Jpeg, u: nat, v: nat)
    requires a.w == b.w && a.h == b.h && u < a.w && v < a.h && SameAround(a, b, u, v)
    requires HoldsHash(s, a, BlockOf(a, u, v))
    ensures var out := EncodeStep(s, b, jpeg).1;
            && (IsFull(out) || out.DeltaFrame?)
            && (out.DeltaFrame? ==> (Flags(out.payload, BlockOf(b, u, v)) <==> Contrast(Pixel(b, u, v), Pixel(a, u, v)) != 0))
  {
    PixelIsHashed(a, b, u, v);
    BlockIsFlagged(s, b, jpeg, BlockOf(b, u, v));
  }

  /** In particular every change in the high byte of exactly one channel is sent. */
  lemma ChangedChannelIsSent(s: State, a: Image, jpegA: Jpeg, b: Image, jpegB: Jpeg, u: nat, v: nat)
    requires ValidState(s) && a.w == b.w && a.h == b.h && u < a.w && v < a.h && SameAround(a, b, u, v)
    requires IsFull(EncodeStep(s, a, jpegA).1)
             || jpegA.block(a, a.minX + u / 16 * 16, a.minY + v / 16 * 16).Some?
    requires var p, q := Pixel(a, u, v), Pixel(b, u, v);
             || (p.r / 256 != q.r / 256 && p.g / 256 == q.g / 256 && p.b / 256 == q.b / 256)
             || (p.r / 256 == q.r / 256 && p.g / 256 != q.g / 256 && p.b / 256 == q.b / 256)
             || (p.r / 256 == q.r / 256 && p.g / 256 == q.g / 256 && p.b / 256 != q.b / 256)
    ensures var i, out := BlockOf(b, u, v), SecondOutput(s, a, jpegA, b, jpegB);
            IsFull(out) || (out.DeltaFrame? && Flags(out.payload, i))
  {
    ChangedPixelIsSent(s, a, jpegA, b, jpegB, u, v);
  }

  lemma {:induction false} CountIsCardinality(flags: seq<bool>)
    ensures CountTrue(flags) == |set i | 0 <= i < |flags| && flags[i]|
  {
    if flags != [] {
      var n := |flags| - 1;
      CountIsCardinality(flags[..n]);
      var before, all := set i | 0 <= i < n && flags[..n][i], set i | 0 <= i < |flags| && flags[i];
      assert all == before + (if flags[n] then {n} else {});
    }
  }

  /** What kind of frame an image becomes: full if it is the first of its size, or if more than 60 % of the blocks,
      rounded down, changed; an image without blocks fails on the division from the second frame on; else a delta. */
  lemma FrameKindExactly(s: State, img: Image, jpeg: Jpeg)
    requires ValidState(s)
    ensures var out, total := EncodeStep(s, img, jpeg).1, (img.w + 15) / 16 * ((img.h + 15) / 16);
            var first := s.hashes.None? || s.imgW != img.w || s.imgH != img.h;
            && Total(img.w, img.h) == total
            && (out.DivideByZero? <==> !first && total == 0)
            && (IsFull(out) <==>
                  first || (total > 0 && |set i | 0 <= i < total && s.hashes.value[i] != HashAt(img, i)| * 100 / total > 60))
            && (IsFull(out) ==> out == match jpeg.full(img) case Some(data) => FullFrame(data) case None => FullFailed)
  {
    if s.hashes.Some? && s.imgW == img.w && s.imgH == img.h {
      var changed := Changed(s.hashes.value, Hashes(img));
      CountIsCardinality(changed);
      assert (set i | 0 <= i < |changed| && changed[i])
          == (set i | 0 <= i < Total(img.w, img.h) && s.hashes.value[i] != HashAt(img, i));
    }
  }

  /** A delta carries the encoding of every block it flags, unless that failed. */
  lemma FlaggedBlockIsCarried(s: State, b: Image, jpeg: Jpeg, i: nat)
    requires ValidState(s) && s.imgW == b.w && s.imgH == b.h && s.hashes.Some? && i < Total(b.w, b.h)
    requires EncodeStep(s, b, jpeg).1.DeltaFrame? && Flags(EncodeStep(s, b, jpeg).1.payload, i)
    ensures var data := jpeg.block(b, BlockX(b, i), BlockY(b, i));
            data.Some? ==> IsCarried(EncodeStep(s, b, jpeg).1.payload, data.value)
  {
    DeltaIsPayload(s, b, jpeg);
    PayloadCarries(EncodeStep(s, b, jpeg).1.payload, s.hashes.value, b, jpeg, i);
  }

  lemma PayloadCarries(p: seq<byte>, before: seq<nat>, b: Image, jpeg: Jpeg, i: nat)
    requires |before| == Total(b.w, b.h) && i < Total(b.w, b.h) && Flags(p, i)
    requires p == DeltaPayload(GridSide(b.w), GridSide(b.h), Changed(before, Hashes(b)), BlockBytes(b, jpeg))
    ensures var data := jpeg.block(b, BlockX(b, i), BlockY(b, i));
            data.Some? ==> IsCarried(p, data.value)
  {
    FlaggedIsCarried(p, GridSide(b.w), GridSide(b.h), Changed(before, Hashes(b)), BlockBytes(b, jpeg), i);
    BlockBytesAt(b, jpeg, i);
  }

  ghost predicate IsCarried(p: seq<byte>, data: seq<byte>) {
    exists at: nat :: RecordAt(p, at, data)
  }

  lemma DeltaIsPayload(s: State, b: Image, jpeg: Jpeg)
    requires ValidState(s) && s.imgW == b.w && s.imgH == b.h && s.hashes.Some?
    requires EncodeStep(s, b, jpeg).1.DeltaFrame?
    ensures EncodeStep(s, b, jpeg).1.payload
         == DeltaPayload(GridSide(b.w), GridSide(b.h), Changed(s.hashes.value, Hashes(b)), BlockBytes(b, jpeg))
  {}

  lemma BlockBytesAt(b: Image, jpeg: Jpeg, i: nat)
    requires i < Total(b.w, b.h)
    ensures BlockBytes(b, jpeg)[i] == jpeg.block(b, BlockX(b, i), BlockY(b, i))
  {}

  lemma FlaggedIsCarried(p: seq<byte>, gridW: nat, gridH: nat, changed: seq<bool>, blocks: seq<Option<seq<byte>>>, i: nat)
    requires i < |changed| == |blocks| && p == DeltaPayload(gridW, gridH, changed, blocks) && Flags(p, i)
    ensures blocks[i].Some? ==> IsCarried(p, blocks[i].value)
  {
    PayloadHead(gridW, gridH, changed, blocks, i);
    if blocks[i].Some? {
      PayloadRecord(gridW, gridH, changed, blocks, i);
    }
  }
}
