/**
 * The delta payload (apps/agent/internal/stream/delta.go):
 * [gridW u16][gridH u16][bitfield][for each changed block: len u16 + bytes].
 * The repository has no decoder; DecodeDelta is written from that format.
 */
module DeltaWire {
  import opened Bytes
  import opened Events

  // ---------------------------------------------------------------- bitfield

  /** Byte k of the bitfield after the first n flags. */
  function PackedByte(flags: seq<bool>, n: nat, k: nat): byte
    requires n <= |flags|
  {
    if n == 0 then 0
    else
      var b := PackedByte(flags, n - 1, k);
      if flags[n - 1] && (n - 1) / 8 == k then SetBit(b, (n - 1) % 8) else b
  }

  function BitfieldSize(n: nat): nat { (n + 7) / 8 }

  function Bitfield(flags: seq<bool>): seq<byte> {
    seq(BitfieldSize(|flags|), k requires 0 <= k => PackedByte(flags, |flags|, k))
  }

  lemma {:induction false} PackedBits(flags: seq<bool>, n: nat, k: nat, j: nat)
    requires n <= |flags| && j < 8
    ensures HasBit(PackedByte(flags, n, k), j) <==> 8 * k + j < n && flags[8 * k + j]
  {
    if n == 0 {
      ZeroHasNoBits(j);
    } else {
      PackedBits(flags, n - 1, k, j);
    }
  }

  method PackBits(flags: seq<bool>) returns (bitfield: array<byte>)
    ensures bitfield[..] == Bitfield(flags)
  {
    bitfield := new byte[BitfieldSize(|flags|)](_ => 0);
    for i := 0 to |flags|
      invariant forall k :: 0 <= k < bitfield.Length ==> bitfield[k] == PackedByte(flags, i, k)
    {
      if flags[i] {
        bitfield[i / 8] := SetBit(bitfield[i / 8], i % 8);
      }
    }
  }

  // ---------------------------------------------------------------- block records

  function Stream(records: seq<seq<byte>>): seq<byte> {
    if records == [] then [] else U16(|records[0]|) + records[0] + Stream(records[1..])
  }

  /** The bytes of the changed blocks from i on, leaving out the ones that failed to encode. */
  function Encoded(changed: seq<bool>, blocks: seq<Option<seq<byte>>>, i: nat): seq<seq<byte>>
    requires |changed| == |blocks| && i <= |changed|
    decreases |changed| - i
  {
    if i == |changed| then []
    else (if changed[i] && blocks[i].Some? then [blocks[i].value] else []) + Encoded(changed, blocks, i + 1)
  }

  function Indices(changed: seq<bool>, i: nat): seq<nat>
    requires i <= |changed|
    decreases |changed| - i
  {
    if i == |changed| then [] else (if changed[i] then [i] else []) + Indices(changed, i + 1)
  }

  function DeltaPayload(gridW: nat, gridH: nat, changed: seq<bool>, blocks: seq<Option<seq<byte>>>): seq<byte>
    requires |changed| == |blocks|
  {
    U16(gridW) + U16(gridH) + Bitfield(changed) + Stream(Encoded(changed, blocks, 0))
  }

  // ---------------------------------------------------------------- the decoder

  datatype Delta = Delta(gridW: nat, gridH: nat, blocks: seq<(nat, seq<byte>)>)

  function ReadBlocks(flags: seq<bool>, i: nat, rest: seq<byte>): Option<seq<(nat, seq<byte>)>>
    requires i <= |flags|
    decreases |flags| - i
  {
    if i == |flags| then (if rest == [] then Some([]) else None)
    else if !flags[i] then ReadBlocks(flags, i + 1, rest)
    else if |rest| < 2 || |rest| < 2 + ReadU16(rest) then None
    else
      var end := 2 + ReadU16(rest);
      match ReadBlocks(flags, i + 1, rest[end..])
      case None => None
      case Some(more) => Some([(i, rest[2..end])] + more)
  }

  /** The bitfield behind the four bytes of grid size. */
  function ReadFlags(payload: seq<byte>, total: nat): seq<bool>
    requires |payload| >= 4 + BitfieldSize(total)
  {
    seq(total, i requires 0 <= i < total => HasBit(payload[4 + i / 8], i % 8))
  }

  function DecodeBlocks(gridW: nat, gridH: nat, flags: seq<bool>, rest: seq<byte>): Option<Delta> {
    match ReadBlocks(flags, 0, rest)
    case None => None
    case Some(blocks) => Some(Delta(gridW, gridH, blocks))
  }

  function DecodeDelta(payload: seq<byte>): Option<Delta> {
    if |payload| < 4 then None
    else
      var gridW, gridH := ReadU16(payload), ReadU16(payload[2..]);
      var start := 4 + BitfieldSize(gridW * gridH);
      if |payload| < start then None
      else DecodeBlocks(gridW, gridH, ReadFlags(payload, gridW * gridH), payload[start..])
  }

  // ---------------------------------------------------------------- round trip

  function Zip(indices: seq<nat>, records: seq<seq<byte>>): seq<(nat, seq<byte>)>
    requires |indices| == |records|
  {
    seq(|indices|, k requires 0 <= k < |indices| => (indices[k], records[k]))
  }

  ghost predicate Short(records: seq<seq<byte>>) {
    forall k :: 0 <= k < |records| ==> |records[k]| < 0x1_0000
  }

  lemma StreamHead(first: seq<byte>, more: seq<byte>)
    requires |first| < 0x1_0000
    ensures var s := U16(|first|) + first + more;
            ReadU16(s) == |first| && s[2..2 + |first|] == first && s[2 + |first|..] == more
  {
    U16RoundTrip(|first|);
  }

  lemma ZipHead(i: nat, ids: seq<nat>, records: seq<seq<byte>>)
    requires |records| == |ids| + 1
    ensures Zip([i] + ids, records) == [(i, records[0])] + Zip(ids, records[1..])
  {}

  /** Reading n flags against m well-formed records succeeds exactly when n == m. */
  lemma {:induction false} ReadStream(flags: seq<bool>, i: nat, records: seq<seq<byte>>)
    requires i <= |flags| && Short(records)
    ensures ReadBlocks(flags, i, Stream(records))
         == if |Indices(flags, i)| == |records| then Some(Zip(Indices(flags, i), records)) else None
    decreases |flags| - i
  {
    if i == |flags| {
      if records == [] {
        assert Zip([], records) == [];
      }
    } else if !flags[i] {
      ReadStream(flags, i + 1, records);
      assert Indices(flags, i) == Indices(flags, i + 1);
    } else if records == [] {
      assert Stream(records) == [];
    } else {
      var ids := Indices(flags, i + 1);
      StreamHead(records[0], Stream(records[1..]));
      ReadStream(flags, i + 1, records[1..]);
      assert Indices(flags, i) == [i] + ids;
      if |ids| == |records| - 1 {
        ZipHead(i, ids, records);
      }
    }
  }

  ghost predicate AllEncoded(changed: seq<bool>, blocks: seq<Option<seq<byte>>>)
    requires |changed| == |blocks|
  {
    forall i :: 0 <= i < |changed| && changed[i] ==> blocks[i].Some?
  }

  ghost predicate AllShort(changed: seq<bool>, blocks: seq<Option<seq<byte>>>)
    requires |changed| == |blocks|
  {
    forall i :: 0 <= i < |changed| && changed[i] && blocks[i].Some? ==> |blocks[i].value| < 0x1_0000
  }

  lemma {:induction false} EncodedCount(changed: seq<bool>, blocks: seq<Option<seq<byte>>>, i: nat)
    requires |changed| == |blocks| && i <= |changed|
    ensures var n, m := |Indices(changed, i)|, |Encoded(changed, blocks, i)|;
            m <= n && (m == n <==> forall k :: i <= k < |changed| && changed[k] ==> blocks[k].Some?)
    decreases |changed| - i
  {
    if i < |changed| {
      EncodedCount(changed, blocks, i + 1);
    }
  }

  /** A changed block from number i on has been encoded as r. */
  ghost predicate IsRecord(changed: seq<bool>, blocks: seq<Option<seq<byte>>>, i: nat, r: seq<byte>)
    requires |changed| == |blocks|
  {
    exists k :: i <= k < |changed| && changed[k] && blocks[k] == Some(r)
  }

  lemma {:induction false} EncodedMembers(changed: seq<bool>, blocks: seq<Option<seq<byte>>>, i: nat, r: seq<byte>)
    requires |changed| == |blocks| && i <= |changed|
    ensures r in Encoded(changed, blocks, i) <==> IsRecord(changed, blocks, i, r)
    decreases |changed| - i
  {
    if i < |changed| {
      EncodedMembers(changed, blocks, i + 1, r);
      var more := Encoded(changed, blocks, i + 1);
      var here := changed[i] && blocks[i] == Some(r);
      assert r in Encoded(changed, blocks, i) <==> here || r in more;
      assert IsRecord(changed, blocks, i, r) <==> here || IsRecord(changed, blocks, i + 1, r);
    }
  }

  lemma ShortRecords(changed: seq<bool>, blocks: seq<Option<seq<byte>>>)
    requires |changed| == |blocks|
    ensures Short(Encoded(changed, blocks, 0)) <==> AllShort(changed, blocks)
  {
    var records := Encoded(changed, blocks, 0);
    forall r ensures r in records <==> IsRecord(changed, blocks, 0, r) {
      EncodedMembers(changed, blocks, 0, r);
    }
    if Short(records) {
      forall k | 0 <= k < |changed| && changed[k] && blocks[k].Some? ensures |blocks[k].value| < 0x1_0000 {
        assert blocks[k] == Some(blocks[k].value);
        assert blocks[k].value in records;
      }
    }
    if AllShort(changed, blocks) {
      forall k | 0 <= k < |records| ensures |records[k]| < 0x1_0000 {
        assert records[k] in records;
      }
    }
  }

  /** The changed indices in row-major order, each with the bytes the encoder gave for it. */
  function Exact(gridW: nat, gridH: nat, changed: seq<bool>, blocks: seq<Option<seq<byte>>>): Delta
    requires |changed| == |blocks| && |Indices(changed, 0)| == |Encoded(changed, blocks, 0)|
  {
    Delta(gridW, gridH, Zip(Indices(changed, 0), Encoded(changed, blocks, 0)))
  }

  lemma BitfieldDecodes(payload: seq<byte>, changed: seq<bool>)
    requires |payload| >= 4 + BitfieldSize(|changed|) && payload[4..4 + BitfieldSize(|changed|)] == Bitfield(changed)
    ensures ReadFlags(payload, |changed|) == changed
  {
    forall i | 0 <= i < |changed| ensures HasBit(payload[4 + i / 8], i % 8) == changed[i] {
      assert payload[4 + i / 8] == payload[4..4 + BitfieldSize(|changed|)][i / 8];
      PackedBits(changed, |changed|, i / 8, i % 8);
    }
  }

  lemma ReadSmallU16(n: nat, b: seq<byte>)
    requires n < 0x1_0000 && |b| >= 2 && b[..2] == U16(n)
    ensures ReadU16(b) == n
  {
    U16RoundTrip(n);
    assert b[0] == b[..2][0] && b[1] == b[..2][1];
  }

  lemma PayloadParts(gridW: nat, gridH: nat, changed: seq<bool>, blocks: seq<Option<seq<byte>>>)
    requires |changed| == |blocks|
    ensures var p, size := DeltaPayload(gridW, gridH, changed, blocks), BitfieldSize(|changed|);
            && |p| >= 4 + size && p[..2] == U16(gridW) && p[2..][..2] == U16(gridH)
            && p[4..4 + size] == Bitfield(changed)
            && p[4 + size..] == Stream(Encoded(changed, blocks, 0))
  {}

  lemma PartsDecode(p: seq<byte>, gridW: nat, gridH: nat, total: nat, flags: seq<bool>, rest: seq<byte>)
    requires |p| >= 4 && ReadU16(p) == gridW && ReadU16(p[2..]) == gridH && total == gridW * gridH
    requires |p| >= 4 + BitfieldSize(total) && ReadFlags(p, total) == flags && p[4 + BitfieldSize(total)..] == rest
    ensures DecodeDelta(p) == DecodeBlocks(gridW, gridH, flags, rest)
  {}

  /** What the decoder makes of a payload whose grid sides fit. */
  lemma PayloadDecodes(gridW: nat, gridH: nat, changed: seq<bool>, blocks: seq<Option<seq<byte>>>)
    requires |changed| == |blocks| == gridW * gridH && gridW < 0x1_0000 && gridH < 0x1_0000
    ensures DecodeDelta(DeltaPayload(gridW, gridH, changed, blocks))
         == DecodeBlocks(gridW, gridH, changed, Stream(Encoded(changed, blocks, 0)))
  {
    var p := DeltaPayload(gridW, gridH, changed, blocks);
    PayloadParts(gridW, gridH, changed, blocks);
    ReadSmallU16(gridW, p);
    ReadSmallU16(gridH, p[2..]);
    BitfieldDecodes(p, changed);
    PartsDecode(p, gridW, gridH, |changed|, changed, Stream(Encoded(changed, blocks, 0)));
  }

  /** With grid sides and blocks below 65536, decoding gives back exactly the changed blocks,
      and it rejects the payload as soon as one changed block failed to encode. */
  lemma {:induction false} DecodeInvertsEncode(gridW: nat, gridH: nat, changed: seq<bool>, blocks: seq<Option<seq<byte>>>)
    requires |changed| == |blocks| == gridW * gridH
    requires gridW < 0x1_0000 && gridH < 0x1_0000 && AllShort(changed, blocks)
    ensures AllEncoded(changed, blocks) <==> |Indices(changed, 0)| == |Encoded(changed, blocks, 0)|
    ensures DecodeDelta(DeltaPayload(gridW, gridH, changed, blocks))
         == if AllEncoded(changed, blocks) then Some(Exact(gridW, gridH, changed, blocks)) else None
  {
    PayloadDecodes(gridW, gridH, changed, blocks);
    EncodedCount(changed, blocks, 0);
    ShortRecords(changed, blocks);
    ReadStream(changed, 0, Encoded(changed, blocks, 0));
  }

  lemma {:induction false} ReadBlocksAreShort(flags: seq<bool>, i: nat, rest: seq<byte>)
    requires i <= |flags| && ReadBlocks(flags, i, rest).Some?
    ensures var blocks := ReadBlocks(flags, i, rest).value;
            forall k :: 0 <= k < |blocks| ==> |blocks[k].1| < 0x1_0000
    decreases |flags| - i
  {
    if i < |flags| {
      if flags[i] {
        ReadBlocksAreShort(flags, i + 1, rest[2 + ReadU16(rest)..]);
      } else {
        ReadBlocksAreShort(flags, i + 1, rest);
      }
    }
  }

  /** The bounds are necessary: outside them the exact answer never comes back. */
  lemma DecodeExactlyWithinBounds(gridW: nat, gridH: nat, changed: seq<bool>, blocks: seq<Option<seq<byte>>>)
    requires |changed| == |blocks| == gridW * gridH && AllEncoded(changed, blocks)
    ensures |Indices(changed, 0)| == |Encoded(changed, blocks, 0)|
    ensures DecodeDelta(DeltaPayload(gridW, gridH, changed, blocks)) == Some(Exact(gridW, gridH, changed, blocks))
       <==> gridW < 0x1_0000 && gridH < 0x1_0000 && AllShort(changed, blocks)
  {
    EncodedCount(changed, blocks, 0);
    ShortRecords(changed, blocks);
    var p, exact := DeltaPayload(gridW, gridH, changed, blocks), Exact(gridW, gridH, changed, blocks);
    if gridW < 0x1_0000 && gridH < 0x1_0000 && AllShort(changed, blocks) {
      DecodeInvertsEncode(gridW, gridH, changed, blocks);
    }
    if DecodeDelta(p) == Some(exact) {
      var total := ReadU16(p) * ReadU16(p[2..]);
      ReadBlocksAreShort(ReadFlags(p, total), 0, p[4 + BitfieldSize(total)..]);
      var records := Encoded(changed, blocks, 0);
      forall k | 0 <= k < |records| ensures |records[k]| < 0x1_0000 {
        assert exact.blocks[k].1 == records[k];
      }
    }
  }
}
