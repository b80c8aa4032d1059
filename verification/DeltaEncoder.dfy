/**
 * The stateful screen encoder (apps/agent/internal/stream/delta.go).
 * JPEG encoding is a parameter that may fail; images are arbitrary pixel functions.
 */
module DeltaEncoder {
  import opened Events
  import opened Bytes
  import opened DeltaWire

  const BLOCK_SIZE := 16

  /** One 16-bit channel of color.Color.RGBA(). */
  type Channel = x: int | 0 <= x < 0x1_0000

  datatype Rgb = Rgb(r: Channel, g: Channel, b: Channel)

  datatype Image = Image(minX: int, minY: int, w: nat, h: nat, at: (int, int) -> Rgb)

  datatype Jpeg = Jpeg(full: Image -> Option<seq<byte>>, block: (Image, int, int) -> Option<seq<byte>>)

  datatype Output =
    | FullFrame(data: seq<byte>)
    | FullFailed
    | DeltaFrame(payload: seq<byte>)
    | DivideByZero   // Go's run-time error for an image without blocks

  function GridSide(n: nat): nat { (n + BLOCK_SIZE - 1) / BLOCK_SIZE }

  function Total(w: nat, h: nat): nat { GridSide(w) * GridSide(h) }

  // ---------------------------------------------------------------- block hashes

  function Weight(c: Rgb): nat {
    c.r / 256 * 31 + c.g / 256 * 37 + c.b / 256 * 41
  }

  function RowWeight(img: Image, x: int, y: int, n: nat): (s: nat)
    ensures s <= n * 27795
  {
    if n == 0 then 0 else RowWeight(img, x, y, n - 1) + Weight(img.at(x + n - 1, y))
  }

  function BlockWeight(img: Image, x: int, y: int, n: nat): (s: nat)
    ensures s <= n * 444720
  {
    if n == 0 then 0 else BlockWeight(img, x, y, n - 1) + RowWeight(img, x, y + n - 1, BLOCK_SIZE)
  }

  /** The uint32 sum never wraps around: the hash is the exact weighted sum of the block. */
  method HashBlock(img: Image, x: int, y: int) returns (sum: nat)
    ensures sum == BlockWeight(img, x, y, BLOCK_SIZE) < 0x1_0000_0000
  {
    sum := 0;
    for dy := 0 to BLOCK_SIZE
      invariant sum == BlockWeight(img, x, y, dy)
    {
      for dx := 0 to BLOCK_SIZE
        invariant sum == BlockWeight(img, x, y, dy) + RowWeight(img, x, y + dy, dx)
      {
        sum := (sum + Weight(img.at(x + dx, y + dy))) % 0x1_0000_0000;
      }
    }
  }

  function BlockX(img: Image, i: nat): int
    requires i < Total(img.w, img.h)
  {
    img.minX + i % GridSide(img.w) * BLOCK_SIZE
  }

  function BlockY(img: Image, i: nat): int
    requires i < Total(img.w, img.h)
  {
    img.minY + i / GridSide(img.w) * BLOCK_SIZE
  }

  function HashAt(img: Image, i: nat): nat
    requires i < Total(img.w, img.h)
  {
    BlockWeight(img, BlockX(img, i), BlockY(img, i), BLOCK_SIZE)
  }

  function Hashes(img: Image): seq<nat> {
    seq(Total(img.w, img.h), i requires 0 <= i < Total(img.w, img.h) => HashAt(img, i))
  }

  /** Row-major numbering of the blocks. */
  lemma GridIndex(gridW: nat, gridH: nat, col: nat, row: nat)
    requires col < gridW && row < gridH
    ensures row * gridW + col < gridW * gridH
    ensures (row * gridW + col) % gridW == col && (row * gridW + col) / gridW == row
    ensures row * gridW + gridW == (row + 1) * gridW <= gridW * gridH
  {
    RowFits(gridW, gridH, row);
    DivModUnique(row * gridW + col, gridW, row, col);
  }

  lemma DivModUnique(n: nat, d: nat, q: nat, r: nat)
    requires n == q * d + r && r < d
    ensures n / d == q && n % d == r
  {
    var q' := n / d;
    assert q' < q ==> (q' + 1) * d <= q * d;
    assert q' > q ==> (q + 1) * d <= q' * d;
  }

  method HashAll(img: Image) returns (hashes: array<nat>)
    ensures fresh(hashes) && hashes[..] == Hashes(img)
  {
    var gridW, gridH := GridSide(img.w), GridSide(img.h);
    hashes := new nat[gridW * gridH];
    for row := 0 to gridH
      invariant row * gridW <= hashes.Length
      invariant forall i :: 0 <= i < row * gridW ==> hashes[i] == HashAt(img, i)
    {
      for col := 0 to gridW
        invariant row * gridW + col <= hashes.Length
        invariant forall i :: 0 <= i < row * gridW + col ==> hashes[i] == HashAt(img, i)
      {
        GridIndex(gridW, gridH, col, row);
        var hash := HashBlock(img, img.minX + col * BLOCK_SIZE, img.minY + row * BLOCK_SIZE);
        hashes[row * gridW + col] := hash;
      }
      assert row * gridW + gridW == (row + 1) * gridW;
    }
    assert gridH * gridW == hashes.Length;
  }

  // ---------------------------------------------------------------- one frame

  /** The encoder between two frames; None stands for a nil hash slice. */
  datatype State = State(hashes: Option<seq<nat>>, imgW: nat, imgH: nat)

  const INITIAL := State(None, 0, 0)

  ghost predicate ValidState(s: State) {
    s.hashes.Some? ==> |s.hashes.value| == Total(s.imgW, s.imgH)
  }

  function Changed(before: seq<nat>, now: seq<nat>): seq<bool>
    requires |before| == |now|
  {
    seq(|now|, i requires 0 <= i < |now| => before[i] != now[i])
  }

  function CountTrue(flags: seq<bool>): nat {
    if flags == [] then 0
    else CountTrue(flags[..|flags| - 1]) + (if flags[|flags| - 1] then 1 else 0)
  }

  function BlockBytes(img: Image, jpeg: Jpeg): seq<Option<seq<byte>>> {
    seq(Total(img.w, img.h), i requires 0 <= i < Total(img.w, img.h) =>
      jpeg.block(img, BlockX(img, i), BlockY(img, i)))
  }

  /** Only blocks that were really sent take over the new hash. */
  function SentHashes(before: seq<nat>, now: seq<nat>, blocks: seq<Option<seq<byte>>>): seq<nat>
    requires |before| == |now| == |blocks|
  {
    seq(|now|, i requires 0 <= i < |now| => if before[i] != now[i] && blocks[i].Some? then now[i] else before[i])
  }

  function FullOutput(img: Image, jpeg: Jpeg): Output {
    match jpeg.full(img) case Some(data) => FullFrame(data) case None => FullFailed
  }

  /** A frame with the dimensions of the one before it. */
  function NextFrame(before: seq<nat>, img: Image, jpeg: Jpeg): (seq<nat>, Output)
    requires |before| == Total(img.w, img.h)
  {
    var now := Hashes(img);
    var changed := Changed(before, now);
    if |now| == 0 then (before, DivideByZero)
    else if CountTrue(changed) * 100 / |now| > 60 then (now, FullOutput(img, jpeg))
    else
      var blocks := BlockBytes(img, jpeg);
      (SentHashes(before, now, blocks),
       DeltaFrame(DeltaPayload(GridSide(img.w), GridSide(img.h), changed, blocks)))
  }

  function EncodeStep(s: State, img: Image, jpeg: Jpeg): (State, Output)
    requires ValidState(s)
  {
    if s.imgW != img.w || s.imgH != img.h || s.hashes.None? then
      (State(Some(Hashes(img)), img.w, img.h), FullOutput(img, jpeg))
    else
      var (hashes, out) := NextFrame(s.hashes.value, img, jpeg);
      (s.(hashes := Some(hashes)), out)
  }

  lemma EncodedStep(changed: seq<bool>, blocks: seq<Option<seq<byte>>>, i: nat)
    requires |changed| == |blocks| && i < |changed|
    ensures Stream(Encoded(changed, blocks, i))
         == (if changed[i] && blocks[i].Some? then U16(|blocks[i].value|) + blocks[i].value else [])
            + Stream(Encoded(changed, blocks, i + 1))
  {
    var rest := Encoded(changed, blocks, i + 1);
    if changed[i] && blocks[i].Some? {
      assert Encoded(changed, blocks, i) == [blocks[i].value] + rest;
      assert ([blocks[i].value] + rest)[1..] == rest;
    } else {
      assert Encoded(changed, blocks, i) == rest;
    }
  }

  class Encoder {
    var blockHashes: array?<nat>
    var gridW: nat
    var gridH: nat
    var imgW: nat
    var imgH: nat

    ghost function View(): State
      reads this, blockHashes
    {
      State(if blockHashes == null then None else Some(blockHashes[..]), imgW, imgH)
    }

    constructor ()
      ensures View() == INITIAL
    {
      blockHashes := null;
      gridW, gridH, imgW, imgH := 0, 0, 0, 0;
    }

    method Reset(w: nat, h: nat)
      modifies this
      ensures View() == State(None, w, h)
    {
      blockHashes := null;
      imgW, imgH, gridW, gridH := w, h, 0, 0;
    }

    method Encode(img: Image, jpeg: Jpeg) returns (out: Output)
      requires ValidState(View())
      modifies this, blockHashes
      ensures ValidState(View())
      ensures (View(), out) == EncodeStep(old(View()), img, jpeg)
    {
      if img.w != imgW || img.h != imgH {
        Reset(img.w, img.h);
      }
      var newHashes := HashAll(img);
      if blockHashes == null {
        blockHashes := newHashes;
        gridW, gridH := GridSide(img.w), GridSide(img.h);
        out := FullOutput(img, jpeg);
      } else {
        out := EncodeNext(img, jpeg, newHashes[..]);
      }
    }

    method EncodeNext(img: Image, jpeg: Jpeg, newHashes: seq<nat>) returns (out: Output)
      requires blockHashes != null && blockHashes.Length == Total(img.w, img.h) && newHashes == Hashes(img)
      modifies blockHashes
      ensures (blockHashes[..], out) == NextFrame(old(blockHashes[..]), img, jpeg)
    {
      var changed, changedCount := Compare(newHashes);
      if |newHashes| == 0 {
        out := DivideByZero;
      } else if changedCount * 100 / |newHashes| > 60 {
        forall i | 0 <= i < blockHashes.Length { blockHashes[i] := newHashes[i]; }
        assert blockHashes[..] == newHashes;
        out := FullOutput(img, jpeg);
      } else {
        var bitfield := PackBits(changed);
        BlocksAreGrid(img, jpeg);
        var records := SendBlocks(img, jpeg, GridSide(img.w), GridSide(img.h), changed, newHashes, BlockBytes(img, jpeg));
        out := DeltaFrame(U16(GridSide(img.w)) + U16(GridSide(img.h)) + bitfield[..] + records);
      }
    }

    method Compare(newHashes: seq<nat>) returns (changed: seq<bool>, count: nat)
      requires blockHashes != null && blockHashes.Length == |newHashes|
      ensures changed == Changed(blockHashes[..], newHashes) && count == CountTrue(changed)
    {
      var flags := new bool[|newHashes|](_ => false);
      count := 0;
      for i := 0 to |newHashes|
        invariant flags[..i] == Changed(blockHashes[..], newHashes)[..i]
        invariant forall k :: i <= k < flags.Length ==> !flags[k]
        invariant count == CountTrue(flags[..i])
      {
        if newHashes[i] != blockHashes[i] {
          flags[i] := true;
          count := count + 1;
        }
        assert flags[..i + 1][..i] == flags[..i];
      }
      assert flags[..] == flags[..|newHashes|];
      changed := flags[..];
    }

    /** Writes the record of each changed block, and its hash once it is written. */
    method SendBlocks(img: Image, jpeg: Jpeg, gridW: nat, gridH: nat, changed: seq<bool>, newHashes: seq<nat>,
                      ghost blocks: seq<Option<seq<byte>>>)
        returns (buf: seq<byte>)
      requires blockHashes != null && blockHashes.Length == |newHashes| == |blocks|
      requires changed == Changed(blockHashes[..], newHashes)
      requires AreGrid(blocks, img, jpeg, gridW, gridH)
      modifies blockHashes
      ensures buf == Stream(Encoded(changed, blocks, 0))
      ensures blockHashes[..] == SentHashes(old(blockHashes[..]), newHashes, blocks)
    {
      ghost var before := blockHashes[..];
      buf := [];
      for row := 0 to gridH
        invariant Progress(blockHashes[..], buf, Rows(gridW, row), changed, newHashes, blocks, before)
      {
        buf := SendRow(img, jpeg, changed, newHashes, row, buf, gridW, blocks, before);
      }
      ProgressDone(blockHashes[..], buf, changed, newHashes, blocks, before);
    }

    method SendRow(img: Image, jpeg: Jpeg, changed: seq<bool>, newHashes: seq<nat>, row: nat, sofar: seq<byte>,
                   gridW: nat, ghost blocks: seq<Option<seq<byte>>>, ghost before: seq<nat>)
        returns (buf: seq<byte>)
      requires blockHashes != null && blockHashes.Length == |changed| == |newHashes| == |blocks| == |before|
      requires changed == Changed(before, newHashes)
      requires AreRow(blocks, img, jpeg, gridW, row)
      requires Progress(blockHashes[..], sofar, Rows(gridW, row), changed, newHashes, blocks, before)
      modifies blockHashes
      ensures Progress(blockHashes[..], buf, Rows(gridW, row + 1), changed, newHashes, blocks, before)
    {
      buf := sofar;
      for col := 0 to gridW
        invariant Progress(blockHashes[..], buf, Rows(gridW, row) + col, changed, newHashes, blocks, before)
      {
        var idx := row * gridW + col;
        assert idx == Rows(gridW, row) + col;
        ghost var hashes, sent := blockHashes[..], buf;
        if changed[idx] {
          var blockData := jpeg.block(img, img.minX + col * BLOCK_SIZE, img.minY + row * BLOCK_SIZE);
          if blockData.Some? {
            buf := buf + U16(|blockData.value|);
            buf := buf + blockData.value;
            blockHashes[idx] := newHashes[idx];
          }
        }
        ProgressStep(hashes, sent, idx, changed, newHashes, blocks, before);
        assert blockHashes[..] == hashes[idx := blockHashes[idx]];
      }
    }
  }

  /** The first n blocks have been dealt with. */
  ghost predicate Progress(hashes: seq<nat>, buf: seq<byte>, n: nat, changed: seq<bool>, newHashes: seq<nat>,
                           blocks: seq<Option<seq<byte>>>, before: seq<nat>)
    requires |hashes| == |changed| == |newHashes| == |blocks| == |before|
  {
    && n <= |changed|
    && Stream(Encoded(changed, blocks, 0)) == buf + Stream(Encoded(changed, blocks, n))
    && hashes == SentHashes(before, newHashes, blocks)[..n] + before[n..]
  }

  lemma ProgressDone(hashes: seq<nat>, buf: seq<byte>, changed: seq<bool>, newHashes: seq<nat>,
                     blocks: seq<Option<seq<byte>>>, before: seq<nat>)
    requires |hashes| == |changed| == |newHashes| == |blocks| == |before|
    requires Progress(hashes, buf, |changed|, changed, newHashes, blocks, before)
    ensures buf == Stream(Encoded(changed, blocks, 0)) && hashes == SentHashes(before, newHashes, blocks)
  {}

  lemma ProgressStep(hashes: seq<nat>, buf: seq<byte>, n: nat, changed: seq<bool>, newHashes: seq<nat>,
                     blocks: seq<Option<seq<byte>>>, before: seq<nat>)
    requires |hashes| == |changed| == |newHashes| == |blocks| == |before| && n < |changed|
    requires changed == Changed(before, newHashes)
    requires Progress(hashes, buf, n, changed, newHashes, blocks, before)
    ensures if changed[n] && blocks[n].Some?
            then Progress(hashes[n := newHashes[n]], buf + U16(|blocks[n].value|) + blocks[n].value, n + 1,
                          changed, newHashes, blocks, before)
            else Progress(hashes[n := hashes[n]], buf, n + 1, changed, newHashes, blocks, before)
  {
    var sent := changed[n] && blocks[n].Some?;
    var record := if sent then U16(|blocks[n].value|) + blocks[n].value else [];
    var goal := SentHashes(before, newHashes, blocks);
    EncodedStep(changed, blocks, n);
    AssocConcat(buf, record, Stream(Encoded(changed, blocks, n + 1)));
    HashesStep(hashes, before, goal, n);
    assert goal[n] == if sent then newHashes[n] else before[n];
    if sent {
      assert buf + record == buf + U16(|blocks[n].value|) + blocks[n].value;
    } else {
      assert buf + record == buf;
    }
  }

  lemma AssocConcat(a: seq<byte>, b: seq<byte>, c: seq<byte>)
    ensures a + (b + c) == (a + b) + c
  {}

  /** One more of the hashes takes its new value. */
  lemma HashesStep(hashes: seq<nat>, before: seq<nat>, goal: seq<nat>, n: nat)
    requires |hashes| == |before| == |goal| && n < |hashes| && hashes == goal[..n] + before[n..]
    ensures hashes[n] == before[n] && hashes[n := goal[n]] == goal[..n + 1] + before[n + 1..]
  {}

  lemma RowFits(gridW: nat, gridH: nat, row: nat)
    requires row < gridH
    ensures row * gridW + gridW == (row + 1) * gridW <= gridW * gridH
  {
    assert (row + 1) * gridW <= gridH * gridW;
  }

  lemma BlockAt(img: Image, row: nat, col: nat)
    requires row < GridSide(img.h) && col < GridSide(img.w)
    ensures var i := row * GridSide(img.w) + col;
            && i < Total(img.w, img.h)
            && BlockX(img, i) == img.minX + col * BLOCK_SIZE && BlockY(img, i) == img.minY + row * BLOCK_SIZE
  {
    GridIndex(GridSide(img.w), GridSide(img.h), col, row);
  }

  /** How many blocks the first `row` rows hold. */
  ghost function Rows(gridW: nat, row: nat): nat {
    if row == 0 then 0 else Rows(gridW, row - 1) + gridW
  }

  lemma {:induction false} AllRows(gridW: nat, row: nat)
    ensures Rows(gridW, row) == row * gridW
  {
    if row > 0 {
      AllRows(gridW, row - 1);
    }
  }

  /** The stretch of `blocks` for row `row` holds the encodings of its blocks, from left to right. */
  ghost predicate AreRow(blocks: seq<Option<seq<byte>>>, img: Image, jpeg: Jpeg, gridW: nat, row: nat) {
    && Rows(gridW, row) == row * gridW && Rows(gridW, row + 1) <= |blocks|
    && forall col :: 0 <= col < gridW ==>
         blocks[Rows(gridW, row) + col] == jpeg.block(img, img.minX + col * BLOCK_SIZE, img.minY + row * BLOCK_SIZE)
  }

  ghost predicate AreGrid(blocks: seq<Option<seq<byte>>>, img: Image, jpeg: Jpeg, gridW: nat, gridH: nat) {
    && Rows(gridW, gridH) == |blocks|
    && forall row :: 0 <= row < gridH ==> AreRow(blocks, img, jpeg, gridW, row)
  }

  lemma BlocksAreRow(img: Image, jpeg: Jpeg, row: nat)
    requires row < GridSide(img.h)
    ensures AreRow(BlockBytes(img, jpeg), img, jpeg, GridSide(img.w), row)
  {
    AllRows(GridSide(img.w), row);
    RowFits(GridSide(img.w), GridSide(img.h), row);
    forall col | 0 <= col < GridSide(img.w)
      ensures jpeg.block(img, img.minX + col * BLOCK_SIZE, img.minY + row * BLOCK_SIZE)
           == BlockBytes(img, jpeg)[Rows(GridSide(img.w), row) + col]
    {
      BlockAt(img, row, col);
    }
  }

  lemma BlocksAreGrid(img: Image, jpeg: Jpeg)
    ensures AreGrid(BlockBytes(img, jpeg), img, jpeg, GridSide(img.w), GridSide(img.h))
  {
    AllRows(GridSide(img.w), GridSide(img.h));
    forall row | 0 <= row < GridSide(img.h)
      ensures AreRow(BlockBytes(img, jpeg), img, jpeg, GridSide(img.w), row)
    {
      BlocksAreRow(img, jpeg, row);
    }
  }
}
