/**
 * A viewer that applies every frame the encoder (apps/agent/internal/stream/delta.go)
 * produces stays in step with it, over any sequence of images and resizes.
 */
module DeltaMirror {
  import opened Events
  import opened Bytes
  import opened DeltaWire
  import opened DeltaEncoder

  /** One captured image, and whether the frame made from it arrives: the stream manager goes on after a failed send
      (apps/agent/internal/stream/manager.go), with the encoder's hashes advanced. */
  datatype Shot = Shot(img: Image, jpeg: Jpeg, arrives: bool)

  /** For each block on the viewer's screen, the number of the frame its picture came from. */
  type Viewer = Option<seq<nat>>

  function ApplyBlocks(grid: seq<nat>, blocks: seq<(nat, seq<byte>)>, frame: nat): (r: seq<nat>)
    ensures |r| == |grid|
  {
    if blocks == [] then grid
    else
      var grid' := ApplyBlocks(grid, blocks[..|blocks| - 1], frame);
      var i := blocks[|blocks| - 1].0;
      if i < |grid'| then grid'[i := frame] else grid'
  }

  /** A full frame replaces the screen; a delta replaces the blocks it decodes to. */
  function Receive(v: Viewer, frame: nat, img: Image, out: Output): Viewer {
    match out
    case FullFrame(_) => Some(seq(Total(img.w, img.h), _ => frame))
    case DeltaFrame(payload) =>
      (match DecodeDelta(payload)
       case Some(d) => if v.Some? then Some(ApplyBlocks(v.value, d.blocks, frame)) else v
       case None => v)
    case FullFailed => v
    case DivideByZero => v
  }

  function Session(shots: seq<Shot>): (r: (State, Viewer))
    ensures ValidState(r.0)
  {
    if shots == [] then (INITIAL, None)
    else
      var n := |shots| - 1;
      var (s, v) := Session(shots[..n]);
      var (s', out) := EncodeStep(s, shots[n].img, shots[n].jpeg);
      (s', if shots[n].arrives then Receive(v, n, shots[n].img, out) else v)
  }

  /** Block i on the screen has the hash it has in `now`, and comes from an image of that size. */
  ghost predicate Shows(shots: seq<Shot>, grid: seq<nat>, i: nat, now: Image)
    requires i < |grid| && i < Total(now.w, now.h)
  {
    && grid[i] < |shots|
    && var img := shots[grid[i]].img;
       img.w == now.w && img.h == now.h && HashAt(img, i) == HashAt(now, i)
  }

  ghost predicate InStep(shots: seq<Shot>, grid: seq<nat>, now: Image) {
    |grid| == Total(now.w, now.h) && forall i :: 0 <= i < |grid| ==> Shows(shots, grid, i, now)
  }

  /** The encoder's hashes are those of the latest image, and the viewer is in step with it. */
  ghost predicate Mirrors(shots: seq<Shot>, s: State, v: Viewer)
    requires shots != []
  {
    var now := shots[|shots| - 1].img;
    s == State(Some(Hashes(now)), now.w, now.h) && v.Some? && InStep(shots, v.value, now)
  }

  // ---------------------------------------------------------------- what a frame attempts

  /** The flags of a frame that has the size of the one before it. */
  function Flags(s: State, img: Image): seq<bool>
    requires ValidState(s) && s.hashes.Some? && s.imgW == img.w && s.imgH == img.h
  {
    Changed(s.hashes.value, Hashes(img))
  }

  predicate NeedsFull(s: State, img: Image)
    requires ValidState(s)
  {
    s.imgW != img.w || s.imgH != img.h || s.hashes.None? ||
    (Total(img.w, img.h) > 0 && CountTrue(Flags(s, img)) * 100 / Total(img.w, img.h) > 60)
  }

  /** Every encoding this frame attempts succeeds: the full image, or each changed block. */
  ghost predicate Encodes(s: State, shot: Shot)
    requires ValidState(s)
  {
    if NeedsFull(s, shot.img) then shot.jpeg.full(shot.img).Some?
    else AllEncoded(Flags(s, shot.img), BlockBytes(shot.img, shot.jpeg))
  }

  /** It encodes and arrives, or there was nothing to send. */
  ghost predicate Delivered(s: State, shot: Shot)
    requires ValidState(s)
  {
    Encodes(s, shot) && (shot.arrives || (!NeedsFull(s, shot.img) && true !in Flags(s, shot.img)))
  }

  /** A non-empty image; a delta has at most 65535 blocks a side, and no record it writes exceeds its length field. */
  ghost predicate Fits(s: State, shot: Shot)
    requires ValidState(s)
  {
    && 0 < shot.img.w && 0 < shot.img.h
    && (!NeedsFull(s, shot.img) ==>
          && GridSide(shot.img.w) < 0x1_0000 && GridSide(shot.img.h) < 0x1_0000
          && AllShort(Flags(s, shot.img), BlockBytes(shot.img, shot.jpeg)))
  }

  lemma {:induction false} IndicesMembers(changed: seq<bool>, from: nat, i: nat)
    requires from <= |changed|
    ensures i in Indices(changed, from) <==> from <= i < |changed| && changed[i]
    decreases |changed| - from
  {
    if from < |changed| {
      IndicesMembers(changed, from + 1, i);
    }
  }

  lemma {:induction false} ApplyBlocksAt(grid: seq<nat>, blocks: seq<(nat, seq<byte>)>, frame: nat, i: nat)
    requires i < |grid|
    ensures ApplyBlocks(grid, blocks, frame)[i]
         == if exists k :: 0 <= k < |blocks| && blocks[k].0 == i then frame else grid[i]
  {
    if blocks != [] {
      var front := blocks[..|blocks| - 1];
      ApplyBlocksAt(grid, front, frame, i);
      if k :| 0 <= k < |front| && front[k].0 == i {
        assert blocks[k].0 == i;
      }
    }
  }

  lemma ApplyChanged(grid: seq<nat>, img: Image, changed: seq<bool>, blocks: seq<Option<seq<byte>>>, frame: nat, i: nat)
    requires |changed| == |blocks| == |grid| && i < |grid|
    requires |Indices(changed, 0)| == |Encoded(changed, blocks, 0)|
    ensures ApplyBlocks(grid, Exact(GridSide(img.w), GridSide(img.h), changed, blocks).blocks, frame)[i]
         == if changed[i] then frame else grid[i]
  {
    var ids, entries := Indices(changed, 0), Exact(GridSide(img.w), GridSide(img.h), changed, blocks).blocks;
    ApplyBlocksAt(grid, entries, frame, i);
    IndicesMembers(changed, 0, i);
    if changed[i] {
      var k :| 0 <= k < |ids| && ids[k] == i;
      assert entries[k].0 == i;
    }
    assert forall k :: 0 <= k < |entries| ==> entries[k].0 == ids[k] && ids[k] in ids;
  }

  lemma SentAll(before: seq<nat>, now: seq<nat>, blocks: seq<Option<seq<byte>>>)
    requires |before| == |now| == |blocks|
    ensures SentHashes(before, now, blocks) == now <==> AllEncoded(Changed(before, now), blocks)
  {
    var sent, changed := SentHashes(before, now, blocks), Changed(before, now);
    if sent == now {
      forall i | 0 <= i < |now| && changed[i] ensures blocks[i].Some? {
        assert sent[i] == now[i];
      }
    }
  }

  /** After a decoded delta a block is right if it was sent or was right already. */
  lemma PatchShows(shots: seq<Shot>, grid: seq<nat>, shot: Shot, changed: seq<bool>, blocks: seq<Option<seq<byte>>>, i: nat)
    requires |changed| == |blocks| == |grid| == Total(shot.img.w, shot.img.h) && i < |grid| && grid[i] < |shots|
    requires |Indices(changed, 0)| == |Encoded(changed, blocks, 0)|
    ensures var grid' := ApplyBlocks(grid, Exact(GridSide(shot.img.w), GridSide(shot.img.h), changed, blocks).blocks, |shots|);
            Shows(shots + [shot], grid', i, shot.img) <==> changed[i] || Shows(shots, grid, i, shot.img)
  {
    ApplyChanged(grid, shot.img, changed, blocks, |shots|, i);
    assert (shots + [shot])[|shots|] == shot;
    assert (shots + [shot])[grid[i]] == shots[grid[i]];
  }

  ghost predicate InRange(v: Viewer, frames: nat) {
    v.Some? ==> forall i :: 0 <= i < |v.value| ==> v.value[i] < frames
  }

  /** What a delta frame sends and where every block that it does not send already shows the right picture. */
  ghost predicate Patches(shots: seq<Shot>, s: State, v: Viewer, img: Image)
    requires ValidState(s) && s.hashes.Some? && s.imgW == img.w && s.imgH == img.h
  {
    && v.Some? && |v.value| == Total(img.w, img.h)
    && forall i :: 0 <= i < |v.value| ==> Flags(s, img)[i] || Shows(shots, v.value, i, img)
  }

  lemma PatchInStep(shots: seq<Shot>, s: State, v: Viewer, shot: Shot)
    requires ValidState(s) && s.hashes.Some? && s.imgW == shot.img.w && s.imgH == shot.img.h && InRange(v, |shots|)
    requires v.Some? && |v.value| == Total(shot.img.w, shot.img.h)
    requires var changed, blocks := Flags(s, shot.img), BlockBytes(shot.img, shot.jpeg);
             |Indices(changed, 0)| == |Encoded(changed, blocks, 0)|
    ensures var changed, blocks := Flags(s, shot.img), BlockBytes(shot.img, shot.jpeg);
            InStep(shots + [shot],
                   ApplyBlocks(v.value, Exact(GridSide(shot.img.w), GridSide(shot.img.h), changed, blocks).blocks, |shots|), shot.img)
            <==> Patches(shots, s, v, shot.img)
  {
    var changed, blocks := Flags(s, shot.img), BlockBytes(shot.img, shot.jpeg);
    var grid' := ApplyBlocks(v.value, Exact(GridSide(shot.img.w), GridSide(shot.img.h), changed, blocks).blocks, |shots|);
    forall i | 0 <= i < |v.value|
      ensures Shows(shots + [shot], grid', i, shot.img) <==> changed[i] || Shows(shots, v.value, i, shot.img)
    {
      PatchShows(shots, v.value, shot, changed, blocks, i);
    }
  }

  lemma DeltaFrameMirrors(shots: seq<Shot>, s: State, v: Viewer, shot: Shot)
    requires ValidState(s) && Fits(s, shot) && !NeedsFull(s, shot.img) && InRange(v, |shots|)
    ensures var (s', out) := EncodeStep(s, shot.img, shot.jpeg);
            Mirrors(shots + [shot], s', Receive(v, |shots|, shot.img, out))
            <==> Encodes(s, shot) && Patches(shots, s, v, shot.img)
  {
    var now, blocks, changed := shot.img, BlockBytes(shot.img, shot.jpeg), Flags(s, shot.img);
    NonEmptyGrid(now);
    DecodeInvertsEncode(GridSide(now.w), GridSide(now.h), changed, blocks);
    SentAll(s.hashes.value, Hashes(now), blocks);
    if AllEncoded(changed, blocks) && v.Some? && |v.value| == Total(now.w, now.h) {
      PatchInStep(shots, s, v, shot);
    }
  }

  lemma FullFrameMirrors(shots: seq<Shot>, s: State, v: Viewer, shot: Shot)
    requires ValidState(s) && Fits(s, shot) && NeedsFull(s, shot.img) && InRange(v, |shots|)
    ensures var (s', out) := EncodeStep(s, shot.img, shot.jpeg);
            Mirrors(shots + [shot], s', Receive(v, |shots|, shot.img, out))
            <==> Encodes(s, shot) || (v.Some? && InStep(shots, v.value, shot.img))
  {
    NonEmptyGrid(shot.img);
    assert (shots + [shot])[|shots|] == shot;
    if v.Some? {
      SameUntilNow(shots, v.value, shot, shot.img);
    }
  }

  lemma SameUntilNow(shots: seq<Shot>, grid: seq<nat>, shot: Shot, now: Image)
    requires forall i :: 0 <= i < |grid| ==> grid[i] < |shots|
    ensures InStep(shots + [shot], grid, now) <==> InStep(shots, grid, now)
  {
    if |grid| == Total(now.w, now.h) {
      forall i | 0 <= i < |grid| ensures Shows(shots + [shot], grid, i, now) <==> Shows(shots, grid, i, now) {
        assert (shots + [shot])[grid[i]] == shots[grid[i]];
      }
    }
  }

  /** A frame that is lost changes nothing on the screen, but the encoder moves on. */
  lemma LostFrameMirrors(shots: seq<Shot>, s: State, v: Viewer, shot: Shot)
    requires ValidState(s) && Fits(s, shot) && InRange(v, |shots|)
    ensures Mirrors(shots + [shot], EncodeStep(s, shot.img, shot.jpeg).0, v)
            <==> (NeedsFull(s, shot.img) || Encodes(s, shot)) && v.Some? && InStep(shots, v.value, shot.img)
  {
    NonEmptyGrid(shot.img);
    assert (shots + [shot])[|shots|] == shot;
    if v.Some? {
      SameUntilNow(shots, v.value, shot, shot.img);
    }
    if !NeedsFull(s, shot.img) {
      SentAll(s.hashes.value, Hashes(shot.img), BlockBytes(shot.img, shot.jpeg));
    }
  }

  /** When a frame leaves viewer and encoder with the current image, after any session, frames that failed to encode or
      were lost on the way included. An arriving full frame: if it encodes, or nothing was missing. An arriving delta:
      if every changed block encodes and every other block was right. A lost frame: if nothing was missing, and no
      changed block of a delta failed to encode. */
  lemma FrameMirrorsExactly(shots: seq<Shot>, shot: Shot)
    requires Fits(Session(shots).0, shot)
    ensures var (s, v) := Session(shots);
            var right := v.Some? && InStep(shots, v.value, shot.img);
            Mirrors(shots + [shot], Session(shots + [shot]).0, Session(shots + [shot]).1)
            <==> if NeedsFull(s, shot.img) then (shot.arrives && Encodes(s, shot)) || right
                 else Encodes(s, shot) && if shot.arrives then Patches(shots, s, v, shot.img) else right
  {
    var (s, v) := Session(shots);
    assert (shots + [shot])[..|shots|] == shots;
    ViewerInRange(shots);
    if !shot.arrives {
      LostFrameMirrors(shots, s, v, shot);
    } else if NeedsFull(s, shot.img) {
      FullFrameMirrors(shots, s, v, shot);
    } else {
      DeltaFrameMirrors(shots, s, v, shot);
    }
  }

  lemma {:induction false} ViewerInRange(shots: seq<Shot>)
    ensures InRange(Session(shots).1, |shots|)
  {
    if shots != [] {
      var n := |shots| - 1;
      ViewerInRange(shots[..n]);
      var (s, v) := Session(shots[..n]);
      var (_, out) := EncodeStep(s, shots[n].img, shots[n].jpeg);
      if out.DeltaFrame? && v.Some? && DecodeDelta(out.payload).Some? {
        ApplyInRange(v.value, DecodeDelta(out.payload).value.blocks, n);
      }
    }
  }

  lemma {:induction false} ApplyInRange(grid: seq<nat>, blocks: seq<(nat, seq<byte>)>, frame: nat)
    requires forall i :: 0 <= i < |grid| ==> grid[i] <= frame
    ensures forall i :: 0 <= i < |grid| ==> ApplyBlocks(grid, blocks, frame)[i] <= frame
  {
    if blocks != [] {
      ApplyInRange(grid, blocks[..|blocks| - 1], frame);
    }
  }

  /** A viewer in step stays in step exactly when everything this frame attempts encodes, and the frame arrives or is
      a delta without a changed block. */
  lemma FrameKeepsMirror(shots: seq<Shot>, shot: Shot)
    requires shots != [] ==> Mirrors(shots, Session(shots).0, Session(shots).1)
    requires Fits(Session(shots).0, shot)
    ensures Mirrors(shots + [shot], Session(shots + [shot]).0, Session(shots + [shot]).1) <==> Delivered(Session(shots).0, shot)
  {
    var (s, v) := Session(shots);
    FrameMirrorsExactly(shots, shot);
    if shots != [] {
      InStepMeansUnchanged(shots, s, v, shot.img);
    }
  }

  /** In step with the latest image, the viewer shows block i of the next one exactly if its hash has not changed. */
  lemma ShowsUnchanged(shots: seq<Shot>, s: State, v: Viewer, img: Image, i: nat)
    requires shots != [] && Mirrors(shots, s, v) && i < |v.value| && s.imgW == img.w && s.imgH == img.h
    ensures ValidState(s) && |v.value| == Total(img.w, img.h)
    ensures Flags(s, img)[i] <==> !Shows(shots, v.value, i, img)
  {
    var before := shots[|shots| - 1].img;
    assert Hashes(before)[i] == HashAt(before, i) && Hashes(img)[i] == HashAt(img, i);
    assert Shows(shots, v.value, i, before);
  }

  lemma ResizedIsNotShown(shots: seq<Shot>, s: State, v: Viewer, img: Image)
    requires shots != [] && Mirrors(shots, s, v) && 0 < img.w && 0 < img.h && (s.imgW != img.w || s.imgH != img.h)
    ensures !InStep(shots, v.value, img)
  {
    NonEmptyGrid(img);
    if |v.value| == Total(img.w, img.h) {
      assert Shows(shots, v.value, 0, shots[|shots| - 1].img);
      assert !Shows(shots, v.value, 0, img);
    }
  }

  lemma InStepMeansUnchanged(shots: seq<Shot>, s: State, v: Viewer, img: Image)
    requires shots != [] && Mirrors(shots, s, v) && 0 < img.w && 0 < img.h
    ensures ValidState(s)
    ensures s.imgW == img.w && s.imgH == img.h ==> Patches(shots, s, v, img)
    ensures NeedsFull(s, img) ==> !InStep(shots, v.value, img)
    ensures !NeedsFull(s, img) ==> (InStep(shots, v.value, img) <==> true !in Flags(s, img))
  {
    if s.imgW != img.w || s.imgH != img.h {
      ResizedIsNotShown(shots, s, v, img);
    } else {
      AllShowUnchanged(shots, s, v, img);
      if NeedsFull(s, img) {
        FullIsNotShown(shots, s, v, img);
      } else {
        InStepIfUnchanged(shots, s, v, img);
      }
    }
  }

  lemma InStepIfUnchanged(shots: seq<Shot>, s: State, v: Viewer, img: Image)
    requires shots != [] && Mirrors(shots, s, v) && s.imgW == img.w && s.imgH == img.h && ValidState(s)
    ensures InStep(shots, v.value, img) <==> true !in Flags(s, img)
  {
    AllShowUnchanged(shots, s, v, img);
    if InStep(shots, v.value, img) {
      forall i | 0 <= i < |Flags(s, img)| ensures !Flags(s, img)[i] {
        assert Shows(shots, v.value, i, img);
      }
    } else {
      var i :| 0 <= i < |v.value| && !Shows(shots, v.value, i, img);
      assert Flags(s, img)[i];
    }
  }

  lemma FullIsNotShown(shots: seq<Shot>, s: State, v: Viewer, img: Image)
    requires shots != [] && Mirrors(shots, s, v) && s.imgW == img.w && s.imgH == img.h
    requires ValidState(s) && NeedsFull(s, img)
    ensures !InStep(shots, v.value, img)
  {
    SomeTrue(Flags(s, img));
    var i :| 0 <= i < |Flags(s, img)| && Flags(s, img)[i];
    ShowsUnchanged(shots, s, v, img, i);
  }

  lemma AllShowUnchanged(shots: seq<Shot>, s: State, v: Viewer, img: Image)
    requires shots != [] && Mirrors(shots, s, v) && s.imgW == img.w && s.imgH == img.h
    ensures ValidState(s) && |v.value| == Total(img.w, img.h) == |Flags(s, img)|
    ensures forall i :: 0 <= i < |v.value| ==> (Flags(s, img)[i] <==> !Shows(shots, v.value, i, img))
  {
    forall i | 0 <= i < |v.value| ensures Flags(s, img)[i] <==> !Shows(shots, v.value, i, img) {
      ShowsUnchanged(shots, s, v, img, i);
    }
  }

  lemma {:induction false} SomeTrue(flags: seq<bool>)
    requires CountTrue(flags) > 0
    ensures exists i :: 0 <= i < |flags| && flags[i]
  {
    if !flags[|flags| - 1] {
      SomeTrue(flags[..|flags| - 1]);
    }
  }

  /** In step after every frame of the session. */
  ghost predicate AlwaysMirrors(shots: seq<Shot>) {
    shots == [] || (AlwaysMirrors(shots[..|shots| - 1]) && Mirrors(shots, Session(shots).0, Session(shots).1))
  }

  ghost predicate AlwaysFits(shots: seq<Shot>) {
    shots == [] || (AlwaysFits(shots[..|shots| - 1]) && Fits(Session(shots[..|shots| - 1]).0, shots[|shots| - 1]))
  }

  ghost predicate AlwaysDelivered(shots: seq<Shot>) {
    shots == [] || (AlwaysDelivered(shots[..|shots| - 1]) && Delivered(Session(shots[..|shots| - 1]).0, shots[|shots| - 1]))
  }

  /** The mirror, over whole sessions of images and resizes: after every frame the encoder's hashes are those of the
      current image, and each block the viewer shows was sent in a frame where it had that very hash, if and only if
      every encoding attempted succeeds and every frame with something to send arrives. */
  lemma {:induction false} ViewerFollowsEncoder(shots: seq<Shot>)
    requires AlwaysFits(shots)
    ensures AlwaysMirrors(shots) <==> AlwaysDelivered(shots)
  {
    if shots != [] {
      var before, shot := shots[..|shots| - 1], shots[|shots| - 1];
      assert shots == before + [shot];
      ViewerFollowsEncoder(before);
      if AlwaysMirrors(before) {
        FrameKeepsMirror(before, shot);
      }
    }
  }

  lemma NonEmptyGrid(img: Image)
    requires 0 < img.w && 0 < img.h
    ensures Total(img.w, img.h) > 0
  {}

  // ---------------------------------------------------------------- what the mirror does not give

  lemma {:induction false} SameRow(a: Image, b: Image, x: int, y: int, n: nat)
    requires forall u, v :: Weight(a.at(u, v)) == Weight(b.at(u, v))
    ensures RowWeight(a, x, y, n) == RowWeight(b, x, y, n)
  {
    if n > 0 {
      SameRow(a, b, x, y, n - 1);
    }
  }

  lemma {:induction false} SameBlock(a: Image, b: Image, x: int, y: int, n: nat)
    requires forall u, v :: Weight(a.at(u, v)) == Weight(b.at(u, v))
    ensures BlockWeight(a, x, y, n) == BlockWeight(b, x, y, n)
  {
    if n > 0 {
      SameBlock(a, b, x, y, n - 1);
      SameRow(a, b, x, y + n - 1, BLOCK_SIZE);
    }
  }

  /** Equal hashes are not equal pixels: a dark red screen replaced by a dark green one is never sent. */
  lemma HashCollisionIsInvisible(w: nat, h: nat)
    ensures var red := Image(0, 0, w, h, (x, y) => Rgb(37 * 256, 0, 0));
            var green := Image(0, 0, w, h, (x, y) => Rgb(0, 31 * 256, 0));
            red.at(0, 0) != green.at(0, 0) && Hashes(red) == Hashes(green)
  {
    var red := Image(0, 0, w, h, (x, y) => Rgb(37 * 256, 0, 0));
    var green := Image(0, 0, w, h, (x, y) => Rgb(0, 31 * 256, 0));
    forall i | 0 <= i < Total(w, h) ensures HashAt(red, i) == HashAt(green, i) {
      SameBlock(red, green, BlockX(red, i), BlockY(red, i), BLOCK_SIZE);
    }
  }

  lemma {:induction false} NothingChanged(flags: seq<bool>)
    requires forall i :: 0 <= i < |flags| ==> !flags[i]
    ensures CountTrue(flags) == 0
  {
    if flags != [] {
      NothingChanged(flags[..|flags| - 1]);
    }
  }

  lemma UnchangedImageSendsNoFullFrame(img: Image, jpeg: Jpeg)
    requires 0 < img.w && 0 < img.h
    ensures var s := State(Some(Hashes(img)), img.w, img.h);
            EncodeStep(s, img, jpeg).0 == s && EncodeStep(s, img, jpeg).1.DeltaFrame?
  {
    var now := Hashes(img);
    NonEmptyGrid(img);
    NothingChanged(Changed(now, now));
    assert SentHashes(now, now, BlockBytes(img, jpeg)) == now;
  }

  lemma FirstFrameLost(shot: Shot)
    requires shot.jpeg.full(shot.img).None? || !shot.arrives
    requires 0 < shot.img.w && 0 < shot.img.h
    ensures Session([shot]) == (State(Some(Hashes(shot.img)), shot.img.w, shot.img.h), None)
  {
    assert [shot][..0] == [];
    assert Session([]) == (INITIAL, None);
  }

  /** The hashes advance even when the full JPEG fails or is lost, so as long as the image stays the
      same the viewer is never sent anything. */
  lemma {:induction false} LostFullFrameIsNotRepaired(shots: seq<Shot>, img: Image)
    requires 0 < img.w && 0 < img.h && shots != [] && (shots[0].jpeg.full(img).None? || !shots[0].arrives)
    requires forall k :: 0 <= k < |shots| ==> shots[k].img == img
    ensures Session(shots) == (State(Some(Hashes(img)), img.w, img.h), None)
  {
    if |shots| == 1 {
      FirstFrameLost(shots[0]);
      assert shots == [shots[0]];
    } else {
      LostFullFrameIsNotRepaired(shots[..|shots| - 1], img);
      UnchangedImageSendsNoFullFrame(img, shots[|shots| - 1].jpeg);
    }
  }
}
