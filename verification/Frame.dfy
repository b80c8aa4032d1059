/**
 * The binary frame: BuildFrame and ParseFrame in Go (apps/agent/internal/stream/protocol.go)
 * and parseFrame in TypeScript (apps/web/hooks/use-streaming.ts).
 */
module Frame {
  import opened Bytes

  const FRAME_VERSION: byte := 1
  const HEADER_SIZE := 8
  const TWO_TO_THE_32 := 0x1_0000_0000

  /** Payload lengths from here on make headerSize + payloadLen wrap around in uint32. */
  const WRAP_LIMIT := TWO_TO_THE_32 - HEADER_SIZE

  function FrameOf(frameType: byte, payload: seq<byte>): seq<byte> {
    [FRAME_VERSION, frameType, 0, 0] + U32(|payload|) + payload
  }

  method BuildFrame(frameType: byte, payload: seq<byte>) returns (result: array<byte>)
    ensures fresh(result) && result[..] == FrameOf(frameType, payload)
  {
    var header := new byte[HEADER_SIZE](_ => 0);
    header[0] := FRAME_VERSION;
    header[1] := frameType;
    var len := U32(|payload|);
    forall i | 0 <= i < 4 { header[4 + i] := len[i]; }
    result := new byte[HEADER_SIZE + |payload|](_ => 0);
    forall i | 0 <= i < HEADER_SIZE { result[i] := header[i]; }
    forall i | 0 <= i < |payload| { result[HEADER_SIZE + i] := payload[i]; }
  }

  /** Go's results; the last one is the run-time error of a slice whose bounds are reversed. */
  datatype ParseResult = Parsed(frameType: byte, payload: seq<byte>) | TooShort | Incomplete | SliceOutOfRange

  function ParseFrame(data: seq<byte>): ParseResult {
    if |data| < HEADER_SIZE then TooShort
    else
      var payloadLen := ReadU32(data[4..8]);
      var end := (HEADER_SIZE + payloadLen) % TWO_TO_THE_32;
      if |data| % TWO_TO_THE_32 < end then Incomplete
      else if end < HEADER_SIZE then SliceOutOfRange
      else Parsed(data[1], data[HEADER_SIZE..end])
  }

  datatype TsResult = Frame(frameType: byte, payload: seq<byte>) | Null

  /** JavaScript adds in doubles: no wrap-around. */
  function ParseFrameTs(buf: seq<byte>): TsResult {
    if |buf| < HEADER_SIZE then Null
    else
      var payloadLen := ReadU32(buf[4..8]);
      if |buf| < HEADER_SIZE + payloadLen then Null
      else Frame(buf[1], buf[HEADER_SIZE..HEADER_SIZE + payloadLen])
  }

  lemma FrameParts(frameType: byte, payload: seq<byte>)
    ensures var f := FrameOf(frameType, payload);
            && |f| == HEADER_SIZE + |payload| && f[1] == frameType && f[HEADER_SIZE..] == payload
            && ReadU32(f[4..8]) == |payload| % TWO_TO_THE_32
  {
    var f := FrameOf(frameType, payload);
    assert f[4..8] == U32(|payload|);
    U32RoundTrip(|payload|);
  }

  /** The frame byte by byte: version 1, the type, two zero bytes, the payload's length in four bytes, most significant
      first, and the payload. */
  lemma FrameBytes(frameType: byte, payload: seq<byte>)
    ensures var f := FrameOf(frameType, payload);
            && |f| == 8 + |payload| && f[8..] == payload
            && f[0] == 1 && f[1] == frameType && f[2] == 0 && f[3] == 0
            && f[4] as int * 0x100_0000 + f[5] as int * 0x1_0000 + f[6] as int * 256 + f[7] as int
               == |payload| % 0x1_0000_0000
  {
    FrameParts(frameType, payload);
    var f := FrameOf(frameType, payload);
    assert f[4..8][2..] == [f[6], f[7]];
  }

  lemma ParsedIsShort(data: seq<byte>)
    requires ParseFrame(data).Parsed?
    ensures |ParseFrame(data).payload| < WRAP_LIMIT
  {}

  lemma ShortIsParsed(data: seq<byte>)
    requires HEADER_SIZE <= |data| < TWO_TO_THE_32 && ReadU32(data[4..8]) == |data| - HEADER_SIZE
    ensures ParseFrame(data) == Parsed(data[1], data[HEADER_SIZE..])
  {}

  lemma BuiltForGo(frameType: byte, payload: seq<byte>)
    ensures ParseFrame(FrameOf(frameType, payload)) == Parsed(frameType, payload) <==> |payload| < WRAP_LIMIT
  {
    var f := FrameOf(frameType, payload);
    FrameParts(frameType, payload);
    if |payload| < WRAP_LIMIT {
      ShortIsParsed(f);
    } else if ParseFrame(f).Parsed? {
      ParsedIsShort(f);
    }
  }

  lemma BuiltForTs(frameType: byte, payload: seq<byte>)
    ensures ParseFrameTs(FrameOf(frameType, payload)) == Frame(frameType, payload) <==> |payload| < TWO_TO_THE_32
  {
    FrameParts(frameType, payload);
    var f := FrameOf(frameType, payload);
    assert |payload| < TWO_TO_THE_32 ==> f[HEADER_SIZE..HEADER_SIZE + |payload|] == payload;
  }

  /** Both readers give back exactly what was built, and the Go one does so only below the wrap limit. */
  lemma BuildThenParse(frameType: byte, payload: seq<byte>)
    ensures ParseFrame(FrameOf(frameType, payload)) == Parsed(frameType, payload) <==> |payload| < WRAP_LIMIT
    ensures ParseFrameTs(FrameOf(frameType, payload)) == Frame(frameType, payload) <==> |payload| < TWO_TO_THE_32
  {
    BuiltForGo(frameType, payload);
    BuiltForTs(frameType, payload);
  }

  /** A parsed payload has the announced length: the sum has not wrapped. */
  lemma ParsedLength(data: seq<byte>)
    requires ParseFrame(data).Parsed?
    ensures var r := ParseFrame(data);
            |r.payload| == ReadU32(data[4..8]) && HEADER_SIZE + |r.payload| <= |data|
            && r.payload == data[HEADER_SIZE..HEADER_SIZE + |r.payload|]
  {}

  /** Rebuilding a parsed frame gives the bytes it was parsed from, exactly if these had the version and the zero
      bytes that the parser does not look at. */
  lemma ParseThenBuild(data: seq<byte>)
    requires ParseFrame(data).Parsed?
    ensures var r := ParseFrame(data);
            && HEADER_SIZE + |r.payload| <= |data|
            && FrameOf(r.frameType, r.payload) == [FRAME_VERSION, data[1], 0, 0] + data[4..HEADER_SIZE + |r.payload|]
            && (FrameOf(r.frameType, r.payload) == data[..HEADER_SIZE + |r.payload|]
                <==> data[0] == FRAME_VERSION && data[2] == 0 && data[3] == 0)
  {
    ParsedLength(data);
    U32Inverse(data[4..8]);
    var r := ParseFrame(data);
    var rest := data[4..HEADER_SIZE + |r.payload|];
    assert rest == data[4..8] + r.payload;
    assert data[..HEADER_SIZE + |r.payload|] == data[..4] + rest;
    SameHead([FRAME_VERSION, data[1], 0, 0], data[..4], rest);
  }

  lemma SameHead(a: seq<byte>, b: seq<byte>, rest: seq<byte>)
    requires |a| == |b|
    ensures a + rest == b + rest <==> a == b
  {
    assert (a + rest)[..|a|] == a && (b + rest)[..|b|] == b;
  }

  ghost predicate Agree(go: ParseResult, ts: TsResult) {
    match go
    case Parsed(t, p) => ts == Frame(t, p)
    case TooShort => ts == Null
    case Incomplete => ts == Null
    case SliceOutOfRange => false
  }

  /** On any input whatever, when the two parsers give the same answer: neither the announced length nor, for buffers
      of 4 GiB and more, the buffer's own length may wrap in a way that matters. */
  lemma ParsersAgreeExactly(data: seq<byte>)
    ensures Agree(ParseFrame(data), ParseFrameTs(data))
       <==> |data| < HEADER_SIZE
            || var announced, size := ReadU32(data[4..8]), |data| % TWO_TO_THE_32;
               if announced < WRAP_LIMIT
               then |data| < TWO_TO_THE_32 || size >= HEADER_SIZE + announced
               else size < announced - WRAP_LIMIT && |data| < HEADER_SIZE + announced
  {}

  /** Below 4 GiB: exactly when the announced length does not wrap. */
  lemma ShortBuffersAgree(data: seq<byte>)
    requires |data| < TWO_TO_THE_32
    ensures Agree(ParseFrame(data), ParseFrameTs(data))
       <==> |data| < HEADER_SIZE || ReadU32(data[4..8]) < WRAP_LIMIT
  {
    ParsersAgreeExactly(data);
  }
}
