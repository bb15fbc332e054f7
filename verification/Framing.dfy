/**
  The length-prefixed framing between the bot and the signer: the reference decoder, the signer's
  socket handler and the client's reply handler, under arbitrary chunking of the byte stream.
 */
module Framing {
  import opened Options

  type Byte = b: int | 0 <= b < 256
  type Bytes = seq<Byte>

  const LIMIT: nat := 0x1_0000_0000

  // ---------- the wire format ----------

  /** `writeUInt32BE`. */
  function Header(n: nat): (h: Bytes)
    requires n < LIMIT
    ensures |h| == 4 && ReadLength(h) == n
    ensures n == h[0] as int * 0x1000000 + h[1] as int * 0x10000 + h[2] as int * 0x100 + h[3] as int // most significant byte first
  {
    var q1: nat, q2: nat, q3: nat := n / 256, n / 256 / 256, n / 256 / 256 / 256;
    var h: Bytes := [q3, q2 % 256, q1 % 256, n % 256];
    h
  }

  /** `readUInt32BE(0)`. */
  function ReadLength(b: Bytes): (n: nat)
    requires |b| >= 4
    ensures n < LIMIT
    ensures n == b[0] as int * 0x1000000 + b[1] as int * 0x10000 + b[2] as int * 0x100 + b[3] as int
  {
    var b0: int, b1: int, b2: int, b3: int := b[0], b[1], b[2], b[3];
    ((b0 * 256 + b1) * 256 + b2) * 256 + b3
  }

  /** `payload` is the first frame of the stream, said of its bytes: four bytes of length, the most
      significant first, and then that many bytes. */
  ghost predicate StartsWithFrame(b: Bytes, payload: Bytes) {
    && |b| >= 4 + |payload|
    && |payload| == b[0] as int * 0x1000000 + b[1] as int * 0x10000 + b[2] as int * 0x100 + b[3] as int
    && b[4..4 + |payload|] == payload
  }

  function Frame(payload: Bytes): Bytes
    requires |payload| < LIMIT
  {
    Header(|payload|) + payload
  }

  /** A complete frame is at the front of the stream. */
  predicate HasFrame(b: Bytes) {
    |b| >= 4 && |b| >= 4 + ReadLength(b)
  }

  function FirstPayload(b: Bytes): (p: Bytes)
    requires HasFrame(b)
    ensures |p| < LIMIT
  {
    b[4..4 + ReadLength(b)]
  }

  function AfterFirst(b: Bytes): Bytes
    requires HasFrame(b)
  {
    b[4 + ReadLength(b)..]
  }

  lemma FrameOfBytes(b: Bytes)
    ensures HasFrame(b) <==> exists p :: StartsWithFrame(b, p)
    ensures HasFrame(b) ==> StartsWithFrame(b, FirstPayload(b)) && AfterFirst(b) == b[4 + |FirstPayload(b)|..]
    ensures forall p :: StartsWithFrame(b, p) ==> p == FirstPayload(b)
  {
    if HasFrame(b) { assert StartsWithFrame(b, FirstPayload(b)); }
  }

  /** What a decoder that loops until no complete frame is left yields. */
  function DecodeAll(b: Bytes): (frames: seq<Bytes>)
    decreases |b|
  {
    if HasFrame(b) then [FirstPayload(b)] + DecodeAll(AfterFirst(b)) else []
  }

  predicate AllShort(frames: seq<Bytes>) {
    forall i :: 0 <= i < |frames| ==> |frames[i]| < LIMIT
  }

  function EncodeAll(frames: seq<Bytes>): Bytes
    requires AllShort(frames)
  {
    if frames == [] then [] else Frame(frames[0]) + EncodeAll(frames[1..])
  }

  function Concat(chunks: seq<Bytes>): Bytes
    decreases |chunks|
  {
    if chunks == [] then [] else Concat(chunks[..|chunks| - 1]) + chunks[|chunks| - 1]
  }

  /** The header determines the length and the length the header. */
  lemma HeaderOfLength(b: Bytes)
    requires |b| >= 4
    ensures Header(ReadLength(b)) == b[..4]
  {
    var n := ReadLength(b);
    var b0: int, b1: int, b2: int := b[0], b[1], b[2];
    assert n / 256 == (b0 * 256 + b1) * 256 + b2;
    assert n / 256 / 256 == b0 * 256 + b1;
  }

  lemma ConcatLast(chunks: seq<Bytes>, chunk: Bytes)
    ensures Concat(chunks + [chunk]) == Concat(chunks) + chunk && Concat([chunk]) == chunk
  {
    assert (chunks + [chunk])[..|chunks|] == chunks;
    assert [chunk][..0] == [] && Concat([]) + chunk == chunk;
  }

  lemma HeaderSplits(b: Bytes)
    requires |b| >= 4
    ensures Header(ReadLength(b)) + b[4..] == b
  {
    HeaderOfLength(b);
  }

  /** A header followed by bytes, complete or not. */
  lemma HeaderThenBody(n: nat, body: Bytes)
    requires n < LIMIT
    ensures var b := Header(n) + body;
      && (HasFrame(b) <==> |body| >= n)
      && (|body| >= n ==> FirstPayload(b) == body[..n] && AfterFirst(b) == body[n..])
  {
    var b := Header(n) + body;
    assert b[..4] == Header(n);
    assert ReadLength(b) == ReadLength(Header(n));
    if |body| >= n { assert b[4..4 + n] == body[..n]; }
  }

  /** Framing a payload and reading it back, whatever follows. */
  lemma FrontFrame(payload: Bytes, rest: Bytes)
    requires |payload| < LIMIT
    ensures HasFrame(Frame(payload) + rest)
    ensures FirstPayload(Frame(payload) + rest) == payload && AfterFirst(Frame(payload) + rest) == rest
  {
    HeaderThenBody(|payload|, payload + rest);
    assert Frame(payload) + rest == Header(|payload|) + (payload + rest);
  }

  /** Cutting off the first frame loses nothing. */
  lemma FirstFrameSplits(b: Bytes)
    requires HasFrame(b)
    ensures Frame(FirstPayload(b)) + AfterFirst(b) == b
  {
    HeaderOfLength(b);
    assert b == b[..4] + b[4..4 + ReadLength(b)] + b[4 + ReadLength(b)..];
  }

  lemma DecodeFront(payload: Bytes, rest: Bytes)
    requires |payload| < LIMIT
    ensures DecodeAll(Frame(payload) + rest) == [payload] + DecodeAll(rest)
  {
    FrontFrame(payload, rest);
  }

  /** Decoding inverts encoding: any list of frames followed by any bytes. */
  lemma {:induction false} DecodeInvertsEncode(frames: seq<Bytes>, rest: Bytes)
    requires AllShort(frames)
    ensures DecodeAll(EncodeAll(frames) + rest) == frames + DecodeAll(rest)
    decreases |frames|
  {
    if frames == [] {
      assert EncodeAll(frames) + rest == rest;
    } else {
      var tail := EncodeAll(frames[1..]) + rest;
      assert EncodeAll(frames) + rest == Frame(frames[0]) + tail;
      calc {
        DecodeAll(Frame(frames[0]) + tail);
        { DecodeFront(frames[0], tail); }
        [frames[0]] + DecodeAll(tail);
        { DecodeInvertsEncode(frames[1..], rest); }
        [frames[0]] + (frames[1..] + DecodeAll(rest));
        frames + DecodeAll(rest);
      }
    }
  }

  lemma {:induction false} EncodeAppend(frames: seq<Bytes>, last: Bytes)
    requires AllShort(frames) && |last| < LIMIT
    ensures EncodeAll(frames + [last]) == EncodeAll(frames) + Frame(last)
    decreases |frames|
  {
    if frames == [] {
      assert (frames + [last])[1..] == [];
    } else {
      assert (frames + [last])[1..] == frames[1..] + [last];
      EncodeAppend(frames[1..], last);
    }
  }

  // ---------- the signer's socket handler ----------

  class SignerConnection {
    var buffer: Bytes
    var expectedLen: int

    ghost predicate Valid()
      reads this
    {
      -1 <= expectedLen < LIMIT
    }

    /** Bytes received and not yet emitted: the header already read, if any, and the buffer. */
    ghost function Pending(): Bytes
      reads this
      requires Valid()
    {
      if expectedLen < 0 then buffer else Header(expectedLen) + buffer
    }

    constructor ()
      ensures Valid() && Pending() == []
    {
      buffer, expectedLen := [], -1;
    }

    /** One data event: emits the first complete frame of all pending bytes, and only that one. */
    method OnData(chunk: Bytes) returns (payload: Option<Bytes>)
      requires Valid()
      modifies this
      ensures Valid()
      ensures payload.Some? <==> exists p :: StartsWithFrame(old(Pending()) + chunk, p)
      ensures payload.Some? ==> StartsWithFrame(old(Pending()) + chunk, payload.value)
      ensures payload.Some? ==> Pending() == (old(Pending()) + chunk)[4 + |payload.value|..]
      ensures payload.Some? <==> HasFrame(old(Pending()) + chunk)
      ensures payload.None? ==> Pending() == old(Pending()) + chunk
      ensures payload.Some? ==>
        payload.value == FirstPayload(old(Pending()) + chunk) && Pending() == AfterFirst(old(Pending()) + chunk)
    {
      ghost var all := Pending() + chunk;
      FrameOfBytes(all);
      buffer := buffer + chunk;
      if expectedLen < 0 && |buffer| >= 4 {
        HeaderSplits(buffer);
        expectedLen := ReadLength(buffer);
        buffer := buffer[4..];
      }
      assert all == if expectedLen < 0 then buffer else Header(expectedLen) + buffer;
      payload := None;
      if expectedLen >= 0 {
        HeaderThenBody(expectedLen, buffer);
      }
      if expectedLen >= 0 && |buffer| >= expectedLen {
        payload := Some(buffer[..expectedLen]);
        buffer := buffer[expectedLen..];
        expectedLen := -1;
      }
    }
  }

  // ---------- whole runs of the handler ----------

  datatype Served = Served(frames: seq<Bytes>, pending: Bytes)

  /** The run of the handler over a sequence of data events: at most one frame per event. */
  function Serve(chunks: seq<Bytes>): (r: Served)
    ensures AllShort(r.frames)
    decreases |chunks|
  {
    if chunks == [] then Served([], [])
    else
      var before := Serve(chunks[..|chunks| - 1]);
      var all := before.pending + chunks[|chunks| - 1];
      if HasFrame(all) then Served(before.frames + [FirstPayload(all)], AfterFirst(all))
      else Served(before.frames, all)
  }

  method ServeStream(chunks: seq<Bytes>) returns (frames: seq<Bytes>, ghost pending: Bytes)
    ensures frames == Serve(chunks).frames
    ensures pending == Serve(chunks).pending
  {
    var connection := new SignerConnection();
    frames := [];
    for i := 0 to |chunks|
      invariant fresh(connection) && connection.Valid()
      invariant Serve(chunks[..i]) == Served(frames, connection.Pending())
    {
      assert chunks[..i + 1][..i] == chunks[..i];
      var payload := connection.OnData(chunks[i]);
      if payload.Some? {
        frames := frames + [payload.value];
      }
    }
    assert chunks[..|chunks|] == chunks;
    pending := connection.Pending();
  }

  lemma Associative(a: Bytes, b: Bytes, c: Bytes)
    ensures (a + b) + c == a + (b + c)
  {
  }

  /** No byte is lost, duplicated or reordered, for every chunking. */
  lemma {:induction false} BytesAreConserved(chunks: seq<Bytes>)
    ensures EncodeAll(Serve(chunks).frames) + Serve(chunks).pending == Concat(chunks)
    decreases |chunks|
  {
    if chunks != [] {
      var init, last := chunks[..|chunks| - 1], chunks[|chunks| - 1];
      BytesAreConserved(init);
      var before := Serve(init);
      var all := before.pending + last;
      Associative(EncodeAll(before.frames), before.pending, last);
      if HasFrame(all) {
        FirstFrameSplits(all);
        EncodeAppend(before.frames, FirstPayload(all));
        Associative(EncodeAll(before.frames), Frame(FirstPayload(all)), AfterFirst(all));
      }
    }
  }

  /** For every chunking, what was emitted is a prefix of what the full decoder yields, and what
      is missing is exactly what the full decoder would still find in the pending bytes. */
  lemma EmittedIsPrefix(chunks: seq<Bytes>)
    ensures DecodeAll(Concat(chunks)) == Serve(chunks).frames + DecodeAll(Serve(chunks).pending)
  {
    BytesAreConserved(chunks);
    DecodeInvertsEncode(Serve(chunks).frames, Serve(chunks).pending);
  }

  /** Frames complete in the stream up to event `i`. */
  function Complete(chunks: seq<Bytes>, i: nat): nat
    requires i <= |chunks|
  {
    |DecodeAll(Concat(chunks[..i]))|
  }

  function Emitted(chunks: seq<Bytes>, i: nat): nat
    requires i <= |chunks|
  {
    |Serve(chunks[..i]).frames|
  }

  lemma OneEvent(chunks: seq<Bytes>, i: nat)
    requires i < |chunks|
    ensures Emitted(chunks, i) <= Complete(chunks, i) && Emitted(chunks, i + 1) <= Complete(chunks, i + 1)
    ensures Emitted(chunks, i + 1) ==
      if Complete(chunks, i + 1) > Emitted(chunks, i) then Emitted(chunks, i) + 1 else Emitted(chunks, i)
  {
    var now, before := chunks[..i + 1], chunks[..i];
    assert now[..i] == before;
    EmittedIsPrefix(before);
    EmittedIsPrefix(now);
  }

  /** The handler has emitted every complete frame after every event, exactly when no event
      completes more than one frame. */
  lemma KeepsUpExactly(chunks: seq<Bytes>)
    ensures (forall i :: 0 <= i <= |chunks| ==> Emitted(chunks, i) == Complete(chunks, i))
      <==> (forall i :: 0 <= i < |chunks| ==> Complete(chunks, i + 1) <= Complete(chunks, i) + 1)
  {
    if forall i :: 0 <= i < |chunks| ==> Complete(chunks, i + 1) <= Complete(chunks, i) + 1 {
      assert chunks[..0] == [];
      for i := 0 to |chunks|
        invariant forall j :: 0 <= j <= i ==> Emitted(chunks, j) == Complete(chunks, j)
      {
        OneEvent(chunks, i);
      }
    }
    if forall i :: 0 <= i <= |chunks| ==> Emitted(chunks, i) == Complete(chunks, i) {
      forall i | 0 <= i < |chunks| ensures Complete(chunks, i + 1) <= Complete(chunks, i) + 1 {
        OneEvent(chunks, i);
        assert Emitted(chunks, i + 1) == Complete(chunks, i + 1);
      }
    }
  }

  /** Two frames that arrive in one event: the second stays behind, for any two payloads. */
  lemma TwoFramesInOneEvent(a: Bytes, b: Bytes)
    requires |a| < LIMIT && |b| < LIMIT
    ensures Serve([Frame(a) + Frame(b)]) == Served([a], Frame(b))
    ensures DecodeAll(Concat([Frame(a) + Frame(b)])) == [a, b]
  {
    var chunk := Frame(a) + Frame(b);
    var none: Bytes, chunks: seq<Bytes> := [], [chunk];
    assert chunks[..0] == [] && none + chunk == chunk;
    FrontFrame(a, Frame(b));
    DecodeFront(a, Frame(b));
    assert Frame(b) == Frame(b) + [];
    DecodeFront(b, []);
  }

  /** The bytes on the wire of a five-byte payload, and what one event with them emits. */
  lemma HelloOnTheWire()
    ensures Frame([104, 101, 108, 108, 111]) == [0, 0, 0, 5, 104, 101, 108, 108, 111]
    ensures Serve([[0, 0, 0, 5, 104, 101, 108, 108, 111]]) == Served([[104, 101, 108, 108, 111]], [])
  {
    var hello: Bytes, wire: Bytes := [104, 101, 108, 108, 111], [0, 0, 0, 5, 104, 101, 108, 108, 111];
    var header: Bytes, chunks: seq<Bytes> := [0, 0, 0, 5], [wire];
    assert ReadLength(header) == 5;
    HeaderOfLength(header);
    assert Frame(hello) == wire;
    ConcatLast([], wire);
    SingleFrameServed(hello, chunks);
  }

  lemma {:induction false} NothingEmittedMeansNothingComplete(chunks: seq<Bytes>)
    ensures Serve(chunks).frames == [] ==> !HasFrame(Serve(chunks).pending)
    decreases |chunks|
  {
    if chunks != [] { NothingEmittedMeansNothingComplete(chunks[..|chunks| - 1]); }
  }

  /** A single request, cut into chunks in any way, comes out whole and leaves nothing behind. */
  lemma SingleFrameServed(payload: Bytes, chunks: seq<Bytes>)
    requires |payload| < LIMIT && Concat(chunks) == Frame(payload)
    ensures Serve(chunks) == Served([payload], [])
  {
    var r := Serve(chunks);
    EmittedIsPrefix(chunks);
    NothingEmittedMeansNothingComplete(chunks);
    BytesAreConserved(chunks);
    FrontFrame(payload, []);
    assert Frame(payload) + [] == Frame(payload);
    DecodeFront(payload, []);
    assert r.frames != [];
    assert r.frames[0] == payload && |r.frames| == 1;
    assert r.frames == [payload];
    assert EncodeAll(r.frames[1..]) == [];
    assert EncodeAll(r.frames) == Frame(payload);
    assert |r.pending| == 0;
  }

  // ---------- the client's reply handler ----------

  class ReplyReader {
    var chunks: seq<Bytes>
    var expectedLen: int
    var received: int

    ghost predicate Valid()
      reads this
    {
      -1 <= expectedLen < LIMIT && received == |Concat(chunks)|
    }

    ghost function Pending(): Bytes
      reads this
      requires Valid()
    {
      if expectedLen < 0 then Concat(chunks) else Header(expectedLen) + Concat(chunks)
    }

    constructor ()
      ensures Valid() && Pending() == []
    {
      chunks, expectedLen, received := [], -1, 0;
    }

    /** Resolves with the first frame of everything received, as soon as it is complete. */
    method OnData(chunk: Bytes) returns (reply: Option<Bytes>)
      requires Valid()
      modifies this
      ensures Valid() && Pending() == old(Pending()) + chunk
      ensures reply.Some? <==> exists p :: StartsWithFrame(Pending(), p)
      ensures reply.Some? ==> StartsWithFrame(Pending(), reply.value)
      ensures reply == if HasFrame(Pending()) then Some(FirstPayload(Pending())) else None
    {
      ghost var all := Pending() + chunk;
      FrameOfBytes(all);
      ConcatLast(chunks, chunk);
      Associative(if expectedLen < 0 then [] else Header(expectedLen), Concat(chunks), chunk);
      chunks := chunks + [chunk];
      received := received + |chunk|;
      if expectedLen < 0 && received >= 4 {
        var header := Concat(chunks);
        HeaderSplits(header);
        ConcatLast([], header[4..]);
        expectedLen := ReadLength(header);
        chunks := [header[4..]];
        received := received - 4;
      }
      assert all == Pending();
      reply := None;
      if expectedLen >= 0 {
        var body := Concat(chunks);
        HeaderThenBody(expectedLen, body);
        if received >= expectedLen {
          reply := Some(body[..expectedLen]);
        }
      }
    }
  }

  /** More bytes do not change the first frame. */
  lemma FirstFrameIsStable(b: Bytes, more: Bytes)
    requires HasFrame(b)
    ensures HasFrame(b + more) && FirstPayload(b + more) == FirstPayload(b)
  {
  }

  /** Reads data events until the reply is complete: it is the first frame of the whole stream,
      however the stream is cut. */
  method ReadReply(chunks: seq<Bytes>) returns (reply: Option<Bytes>)
    ensures reply.Some? ==> StartsWithFrame(Concat(chunks), reply.value)
    ensures reply.None? ==> !exists p :: StartsWithFrame(Concat(chunks), p)
    ensures reply == if HasFrame(Concat(chunks)) then Some(FirstPayload(Concat(chunks))) else None
  {
    var reader := new ReplyReader();
    reply := None;
    for i := 0 to |chunks|
      invariant fresh(reader) && reader.Valid()
      invariant reply.None? ==> reader.Pending() == Concat(chunks[..i])
      invariant reply == if HasFrame(Concat(chunks[..i])) then Some(FirstPayload(Concat(chunks[..i]))) else None
    {
      assert chunks[..i + 1][..i] == chunks[..i];
      if reply.None? {
        reply := reader.OnData(chunks[i]);
      } else {
        FirstFrameIsStable(Concat(chunks[..i]), chunks[i]); // the socket has been destroyed
      }
    }
    assert chunks[..|chunks|] == chunks;
    FrameOfBytes(Concat(chunks));
  }

  /** Request to the signer and reply to the client, each framed and cut arbitrarily, arrive whole. */
  method Exchange(request: Bytes, requestChunks: seq<Bytes>, response: Bytes, responseChunks: seq<Bytes>)
    returns (served: seq<Bytes>, reply: Option<Bytes>)
    requires |request| < LIMIT && Concat(requestChunks) == Frame(request)
    requires |response| < LIMIT && Concat(responseChunks) == Frame(response)
    ensures served == [request] && reply == Some(response)
  {
    ghost var pending;
    served, pending := ServeStream(requestChunks);
    SingleFrameServed(request, requestChunks);
    reply := ReadReply(responseChunks);
    FrontFrame(response, []);
    assert Frame(response) + [] == Frame(response);
  }
}
