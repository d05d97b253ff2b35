/** Frames on the serial line: prefix byte, big-endian length of what follows, payload,
    big-endian checksum of length and payload. */
module Framing {
  import opened Bytes
  import opened Crc16

  const FRAME_PREFIX: Byte := 0xD6
  const PROBE_PREFIX: Byte := 0xD5

  /** A 16-bit length, big-endian; the program truncates to 16 bits. */
  function LengthBytes(n: nat): seq<Byte> {
    [n / 256 % 256, n % 256]
  }

  function LengthOf(high: nat, low: nat): nat {
    256 * high + low
  }

  predicate Prefixed(payload: seq<Byte>)
    requires payload != []
  {
    payload[0] == FRAME_PREFIX || payload[0] == PROBE_PREFIX
  }

  /** The bytes put on the line for a command: one that already starts with a prefix
      goes out as it is. */
  function Frame(payload: seq<Byte>): seq<Byte>
    requires payload != []
  {
    if Prefixed(payload) then payload
    else
      var body := LengthBytes(|payload| + 2) + payload;
      [FRAME_PREFIX] + body + WordBytes(Checksum(body))
  }

  /** One frame taken off the front of a byte stream, and what is left of the stream. The
      length and the checksum are judged only when all the bytes are there. */
  function Unframe(stream: seq<Byte>): (Result<seq<Byte>>, seq<Byte>) {
    if |stream| < 3 then (Err, [])
    else
      var n := LengthOf(stream[1], stream[2]);
      var rest := stream[3..];
      if n < 2 then (Err, rest)
      else if |rest| < n then (Err, [])
      else if Accepts(stream[1..3], rest[..n]) then (Ok(rest[..n - 2]), rest[n..])
      else (Err, rest[n..])
  }

  function UnframeAll(stream: seq<Byte>, count: nat): Result<seq<seq<Byte>>>
    decreases count
  {
    if count == 0 then if stream == [] then Ok([]) else Err
    else
      var (first, rest) := Unframe(stream);
      if first.Err? then Err
      else
        var others := UnframeAll(rest, count - 1);
        if others.Err? then Err else Ok([first.value] + others.value)
  }

  function FrameAll(payloads: seq<seq<Byte>>): seq<Byte>
    requires forall i :: 0 <= i < |payloads| ==> payloads[i] != []
  {
    if payloads == [] then [] else Frame(payloads[0]) + FrameAll(payloads[1..])
  }

  // ---------------------------------------------------------------- the port

  /** What one read of the port can meet: some bytes, a time-out with none, or an error. */
  datatype Arrival = Data(bytes: seq<Byte>) | Quiet | Broken

  /** The bytes that arrive before the port breaks. */
  function Arriving(script: seq<Arrival>): seq<Byte> {
    if script == [] then []
    else match script[0]
      case Data(bytes) => bytes + Arriving(script[1..])
      case Quiet => Arriving(script[1..])
      case Broken => []
  }

  lemma JudgedBody(stream: seq<Byte>, header: seq<Byte>, body: seq<Byte>)
    requires |stream| >= 3 && header == stream[..3]
    requires 2 <= LengthOf(header[1], header[2]) == |body| <= |stream[3..]|
    requires body == stream[3..][..|body|]
    ensures var payload := body[..|body| - 2];
            var passes := WordBytes(Checksum(header[1..3] + payload)) == body[|body| - 2..];
            Unframe(stream) == (if passes then Ok(payload) else Err, stream[3..][|body|..])
  {
    assert header[1..3] == stream[1..3];
    assert stream[3..][..|body| - 2] == body[..|body| - 2];
  }

  /** How much reading is left in a script. */
  function Remaining(script: seq<Arrival>): nat {
    if script == [] then 0
    else (if script[0].Data? then 1 + |script[0].bytes| else 1) + Remaining(script[1..])
  }

  /** The serial port. What will arrive, in which pieces and with which pauses, is fixed
      by the environment; when nothing more will ever arrive the port is closed, and
      reading it is an error. */
  class Port {
    var script: seq<Arrival>

    constructor (script: seq<Arrival>)
      ensures this.script == script
    {
      this.script := script;
    }

    /** Read at most max bytes; a time-out reads none. */
    method Read(max: nat) returns (r: Result<seq<Byte>>)
      requires max > 0
      modifies this
      ensures r.Ok? ==> |r.value| <= max && Arriving(old(script)) == r.value + Arriving(script)
      ensures r.Ok? ==> Remaining(script) < Remaining(old(script))
      ensures r.Err? ==> Arriving(script) == [] && script == old(script)
    {
      if script == [] {
        return Err;
      }
      match script[0] {
        case Broken => r := Err;
        case Quiet =>
          script := script[1..];
          r := Ok([]);
        case Data(bytes) =>
          if |bytes| <= max {
            script := script[1..];
            r := Ok(bytes);
          } else {
            assert bytes == bytes[..max] + bytes[max..];
            script := [Data(bytes[max..])] + script[1..];
            r := Ok(bytes[..max]);
          }
      }
    }

    /** Keep reading until size bytes are there: the loop around both reads of a frame. */
    method ReadFull(size: nat) returns (r: Result<seq<Byte>>)
      modifies this
      ensures r.Ok? <==> size <= |Arriving(old(script))|
      ensures r.Ok? ==> r.value == Arriving(old(script))[..size]
      ensures r.Ok? ==> Arriving(script) == Arriving(old(script))[size..]
      ensures r.Err? ==> Arriving(script) == []
    {
      var buffer := [];
      while |buffer| < size
        invariant |buffer| <= size
        invariant Arriving(old(script)) == buffer + Arriving(script)
        decreases Remaining(script)
      {
        var piece := Read(size - |buffer|);
        if piece.Err? {
          return Err;
        }
        buffer := buffer + piece.value;
      }
      r := Ok(buffer);
    }

    /** Whatever the pieces in which the bytes arrive, the response read is the first
        frame of the stream, and the rest of the stream is left in place. */
    method ReadResponse(table: seq<Word>) returns (r: Result<seq<Byte>>)
      requires IsTable(table)
      modifies this
      ensures (r, Arriving(script)) == Unframe(Arriving(old(script)))
    {
      ghost var stream := Arriving(script);
      var header := ReadFull(3);
      if header.Err? {
        return Err;
      }
      var n := LengthOf(header.value[1], header.value[2]);
      if n < 2 {
        return Err;
      }
      var body := ReadFull(n);
      if body.Err? {
        return Err;
      }
      var payload := body.value[..n - 2];
      var computed := Compute(table, header.value[1..3] + payload);
      JudgedBody(stream, header.value, body.value);
      if WordBytes(computed) != body.value[n - 2..] {
        return Err;
      }
      r := Ok(payload);
    }
  }

  // ---------------------------------------------------------------- round trips

  lemma StreamParts(prefix: Byte, length: seq<Byte>, body: seq<Byte>, rest: seq<Byte>)
    requires |length| == 2 && |body| >= 2
    ensures var stream, n := [prefix] + length + body + rest, |body|;
            stream[1..3] == length && stream[3..] == body + rest
            && stream[3..][..n] == body && stream[3..][n..] == rest && stream[3..][..n - 2] == body[..n - 2]
  {
    var head := [prefix] + length;
    assert [prefix] + length + body + rest == head + (body + rest);
    assert head[1..3] == length;
  }

  lemma UnframeParts(prefix: Byte, n: nat, body: seq<Byte>, rest: seq<Byte>)
    requires 2 <= n == |body| < 0x1_0000
    ensures Unframe([prefix] + LengthBytes(n) + body + rest)
         == (if Accepts(LengthBytes(n), body) then Ok(body[..n - 2]) else Err, rest)
  {
    hide Accepts;
    var stream := [prefix] + LengthBytes(n) + body + rest;
    StreamParts(prefix, LengthBytes(n), body, rest);
    assert LengthOf(stream[1], stream[2]) == n by {
      assert stream[1] == stream[1..3][0] && stream[2] == stream[1..3][1];
    }
  }

  lemma FrameParts(payload: seq<Byte>, length: seq<Byte>, trailer: seq<Byte>)
    requires payload != [] && !Prefixed(payload)
    requires length == LengthBytes(|payload| + 2) && trailer == WordBytes(Checksum(length + payload))
    ensures Frame(payload) == [FRAME_PREFIX] + length + (payload + trailer)
  {
    hide Checksum, WordBytes, LengthBytes;
    assert [FRAME_PREFIX] + (length + payload) + trailer == [FRAME_PREFIX] + length + (payload + trailer);
  }

  lemma OwnChecksum(length: seq<Byte>, payload: seq<Byte>)
    ensures Accepts(length, payload + WordBytes(Checksum(length + payload)))
  {
    var body := payload + WordBytes(Checksum(length + payload));
    assert body[..|body| - 2] == payload;
  }

  /** A payload that fits the length field comes back whole, whatever follows it. */
  lemma UnframeFrame(payload: seq<Byte>, rest: seq<Byte>)
    requires payload != [] && !Prefixed(payload) && |payload| <= 65533
    ensures Unframe(Frame(payload) + rest) == (Ok(payload), rest)
  {
    var n := |payload| + 2;
    var length := LengthBytes(n);
    var trailer := WordBytes(Checksum(length + payload));
    OwnChecksum(length, payload);
    UnframeParts(FRAME_PREFIX, n, payload + trailer, rest);
    assert (payload + trailer)[..n - 2] == payload;
    FrameParts(payload, length, trailer);
  }

  /** A framed payload is read back exactly when it fits the 16-bit length field. */
  lemma FramingExact(payload: seq<Byte>)
    requires payload != [] && !Prefixed(payload)
    ensures Unframe(Frame(payload)) == (Ok(payload), []) <==> |payload| <= 65533
  {
    if |payload| <= 65533 {
      UnframeFrame(payload, []);
      assert Frame(payload) + [] == Frame(payload);
    }
  }

  /** Any sequence of payloads sent one after the other is read back in order. */
  lemma {:induction false} FramesRoundTrip(payloads: seq<seq<Byte>>)
    requires forall i :: 0 <= i < |payloads| ==>
               payloads[i] != [] && !Prefixed(payloads[i]) && |payloads[i]| <= 65533
    ensures UnframeAll(FrameAll(payloads), |payloads|) == Ok(payloads)
  {
    hide Unframe, Frame;
    if payloads != [] {
      var first, others := payloads[0], payloads[1..];
      FramesRoundTrip(others);
      UnframeFrame(first, FrameAll(others));
      assert Unframe(FrameAll(payloads)) == (Ok(first), FrameAll(others));
      assert [first] + others == payloads;
    }
  }

  /** Frames sent one after the other, arriving in pieces of any size with any pauses, are
      received as the payloads that were sent. */
  method ReceiveAll(port: Port, table: seq<Word>, count: nat, ghost payloads: seq<seq<Byte>>)
    returns (received: seq<Result<seq<Byte>>>)
    requires IsTable(table) && count == |payloads|
    requires forall i :: 0 <= i < |payloads| ==>
               payloads[i] != [] && !Prefixed(payloads[i]) && |payloads[i]| <= 65533
    requires Arriving(port.script) == FrameAll(payloads)
    modifies port
    ensures Arriving(port.script) == []
    ensures |received| == count && forall i :: 0 <= i < count ==> received[i] == Ok(payloads[i])
  {
    hide Unframe, Frame;
    received := [];
    for i := 0 to count
      invariant |received| == i && forall k :: 0 <= k < i ==> received[k] == Ok(payloads[k])
      invariant Arriving(port.script) == FrameAll(payloads[i..])
    {
      UnframeFrame(payloads[i], FrameAll(payloads[i..][1..]));
      assert payloads[i..][1..] == payloads[i + 1..];
      var response := port.ReadResponse(table);
      received := received + [response];
    }
  }

  /** A frame whose payload or checksum was changed within sixteen consecutive bits, its
      length bytes intact, is rejected, and the next frame is found where it starts. */
  lemma {:induction false} CorruptionDetected(payload: seq<Byte>, body: seq<Byte>, prefix: Byte, k: nat,
                                              rest: seq<Byte>)
    requires payload != [] && |payload| <= 65533
    requires var length := LengthBytes(|payload| + 2);
             var sent := payload + WordBytes(Checksum(length + payload));
             |body| == |sent| && body != sent && Burst(Bits(sent), Bits(body), k)
    ensures Unframe([prefix] + LengthBytes(|payload| + 2) + body + rest) == (Err, rest)
  {
    var length := LengthBytes(|payload| + 2);
    OwnChecksum(length, payload);
    BurstDetected(length, payload + WordBytes(Checksum(length + payload)), body, k);
    UnframeParts(prefix, |payload| + 2, body, rest);
  }
}
