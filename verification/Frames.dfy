/** Packets on the wire (header.h, outbound.h, inbound.h of the client): a header of 16 bytes,
    fields least significant byte first, and a body. */
module Frames {
  import opened Bytes

  const PACKET_SIZE := 0xffff
  const HEADER_SIZE := 16
  const RAW_SIZE := 0xffff - 16
  const SEPARATOR := 0xffe3e4e5
  const CRC := 2

  datatype Packet = Packet(id: nat, body: seq<Byte>)

  // ---------- Specification ----------

  function Header(id: nat, bodySize: nat): (h: seq<Byte>)
    ensures |h| == HEADER_SIZE
  {
    LittleEndian(SEPARATOR, 4) + LittleEndian(id, 2) + LittleEndian(0, 2)
    + LittleEndian(HEADER_SIZE + bodySize, 4) + LittleEndian(CRC, 4)
  }

  function Frame(p: Packet): (s: seq<Byte>)
    ensures |s| == HEADER_SIZE + |p.body|
  {
    Header(p.id, |p.body|) + p.body
  }

  function AllFrames(ps: seq<Packet>): seq<Byte> {
    if ps == [] then [] else Frame(ps[0]) + AllFrames(ps[1..])
  }

  /** A packet that `encode` accepts and its buffer holds. */
  predicate Sendable(p: Packet) {
    p.id < 0x1_0000 && 0 < |p.body| <= RAW_SIZE
  }

  function IdOf(h: seq<Byte>): nat
    requires |h| == HEADER_SIZE
  {
    LittleValue(h[4..6])
  }

  /** The size field is cut to 16 bits. */
  function BodySizeOf(h: seq<Byte>): (n: nat)
    requires |h| == HEADER_SIZE
    ensures n < 0x1_0000
  {
    var size := LittleValue(h[8..12]);
    if HEADER_SIZE <= size then (size - HEADER_SIZE) % 0x1_0000 else 0
  }

  function CrcOf(h: seq<Byte>): nat
    requires |h| == HEADER_SIZE
  {
    LittleValue(h[12..])
  }

  datatype Reading = Reading(packets: seq<Packet>, rest: seq<Byte>)

  /** The packets that are complete in a stream, and the bytes after them. */
  function Parse(s: seq<Byte>): Reading {
    if |s| < HEADER_SIZE then Reading([], s)
    else
      var n := BodySizeOf(s[..HEADER_SIZE]);
      if |s| < HEADER_SIZE + n then Reading([], s)
      else
        var more := Parse(s[HEADER_SIZE + n..]);
        Reading([Packet(IdOf(s[..HEADER_SIZE]), s[HEADER_SIZE..HEADER_SIZE + n])] + more.packets, more.rest)
  }

  lemma HeaderFields(id: nat, bodySize: nat)
    requires id < 0x1_0000 && bodySize <= RAW_SIZE
    ensures
      var h := Header(id, bodySize);
      IdOf(h) == id && BodySizeOf(h) == bodySize && CrcOf(h) == CRC
  {
    hide LittleEndian, LittleValue;
    var h := Header(id, bodySize);
    assert h[4..6] == LittleEndian(id, 2) && h[8..12] == LittleEndian(HEADER_SIZE + bodySize, 4);
    assert h[12..] == LittleEndian(CRC, 4);
    assert Power256(2) == 0x1_0000 && Power256(4) == 0x1_0000 * Power256(2);
    LittleRoundTrip(id, 2);
    LittleRoundTrip(HEADER_SIZE + bodySize, 4);
    LittleRoundTrip(CRC, 4);
  }

  /** The packets sent are the packets read, in order, once each; what follows the last complete
      frame is kept. */
  lemma {:induction false} FramesRoundTrip(ps: seq<Packet>, partial: seq<Byte>)
    requires forall i :: 0 <= i < |ps| ==> Sendable(ps[i])
    requires Parse(partial) == Reading([], partial)
    ensures Parse(AllFrames(ps) + partial) == Reading(ps, partial)
  {
    hide Header, BodySizeOf, IdOf;
    if ps == [] {
      assert AllFrames(ps) + partial == partial;
    } else {
      var p, s := ps[0], AllFrames(ps) + partial;
      HeaderFields(p.id, |p.body|);
      assert s == Header(p.id, |p.body|) + p.body + (AllFrames(ps[1..]) + partial);
      assert s[..HEADER_SIZE] == Header(p.id, |p.body|);
      assert s[HEADER_SIZE..HEADER_SIZE + |p.body|] == p.body;
      assert s[HEADER_SIZE + |p.body|..] == AllFrames(ps[1..]) + partial;
      FramesRoundTrip(ps[1..], partial);
      assert [ps[0]] + ps[1..] == ps;
    }
  }

  /** No header in the stream declares more than the buffer holds. */
  predicate Fits(s: seq<Byte>) {
    |s| >= HEADER_SIZE ==>
      var n := BodySizeOf(s[..HEADER_SIZE]);
      n <= RAW_SIZE && (|s| >= HEADER_SIZE + n ==> Fits(s[HEADER_SIZE + n..]))
  }

  lemma {:induction false} FramesFit(ps: seq<Packet>, partial: seq<Byte>)
    requires forall i :: 0 <= i < |ps| ==> Sendable(ps[i])
    requires Fits(partial)
    ensures Fits(AllFrames(ps) + partial)
  {
    hide Header, BodySizeOf;
    if ps == [] {
      assert AllFrames(ps) + partial == partial;
    } else {
      var p, s := ps[0], AllFrames(ps) + partial;
      HeaderFields(p.id, |p.body|);
      assert s == Header(p.id, |p.body|) + p.body + (AllFrames(ps[1..]) + partial);
      assert s[..HEADER_SIZE] == Header(p.id, |p.body|);
      assert s[HEADER_SIZE + |p.body|..] == AllFrames(ps[1..]) + partial;
      FramesFit(ps[1..], partial);
    }
  }

  /** A frame cut short is not a packet yet. */
  lemma PartialFrame(p: Packet, k: nat)
    requires Sendable(p) && k < |Frame(p)|
    ensures Parse(Frame(p)[..k]) == Reading([], Frame(p)[..k])
  {
    hide Header, BodySizeOf, IdOf;
    HeaderFields(p.id, |p.body|);
    if k >= HEADER_SIZE {
      assert Frame(p)[..k][..HEADER_SIZE] == Header(p.id, |p.body|);
    }
  }

  // ---------- The code ----------

  class Outbound {
    var buf_use_size: nat
    const buffers: array<Byte>

    constructor ()
      ensures buf_use_size == 0 && fresh(buffers) && buffers.Length == PACKET_SIZE
    {
      buf_use_size := 0;
      buffers := new Byte[PACKET_SIZE](_ => 0);
    }

    /** `encode`. Nothing is done for an empty body; `encrypt` copies. */
    method Encode(id: nat, body: seq<Byte>)
      requires buffers.Length == PACKET_SIZE && |body| <= RAW_SIZE
      modifies this`buf_use_size, buffers
      ensures body == [] ==> unchanged(this) && unchanged(buffers)
      ensures body != [] ==> buf_use_size == HEADER_SIZE + |body| && buffers[..buf_use_size] == Frame(Packet(id, body))
    {
      if |body| == 0 {
        return;
      }
      hide Header;
      var h := Header(id, |body|);
      forall i | 0 <= i < HEADER_SIZE {
        buffers[i] := h[i];
      }
      forall i | 0 <= i < |body| {
        buffers[HEADER_SIZE + i] := body[i];
      }
      buf_use_size := HEADER_SIZE + |body|;
    }
  }

  class Inbound {
    const header: array<Byte>
    var body_size: nat
    const raw_body: array<Byte>

    predicate Valid()
      reads this
    {
      header.Length == HEADER_SIZE && raw_body.Length == RAW_SIZE && header != raw_body
    }

    constructor ()
      ensures Valid() && fresh(header) && fresh(raw_body)
    {
      header := new Byte[HEADER_SIZE](_ => 0);
      body_size := 0;
      raw_body := new Byte[RAW_SIZE](_ => 0);
    }

    method Init()
      requires Valid()
      modifies this`body_size, header
      ensures body_size == 0
    {
      forall i | 0 <= i < HEADER_SIZE {
        header[i] := 0;
      }
      body_size := 0;
    }

    /** `decide`. */
    method Decide()
      requires Valid()
      modifies this`body_size, raw_body
      ensures body_size == BodySizeOf(header[..])
    {
      hide LittleValue;
      var size := LittleValue(header[8..12]);
      assert header[..][8..12] == header[8..12];
      body_size := if HEADER_SIZE <= size then (size - HEADER_SIZE) % 0x1_0000 else 0;
      if RAW_SIZE > body_size {
        raw_body[body_size] := 0;
      }
    }

    /** `body_decode`: `decrypt` copies, and fails for an empty body. */
    method BodyDecode() returns (ok: bool)
      requires Valid() && body_size <= RAW_SIZE
      modifies raw_body
      ensures ok == (body_size > 0) && raw_body[..] == old(raw_body[..])
    {
      if body_size == 0 {
        return false;
      }
      var res := raw_body[..body_size];
      forall i | 0 <= i < body_size {
        raw_body[i] := res[i];
      }
      return true;
    }

    /** What `async_read` puts into the header, and the part of `read_header` that decides how
        much body to ask for. */
    method ReadHeader(h: seq<Byte>) returns (n: nat)
      requires Valid() && |h| == HEADER_SIZE
      modifies this`body_size, header, raw_body
      ensures header[..] == h && n == body_size == BodySizeOf(h)
    {
      Init();
      forall i | 0 <= i < HEADER_SIZE {
        header[i] := h[i];
      }
      assert header[..] == h;
      Decide();
      return body_size;
    }

    /** What `async_read` puts into the body, and the packet that `read_body` routes, or
        `read_header` when there is no body. */
    method ReadBody(body: seq<Byte>) returns (p: Packet)
      requires Valid() && |body| == body_size <= RAW_SIZE
      modifies raw_body
      ensures p == Packet(IdOf(header[..]), body)
    {
      hide IdOf, CrcOf;
      forall i | 0 <= i < |body| {
        raw_body[i] := body[i];
      }
      if body_size > 0 && CrcOf(header[..]) == CRC {
        var ok := BodyDecode();
      }
      assert raw_body[..body_size] == raw_body[..][..body_size] == body;
      return Packet(IdOf(header[..]), raw_body[..body_size]);
    }
  }

  /** The read loop of the session on the bytes that arrive, `async_read` taking exactly as many
      as it asks for: `read_header` and `read_body` in turn, until one has to wait. */
  method ReadPackets(stream: seq<Byte>) returns (routed: seq<Packet>, rest: seq<Byte>)
    requires Fits(stream)
    ensures Reading(routed, rest) == Parse(stream)
  {
    hide BodySizeOf, IdOf, CrcOf;
    var inbound := new Inbound();
    routed, rest := [], stream;
    while |rest| >= HEADER_SIZE
      invariant inbound.Valid() && fresh(inbound) && fresh(inbound.header) && fresh(inbound.raw_body)
      invariant Fits(rest)
      invariant Parse(stream) == Reading(routed + Parse(rest).packets, Parse(rest).rest)
      decreases |rest|
    {
      var h := rest[..HEADER_SIZE];
      var n := inbound.ReadHeader(h);
      if |rest| < HEADER_SIZE + n {
        return;
      }
      var p := inbound.ReadBody(rest[HEADER_SIZE..HEADER_SIZE + n]);
      routed := routed + [p];
      rest := rest[HEADER_SIZE + n..];
    }
  }

  /** Sending and receiving: every packet arrives, in order and once. */
  method Transmit(ps: seq<Packet>) returns (routed: seq<Packet>)
    requires forall i :: 0 <= i < |ps| ==> Sendable(ps[i])
    ensures routed == ps
  {
    hide Frame;
    var stream: seq<Byte> := [];
    for i := 0 to |ps|
      invariant AllFrames(ps) == stream + AllFrames(ps[i..])
    {
      var out := new Outbound();
      out.Encode(ps[i].id, ps[i].body);
      assert ps[i..][1..] == ps[i + 1..];
      assert Packet(ps[i].id, ps[i].body) == ps[i];
      stream := stream + out.buffers[..out.buf_use_size];
    }
    assert stream == AllFrames(ps) + [];
    FramesRoundTrip(ps, []);
    FramesFit(ps, []);
    var rest;
    routed, rest := ReadPackets(stream);
  }

  lemma LittlePush(b: Byte, v: nat, n: nat)
    ensures LittleEndian(b as int + 0x100 * v, n + 1) == [b] + LittleEndian(v, n)
  {
    assert (b as int + 0x100 * v) / 256 == v && (b as int + 0x100 * v) % 256 == b;
  }

  lemma LittleTwo(a: Byte, b: Byte)
    ensures LittleEndian(a as int + 0x100 * b, 2) == [a, b]
  {
    LittlePush(a, b, 1);
    LittlePush(b, 0, 0);
  }

  lemma LittleFour(a: Byte, b: Byte, c: Byte, d: Byte)
    ensures LittleEndian(a as int + 0x100 * (b as int + 0x100 * (c as int + 0x100 * d)), 4) == [a, b, c, d]
  {
    hide LittleEndian;
    LittleTwo(c, d);
    LittlePush(b, c as int + 0x100 * d, 2);
    LittlePush(a, b as int + 0x100 * (c as int + 0x100 * d), 3);
  }

  lemma HeaderOctets()
    ensures Header(0x1234, 3) == [0xe5, 0xe4, 0xe3, 0xff] + [0x34, 0x12] + [0, 0] + [19, 0, 0, 0] + [2, 0, 0, 0]
  {
    hide LittleEndian;
    LittleFour(0xe5, 0xe4, 0xe3, 0xff);
    LittleTwo(0x34, 0x12);
    LittleTwo(0, 0);
    LittleFour(19, 0, 0, 0);
    LittleFour(2, 0, 0, 0);
  }

  /** A packet of three bytes: separator, number, two unused bytes, size of the whole, check value. */
  method FrameExample() returns (s: seq<Byte>)
    ensures s == [0xe5, 0xe4, 0xe3, 0xff, 0x34, 0x12, 0, 0, 19, 0, 0, 0, 2, 0, 0, 0, 7, 8, 9]
  {
    hide Header;
    HeaderOctets();
    var out := new Outbound();
    out.Encode(0x1234, [7, 8, 9]);
    s := out.buffers[..out.buf_use_size];
  }
}
