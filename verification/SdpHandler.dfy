/**
 * The SECC discovery exchange: parsing a request, choosing a transport and building the
 * response, against encodings given by the V2GTP frame format.
 */
module SdpHandler {
  import opened Bytes
  import opened V2gtpFraming

  const SDP_REQUEST: nat := 0x9000
  const SDP_RESPONSE: nat := 0x9001
  const SECURITY_TLS: Byte := 0x00
  const SECURITY_NONE: Byte := 0x10
  const REQUEST_LEN: nat := 10
  const RESPONSE_LEN: nat := 28

  datatype SdpRequest = SdpRequest(security: Byte, transport: Byte)

  datatype SdpResponse = SdpResponse(ip6: seq<Byte>, port: nat, security: Byte, transport: Byte) {
    predicate Valid() {
      |ip6| == 16 && port < 0x1_0000
    }
  }

  function EncodeRequest(req: SdpRequest): seq<Byte> {
    Serialize(Frame([0x01, 0xFE], SDP_REQUEST, [req.security, req.transport]))
  }

  function EncodeResponse(resp: SdpResponse): (s: seq<Byte>)
    requires resp.Valid()
    ensures |s| == RESPONSE_LEN
  {
    Serialize(Frame([0x01, 0xFE], SDP_RESPONSE,
                    resp.ip6 + BigEndian(resp.port, 2) + [resp.security, resp.transport]))
  }

  /** A reader for responses, as the vehicle needs one: nothing but one whole SDP response. */
  function DecodeResponse(data: seq<Byte>): Option<SdpResponse> {
    if !Complete(data) || FirstLen(data) != |data| || |data| != RESPONSE_LEN then None else
    var f := First(data);
    if f.version != [0x01, 0xFE] || f.ptype != SDP_RESPONSE then None else
    Some(SdpResponse(f.payload[..16], FromBigEndian(f.payload[16..18]), f.payload[18], f.payload[19]))
  }

  /** sdp_parse_request: bytes after the tenth are ignored, the transport byte is not checked. */
  function ParseRequest(data: seq<Byte>): Option<SdpRequest> {
    if |data| < REQUEST_LEN then None else
    if data[0] != 0x01 || data[1] != 0xFE then None else
    if 0x100 * (data[2] as int) + data[3] != SDP_REQUEST then None else
    if LengthField(data[4], data[5], data[6], data[7]) != 2 then None else
    Some(SdpRequest(data[8], data[9]))
  }

  /** sdp_select_transport. */
  function SelectTransport(req: SdpRequest): Option<Byte> {
    if req.security == SECURITY_TLS then Some(SECURITY_TLS) else
    if req.security == SECURITY_NONE then Some(SECURITY_NONE) else None
  }

  lemma RequestBytes(req: SdpRequest)
    ensures EncodeRequest(req) == [0x01, 0xFE, 0x90, 0x00, 0, 0, 0, 2, req.security, req.transport]
  {
    EncodeDecode([0x90, 0x00]);
    EncodeDecode([0, 0, 0, 2]);
    ShiftForms(0x90, 0x00, 0, 0);
    ShiftForms(0, 0, 0, 2);
  }

  /** A datagram parses to req exactly when it begins with the encoding of req. */
  lemma ParseRequestIff(data: seq<Byte>, req: SdpRequest)
    ensures ParseRequest(data) == Some(req) <==> EncodeRequest(req) <= data
  {
    hide EncodeRequest;
    RequestBytes(req);
    if |data| >= REQUEST_LEN {
      assert EncodeRequest(req) <= data <==> data[..REQUEST_LEN] == EncodeRequest(req);
    }
  }

  /** Reading back and building are inverse, in both directions. */
  lemma DecodeResponseIff(data: seq<Byte>, resp: SdpResponse)
    ensures DecodeResponse(data) == Some(resp) <==> resp.Valid() && data == EncodeResponse(resp)
  {
    Pow256Values();
    if DecodeResponse(data) == Some(resp) {
      SerializedFirst(data);
      var payload := First(data).payload;
      EncodeDecode(payload[16..18]);
      assert payload == resp.ip6 + BigEndian(resp.port, 2) + [resp.security, resp.transport];
      assert data[..FirstLen(data)] == data;
    }
    if resp.Valid() && data == EncodeResponse(resp) {
      var f := Frame([0x01, 0xFE], SDP_RESPONSE,
                     resp.ip6 + BigEndian(resp.port, 2) + [resp.security, resp.transport]);
      FirstOfSerialized(f, []);
      assert data + [] == data;
      assert f.payload[..16] == resp.ip6 && f.payload[16..18] == BigEndian(resp.port, 2);
      DecodeEncode(resp.port, 2);
    }
  }

  /** The encoding, byte by byte as the builder computes it. */
  lemma ResponseBytes(resp: SdpResponse)
    requires resp.Valid()
    ensures EncodeResponse(resp) ==
            [0x01, 0xFE, 0x90, 0x01, 0, 0, 0, 20] + resp.ip6
            + [ShiftRight8(resp.port, 1) % 256, resp.port % 256, resp.security, resp.transport]
  {
    EncodeDecode([0x90, 0x01]);
    EncodeDecode([0, 0, 0, 20]);
    ShiftForms(0x90, 0x01, 0, 0);
    ShiftForms(0, 0, 0, 20);
    TopByte(resp.port, 0);
    TopByte(resp.port, 1);
  }

  /** The eight header bytes of a response. */
  method WriteResponseHeader(buf: array<Byte>)
    requires buf.Length >= HEADER_LEN
    modifies buf
    ensures buf[..] == [0x01, 0xFE, 0x90, 0x01, 0, 0, 0, 20] + old(buf[HEADER_LEN..])
  {
    buf[0], buf[1], buf[2], buf[3] := 0x01, 0xFE, 0x90, 0x01;
    buf[4], buf[5], buf[6], buf[7] := 0, 0, 0, 20;
    assert buf[HEADER_LEN..] == old(buf[HEADER_LEN..]);
    assert buf[..] == buf[..HEADER_LEN] + buf[HEADER_LEN..];
  }

  /** sdp_build_response: the packet length, or -1 with the buffer untouched. */
  method BuildResponse(buf: array<Byte>, ip6: seq<Byte>, port: nat, security: Byte) returns (rc: int)
    requires SdpResponse(ip6, port, security, 0x00).Valid()
    modifies buf
    ensures rc == if buf.Length < RESPONSE_LEN then -1 else RESPONSE_LEN
    ensures rc == -1 ==> buf[..] == old(buf[..])
    ensures rc != -1 ==> buf[..] == EncodeResponse(SdpResponse(ip6, port, security, 0x00)) + old(buf[RESPONSE_LEN..])
  {
    if buf.Length < RESPONSE_LEN {
      return -1;
    }
    hide EncodeResponse, ShiftRight8;
    ghost var rest := buf[RESPONSE_LEN..];
    WriteResponseHeader(buf);
    CopyInto(buf, HEADER_LEN, ip6);
    ghost var head := buf[..24];
    assert buf[RESPONSE_LEN..] == rest;
    buf[24], buf[25] := ShiftRight8(port, 1) % 256, port % 256;
    buf[26], buf[27] := security, 0x00;
    assert buf[..24] == head && buf[RESPONSE_LEN..] == rest;
    assert buf[..] == buf[..24] + buf[24..28] + buf[28..];
    ResponseBytes(SdpResponse(ip6, port, security, 0x00));
    rc := RESPONSE_LEN;
  }

  /** Exactly the ten-byte requests for one of the two security values, byte by byte. */
  predicate Answerable(packet: seq<Byte>) {
    |packet| == 10 && packet[..8] == [0x01, 0xFE, 0x90, 0x00, 0, 0, 0, 2] && packet[8] in {0x00, 0x10}
  }

  lemma AnswerableIff(packet: seq<Byte>)
    ensures Answerable(packet) <==>
            exists req :: packet == EncodeRequest(req) && req.security in {SECURITY_TLS, SECURITY_NONE}
  {
    hide EncodeRequest;
    if Answerable(packet) {
      var req := SdpRequest(packet[8], packet[9]);
      RequestBytes(req);
      assert packet == packet[..8] + [packet[8], packet[9]];
      assert packet == EncodeRequest(req);
    }
    if req :| packet == EncodeRequest(req) && req.security in {SECURITY_TLS, SECURITY_NONE} {
      RequestBytes(req);
    }
  }

  /**
   * secc_sdp_listen from the received datagram on: the reply handed to sendto, if there is
   * one, and the return code, given how many bytes sendto reports.
   */
  method Listen(packet: seq<Byte>, ip6: seq<Byte>, port: nat, sent: int)
    returns (rc: int, reply: Option<seq<Byte>>)
    requires |ip6| == 16 && port < 0x1_0000
    ensures reply.Some? <==>
            exists req :: packet == EncodeRequest(req) && req.security in {SECURITY_TLS, SECURITY_NONE}
    ensures reply.Some? <==> Answerable(packet)
    ensures reply.Some? ==>
              |packet| == REQUEST_LEN
              && DecodeResponse(reply.value) == Some(SdpResponse(ip6, port, packet[8], 0x00))
    ensures rc == if reply.Some? && sent == RESPONSE_LEN then 0 else -1
  {
    hide Answerable;
    AnswerableIff(packet);
    rc, reply := -1, None;
    forall req ensures ParseRequest(packet) == Some(req) <==> EncodeRequest(req) <= packet {
      ParseRequestIff(packet, req);
    }
    if |packet| < REQUEST_LEN || packet[0] != 0x01 || packet[1] != 0xFE {
      return;
    }
    var ptype := 0x100 * (packet[2] as int) + packet[3];
    if ptype == SDP_RESPONSE || ptype != SDP_REQUEST || |packet| != REQUEST_LEN {
      return;
    }
    var parsed := ParseRequest(packet);
    if parsed.None? {
      return;
    }
    assert packet == EncodeRequest(parsed.value);
    var transport := SelectTransport(parsed.value);
    if transport.None? {
      return;
    }
    var resp := new Byte[RESPONSE_LEN](_ => 0);
    var built := BuildResponse(resp, ip6, port, transport.value);
    if built < 0 {
      return;
    }
    DecodeResponseIff(resp[..], SdpResponse(ip6, port, transport.value, 0x00));
    reply := Some(resp[..]);
    if sent == RESPONSE_LEN {
      rc := 0;
    }
  }
}
