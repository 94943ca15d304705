/** Building the framed responses byte by byte. */
module V2gtpResponse {
  import opened Bytes
  import opened V2gtpFraming
  import opened ExiDecoder
  import opened V2gSession

  /** The shifts of the header writer give the big-endian length. */
  lemma LengthBytes(n: Uint32)
    ensures BigEndian(n, 4) ==
            [ShiftRight8(n, 3) % 256, ShiftRight8(n, 2) % 256, ShiftRight8(n, 1) % 256, n % 256]
  {
    TopByte(n, 0);
    TopByte(n, 1);
    TopByte(n, 2);
    TopByte(n, 3);
  }

  /** write_v2gtp_header. */
  method WriteHeader(buf: array<Byte>, payloadLen: Uint32)
    requires buf.Length >= HEADER_LEN
    modifies buf
    ensures buf[..HEADER_LEN] == [0x01, 0xFE] + BigEndian(V2GTP_EXI, 2) + BigEndian(payloadLen, 4)
    ensures buf[..4] == [0x01, 0xFE, 0x80, 0x01]
    ensures buf[HEADER_LEN..] == old(buf[HEADER_LEN..])
  {
    buf[0], buf[1], buf[2], buf[3] := 0x01, 0xFE, 0x80, 0x01;
    buf[4] := ShiftRight8(payloadLen, 3) % 256;
    buf[5] := ShiftRight8(payloadLen, 2) % 256;
    buf[6] := ShiftRight8(payloadLen, 1) % 256;
    buf[7] := payloadLen % 256;
    LengthBytes(payloadLen);
    assert BigEndian(0x8001, 2) == [0x80, 0x01] by {
      TopByte(0x8001, 0);
      TopByte(0x8001, 1);
    }
  }

  /** The header field is read back as the length that was written, for every 32-bit length. */
  lemma HeaderRoundTrip(header: seq<Byte>, payloadLen: Uint32)
    requires header == [0x01, 0xFE] + BigEndian(V2GTP_EXI, 2) + BigEndian(payloadLen, 4)
    ensures PayloadType(header) == V2GTP_EXI && DeclaredLen(header) == payloadLen
  {
    assert header[2..4] == BigEndian(V2GTP_EXI, 2) && header[4..8] == BigEndian(payloadLen, 4);
    Pow256Values();
    DecodeEncode(V2GTP_EXI, 2);
    DecodeEncode(payloadLen, 4);
  }

  /** The session-id loop: bytes[7 - i] = (sid >> (i * 8)) & 0xFF. */
  method WriteSessionId(sid: Uint32) returns (bytes: array<Byte>)
    ensures fresh(bytes) && bytes[..] == SessionIdBytes(sid)
  {
    bytes := new Byte[8](_ => 0);
    for i := 0 to 8
      invariant bytes[8 - i..] == BigEndian(sid, i)
    {
      TopByte(sid, i);
      ghost var done := bytes[8 - i..];
      bytes[7 - i] := ShiftRight8(sid, i) % 256;
      assert bytes[7 - i..] == [bytes[7 - i]] + done;
    }
    assert bytes[..] == bytes[0..];
  }

  /** The wrap step at the end of every builder. */
  method WrapInto(exi: ExiBytes, out: array<Byte>) returns (outLen: nat)
    requires out.Length == BUFFER_SIZE
    modifies out
    ensures outLen == HEADER_LEN + |exi| && outLen <= out.Length && out[..outLen] == Wrap(exi)
  {
    WriteHeader(out, |exi|);
    CopyInto(out, HEADER_LEN, exi);
    outLen := HEADER_LEN + |exi|;
  }

  /** secc_build_response: 0 with the framed response in out, or -1. */
  method BuildResponse(codec: Codec, decoder: Decoder, sessionId: Uint32, t: MsgType, out: array<Byte>)
    returns (rc: int, outLen: nat)
    requires out.Length == BUFFER_SIZE
    modifies out
    ensures rc == 0 || rc == -1
    ensures var r := Response(codec, sessionId, decoder.Value(), t);
            && (rc == 0 <==> r.Some?)
            && (rc == 0 ==> outLen <= out.Length && out[..outLen] == r.value)
  {
    var exi: Option<ExiBytes> := None;
    outLen := 0;
    match t {
      case Unknown =>
      case SupportedAppProtocol =>
        exi := codec.encodeApp(decoder.CurrentSchema() % 256);
      case _ =>
        var id := WriteSessionId(sessionId);
        exi := codec.encodeIso(IsoResponse(t, id[..]));
    }
    if exi.None? {
      return -1, 0;
    }
    outLen := WrapInto(exi.value, out);
    rc := 0;
  }
}
