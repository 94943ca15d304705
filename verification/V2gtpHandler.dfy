/** v2g_process_message and the session loop, on a fixed receive buffer. */
module V2gtpHandler {
  import opened Bytes
  import opened V2gtpFraming
  import opened V2gSession

  import Exi = ExiDecoder
  import Response = V2gtpResponse
  import Transport

  class Context {
    var state: SeccState
    var sessionId: Uint32
    var recvLen: nat
    const recvBuffer: array<Byte>
    ghost var handled: seq<Frame>

    /** secc_session_init. */
    constructor ()
      ensures Valid() && fresh(recvBuffer) && Residual() == []
      ensures state == Idle && sessionId == 1 && handled == []
    {
      state, sessionId, recvLen, handled := Idle, 1, 0, [];
      recvBuffer := new Byte[BUFFER_SIZE](_ => 0);
    }

    ghost predicate Valid()
      reads this
    {
      recvBuffer.Length == BUFFER_SIZE && recvLen <= BUFFER_SIZE
    }

    /** The bytes received but not yet consumed. */
    ghost function Residual(): seq<Byte>
      requires Valid()
      reads this, recvBuffer
    {
      recvBuffer[..recvLen]
    }

    /** Everything the session has computed, as the specification sees it. */
    ghost function Snapshot(decoder: Exi.Decoder, conn: Transport.Connection): World
      reads this, decoder, conn
    {
      World(state, sessionId, decoder.Value(), conn.written, handled)
    }

    /** secc_handle_v2g_message. */
    method HandleMessage(t: Exi.MsgType)
      modifies this`state
      ensures state == Dispatched(t) && InStep(t, state)
      ensures state == Error <==> t in {Exi.Unknown, Exi.ServiceDetail, Exi.SupportedAppProtocol}
    {
      match t
      case SessionSetup => state := SessionSetupState;
      case ServiceDiscovery => state := ServiceDiscoveryState;
      case PaymentServiceSelection => state := PaymentSelectionState;
      case Authorization => state := AuthorizationState;
      case ChargeParameterDiscovery => state := ChargeParameterState;
      case CableCheck => state := CableCheckState;
      case PreCharge => state := PreChargeState;
      case PowerDelivery => state := PowerDeliveryState;
      case CurrentDemand => state := CurrentDemandState;
      case WeldingDetection => state := WeldingDetectionState;
      case SessionStop => state := SessionStopState;
      case _ => state := Error;
    }

    /** One EXI message: decode, dispatch, build, write. The receive buffer is left alone. */
    method HandleExi(codec: Exi.Codec, decoder: Exi.Decoder, conn: Transport.Connection,
                     ghost frame: Frame, payload: seq<Byte>)
      returns (ok: bool)
      requires frame.ptype == V2GTP_EXI && frame.payload == payload
      modifies this`state, this`handled, decoder, conn`written
      ensures HandleFrame(Host(codec, conn.writeOk), old(Snapshot(decoder, conn)), frame)
              == Result(Snapshot(decoder, conn), ok)
    {
      handled := handled + [frame];
      var t := decoder.Decode(codec, payload);
      if t != Exi.SupportedAppProtocol {
        HandleMessage(t);
      }
      var response := new Byte[BUFFER_SIZE](_ => 0);
      var rc, responseLen := Response.BuildResponse(codec, decoder, sessionId, t, response);
      if rc == 0 {
        ok := conn.Write(response[..responseLen]);
      } else {
        ok := false;
      }
    }

    /** Append a chunk to the receive buffer; false, with the buffer emptied, if it does not fit. */
    method Append(chunk: seq<Byte>) returns (ok: bool)
      requires Valid()
      modifies this`recvLen, recvBuffer
      ensures Valid()
      ensures ok <==> |old(Residual())| + |chunk| <= BUFFER_SIZE
      ensures Residual() == if ok then old(Residual()) + chunk else []
    {
      if recvLen + |chunk| > BUFFER_SIZE {
        recvLen := 0;
        return false;
      }
      CopyInto(recvBuffer, recvLen, chunk);
      recvLen := recvLen + |chunk|;
      ok := true;
    }

    /** The shift of the unconsumed bytes to the front of the buffer. */
    method Shift(offset: nat)
      requires Valid() && offset <= recvLen
      modifies this`recvLen, recvBuffer
      ensures Valid() && Residual() == old(Residual())[offset..]
    {
      if 0 < offset < recvLen {
        CopyInto(recvBuffer, 0, recvBuffer[offset..recvLen]);
        recvLen := recvLen - offset;
      } else if offset >= recvLen {
        recvLen := 0;
      }
    }

    /** One complete message at the given place of the buffer, EXI or not. */
    method HandleNext(codec: Exi.Codec, decoder: Exi.Decoder, conn: Transport.Connection, ptype: nat, at: nat, end: nat)
      returns (ok: bool)
      requires Valid() && at + HEADER_LEN <= end <= recvLen
      requires Complete(Residual()[at..]) && end == at + FirstLen(Residual()[at..])
      requires ptype == PayloadType(Residual()[at..])
      modifies this`state, this`handled, decoder, conn`written
      ensures HandleFrame(Host(codec, conn.writeOk), old(Snapshot(decoder, conn)), First(Residual()[at..]))
              == Result(Snapshot(decoder, conn), ok)
    {
      ghost var frame := First(Residual()[at..]);
      if ptype != V2GTP_EXI {
        handled := handled + [frame];
        return true;
      }
      var payload := recvBuffer[at + HEADER_LEN..end];
      PayloadAt(recvBuffer[..], recvLen, at, end);
      ok := HandleExi(codec, decoder, conn, frame, payload);
    }

    /**
     * The deframing loop: peel messages off the front of the buffer, with the C code's 32-bit
     * arithmetic, until none is left or one cannot be answered. Where the arithmetic takes an
     * absent message for a present one, an EXI message of negative length reaches the decoder
     * as an empty one; for any other the loop is left, since what C does next is undefined.
     */
    method Deframe(codec: Exi.Codec, decoder: Exi.Decoder, conn: Transport.Connection)
      returns (outcome: Outcome, offset: nat)
      requires Valid()
      modifies this`state, this`handled, decoder, conn`written
      ensures var s := Digest(Host(codec, conn.writeOk), old(Snapshot(decoder, conn)), Residual());
              Snapshot(decoder, conn) == s.world && outcome == s.outcome
      ensures outcome.Running? ==> offset <= recvLen && Residual()[offset..] == Rest(Residual())
    {
      hide HandleStream, HandleFrame, Rest, Digest, Int32, MessageLen, NegativeLength;
      ghost var h, w0, all := Host(codec, conn.writeOk), Snapshot(decoder, conn), Residual();
      outcome, offset := Running, 0;
      while offset + HEADER_LEN <= recvLen
        invariant offset <= recvLen && outcome == Running
        invariant Rest(all[offset..]) == Rest(all)
        invariant HandleStream(h, w0, all) == HandleStream(h, Snapshot(decoder, conn), all[offset..])
        decreases recvLen - offset
      {
        assert all[offset..] == recvBuffer[offset..recvLen];
        var header := ParseHeader(recvBuffer[offset..recvLen]);
        var next := Int32(offset + MessageLen(header.payloadLength));
        NextMessage(all, offset, header, next);
        if next > recvLen {
          break;
        }
        if offset + HEADER_LEN + header.payloadLength > INT_MAX {
          DigestEnd(h, w0, Snapshot(decoder, conn), all, offset);
          outcome := TakeAbsent(codec, decoder, conn, header, all[offset..]);
          return;
        }
        StreamStep(h, Snapshot(decoder, conn), all, offset);
        var ok := HandleNext(codec, decoder, conn, header.ptype, offset, next);
        if !ok {
          DigestRejected(h, w0, all);
          outcome := Rejected;
          return;
        }
        offset := next;
      }
      DigestEnd(h, w0, Snapshot(decoder, conn), all, offset);
    }

    /** The loop body on a header whose message's end does not fit an int. */
    method TakeAbsent(codec: Exi.Codec, decoder: Exi.Decoder, conn: Transport.Connection,
                      header: Header, ghost rest: seq<Byte>)
      returns (outcome: Outcome)
      requires |rest| >= HEADER_LEN && header == ParseHeader(rest)
      modifies this`state, this`handled, decoder, conn`written
      ensures outcome == if NegativeLength(rest) then Refused else Lost
      ensures Snapshot(decoder, conn) ==
              if outcome.Refused?
              then HandleFrame(Host(codec, conn.writeOk), old(Snapshot(decoder, conn)), Headless(rest)).world
              else old(Snapshot(decoder, conn))
    {
      if header.ptype != V2GTP_EXI || header.payloadLength <= INT_MAX {
        return Lost;
      }
      var _ := HandleExi(codec, decoder, conn, Headless(rest), []);
      outcome := Refused;
    }

    /**
     * v2g_process_message from the overflow check on: append, deframe, shift. `lost` says that
     * the loop was left where C's behaviour is undefined.
     */
    method Absorb(codec: Exi.Codec, decoder: Exi.Decoder, conn: Transport.Connection, chunk: seq<Byte>)
      returns (rc: int, lost: bool)
      requires Valid()
      modifies this`state, this`handled, this`recvLen, recvBuffer, decoder, conn`written
      ensures Valid() && (rc == 0 || rc == -1)
      ensures var s := Process(Host(codec, conn.writeOk), old(Snapshot(decoder, conn)), old(Residual()), chunk);
              && Snapshot(decoder, conn) == s.world && Residual() == s.residual
              && (rc == 0 <==> s.outcome.Running?) && (lost <==> s.outcome.Lost?)
    {
      hide HandleStream, HandleFrame, RestFits;
      var fits := Append(chunk);
      if !fits {
        return -1, false;
      }
      var outcome, offset := Deframe(codec, decoder, conn);
      lost := outcome == Lost;
      if outcome == Running {
        Shift(offset);
        rc := 0;
      } else {
        if !lost {
          recvLen := 0;
        }
        rc := -1;
      }
    }

    /** v2g_process_message. The chunk is what its one read returned; empty if the read failed. */
    method ProcessMessage(codec: Exi.Codec, decoder: Exi.Decoder, conn: Transport.Connection)
      returns (rc: int, lost: bool, ghost chunk: seq<Byte>)
      requires Valid()
      modifies this`state, this`handled, this`recvLen, recvBuffer, decoder
      modifies conn`calls, conn`pending, conn`written
      ensures Valid() && (rc == 0 || rc == -1)
      ensures chunk + conn.pending == old(conn.pending)
      ensures chunk == [] ==>
                && rc == -1 && !lost && conn.Dry(old(conn.calls))
                && Snapshot(decoder, conn) == old(Snapshot(decoder, conn)) && Residual() == old(Residual())
      ensures chunk != [] ==>
                var s := Process(Host(codec, conn.writeOk), old(Snapshot(decoder, conn)), old(Residual()), chunk);
                && Snapshot(decoder, conn) == s.world && Residual() == s.residual
                && (rc == 0 <==> s.outcome.Running?) && (lost <==> s.outcome.Lost?)
      ensures conn.calls >= old(conn.calls)
    {
      hide Process;
      var temp := new Byte[BUFFER_SIZE](_ => 0);
      var len := conn.Read(temp, BUFFER_SIZE);
      if len <= 0 {
        return -1, false, [];
      }
      chunk := temp[..len];
      rc, lost := Absorb(codec, decoder, conn, temp[..len]);
    }

    /** One turn of the session loop; a turn that fails leaves the session in ERROR. */
    method Turn(codec: Exi.Codec, decoder: Exi.Decoder, conn: Transport.Connection,
                ghost start: World, ghost first: seq<Byte>, ghost before: seq<seq<Byte>>)
      returns (running: bool, lost: bool, ghost chunks: seq<seq<Byte>>)
      requires Valid()
      requires InProgress(Host(codec, conn.writeOk), start, first, before, Snapshot(decoder, conn), Residual(), true)
      modifies this`state, this`handled, this`recvLen, recvBuffer, decoder
      modifies conn`calls, conn`pending, conn`written
      ensures Valid()
      ensures InProgress(Host(codec, conn.writeOk), start, first, chunks, Snapshot(decoder, conn), Residual(), running)
      ensures Concat(chunks) + conn.pending == Concat(before) + old(conn.pending)
      ensures running ==> |conn.pending| < |old(conn.pending)|
      ensures lost <==> RunChunks(Host(codec, conn.writeOk), start, first, chunks).outcome.Lost?
      ensures !running && !lost ==> state == Error
      ensures running ==> conn.calls >= old(conn.calls)
      ensures !running && RunChunks(Host(codec, conn.writeOk), start, first, chunks).outcome.Running? ==>
                conn.Dry(old(conn.calls))
    {
      hide Process;
      var rc;
      ghost var chunk;
      rc, lost, chunk := ProcessMessage(codec, decoder, conn);
      running := rc >= 0;
      if rc < 0 && !lost {
        state := Error;
      }
      if chunk != [] {
        RunSnoc(Host(codec, conn.writeOk), start, first, before, chunk);
        ConcatSnoc(before, chunk);
        chunks := before + [chunk];
        assert Concat(before) + chunk + conn.pending == Concat(before) + (chunk + conn.pending);
      } else {
        chunks := before;
      }
    }

    /**
     * secc_session_run: process messages until a call fails, then go to ERROR. Whatever
     * pieces the bytes arrived in, the session has done what a parse of all of them at once
     * prescribes, unless its buffer overflowed or it met a length beyond an int.
     */
    method SessionRun(codec: Exi.Codec, decoder: Exi.Decoder, conn: Transport.Connection)
      returns (lost: bool, ghost chunks: seq<seq<Byte>>)
      requires Valid() && !Complete(Residual())
      modifies this`state, this`handled, this`recvLen, recvBuffer, decoder
      modifies conn`calls, conn`pending, conn`written
      ensures Valid() && (!lost ==> state == Error)
      ensures Concat(chunks) + conn.pending == old(conn.pending)
      ensures var h := Host(codec, conn.writeOk);
              var start := old(Snapshot(decoder, conn)).(state := ServiceDiscoveryState);
              var s := RunChunks(h, start, old(Residual()), chunks);
              && (lost <==> s.outcome.Lost?)
              && Snapshot(decoder, conn) == (if lost then s.world else s.world.(state := Error))
              && (s.outcome.Running? ==> conn.Dry(old(conn.calls)))
              && (s.outcome.Parsed() ==>
                    Snapshot(decoder, conn) ==
                    HandleStream(h, start, old(Residual()) + Concat(chunks)).world.(state := Error))
    {
      ghost var h := Host(codec, conn.writeOk);
      state := ServiceDiscoveryState;
      chunks := [];
      ghost var start, first := Snapshot(decoder, conn), Residual();
      var running := true;
      lost := false;
      while running
        invariant Valid() && (!running && !lost ==> state == Error)
        invariant Concat(chunks) + conn.pending == old(conn.pending)
        invariant InProgress(h, start, first, chunks, Snapshot(decoder, conn), Residual(), running)
        invariant lost <==> RunChunks(h, start, first, chunks).outcome.Lost?
        invariant running ==> conn.calls >= old(conn.calls)
        invariant !running && RunChunks(h, start, first, chunks).outcome.Running? ==> conn.Dry(old(conn.calls))
        decreases running, |conn.pending|
      {
        running, lost, chunks := Turn(codec, decoder, conn, start, first, chunks);
      }
      RunIsParse(h, start, first, chunks);
    }
  }

  /** Where a session stands after the given chunks: going on, or stopped, in ERROR unless lost. */
  ghost predicate InProgress(h: Host, start: World, first: seq<Byte>, chunks: seq<seq<Byte>>,
                             w: World, residual: seq<Byte>, running: bool) {
    var s := RunChunks(h, start, first, chunks);
    if running then s == Session(w, residual, Running)
    else if s.outcome.Lost? then w == s.world
    else w == s.world.(state := Error)
  }

  /** What the loop learns from comparing `next` with the number of bytes in the buffer. */
  lemma NextMessage(all: seq<Byte>, at: nat, header: Header, next: int)
    requires at + HEADER_LEN <= |all| <= BUFFER_SIZE && header == ParseHeader(all[at..])
    requires next == Int32(at + MessageLen(header.payloadLength))
    ensures var fits := at + HEADER_LEN + header.payloadLength <= INT_MAX;
            && (Complete(all[at..]) <==> next <= |all| && fits)
            && (next > |all| ==> fits)
            && (fits ==> next == at + HEADER_LEN + header.payloadLength)
  {
    CompleteTestExactIff(all, at);
  }

  /** The result for a whole buffer, from where the loop stands at its first incomplete message. */
  lemma DigestEnd(h: Host, w0: World, w: World, all: seq<Byte>, at: nat)
    requires at <= |all| && !Complete(all[at..]) && Rest(all[at..]) == Rest(all)
    requires HandleStream(h, w0, all) == HandleStream(h, w, all[at..])
    ensures Rest(all) == all[at..]
    ensures var s := all[at..];
            Digest(h, w0, all) ==
            if |s| < HEADER_LEN || at + HEADER_LEN + DeclaredLen(s) <= INT_MAX then Session(w, s, Running)
            else if NegativeLength(s) then Session(HandleFrame(h, w, Headless(s)).world, [], Refused)
            else Session(w, all, Lost)
  {
    hide HandleFrame;
  }

  lemma DigestRejected(h: Host, w: World, all: seq<Byte>)
    requires !HandleStream(h, w, all).ok
    ensures Digest(h, w, all) == Session(HandleStream(h, w, all).world, [], Rejected)
  {
  }

  lemma PayloadAt(buf: seq<Byte>, len: nat, at: nat, end: nat)
    requires at <= len <= |buf| && Complete(buf[..len][at..]) && end == at + FirstLen(buf[..len][at..])
    ensures First(buf[..len][at..]).payload == buf[at + HEADER_LEN..end]
  {
  }

  /** Handling a stream from a complete message on: that message, then the bytes after it. */
  lemma StreamStep(h: Host, w: World, all: seq<Byte>, at: nat)
    requires at <= |all| && Complete(all[at..])
    ensures var s, r := all[at..], HandleFrame(h, w, First(all[at..]));
            && HandleStream(h, w, s) == (if r.ok then HandleStream(h, r.world, all[at + FirstLen(s)..]) else r)
            && Rest(s) == Rest(all[at + FirstLen(s)..])
  {
    var s := all[at..];
    assert s[FirstLen(s)..] == all[at + FirstLen(s)..];
  }
}
