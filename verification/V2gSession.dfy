/**
 * What a V2G session computes from the bytes it is sent: a fold over the messages of the
 * stream, independent of how the stream was cut into reads.
 */
module V2gSession {
  import opened Bytes
  import opened V2gtpFraming
  import opened ExiDecoder

  datatype SeccState =
    | Idle | SlacInit | SlacMatching | SlacMatched | TcpConnected | TlsHandshake
    | SessionSetupState | ServiceDiscoveryState | PaymentSelectionState | AuthorizationState
    | ChargeParameterState | CableCheckState | PreChargeState | PowerDeliveryState
    | CurrentDemandState | WeldingDetectionState | SessionStopState | Error

  /** secc_handle_v2g_message: the new state, whatever the old one was. */
  function Dispatched(t: MsgType): SeccState {
    match t
    case SessionSetup => SessionSetupState
    case ServiceDiscovery => ServiceDiscoveryState
    case PaymentServiceSelection => PaymentSelectionState
    case Authorization => AuthorizationState
    case ChargeParameterDiscovery => ChargeParameterState
    case CableCheck => CableCheckState
    case PreCharge => PreChargeState
    case PowerDelivery => PowerDeliveryState
    case CurrentDemand => CurrentDemandState
    case WeldingDetection => WeldingDetectionState
    case SessionStop => SessionStopState
    case Unknown | SupportedAppProtocol | ServiceDetail => Error
  }

  /** The values of secc_state_t. */
  function StateCode(s: SeccState): nat {
    match s
    case Idle => 0
    case SlacInit => 1
    case SlacMatching => 2
    case SlacMatched => 3
    case TcpConnected => 4
    case TlsHandshake => 5
    case SessionSetupState => 6
    case ServiceDiscoveryState => 7
    case PaymentSelectionState => 8
    case AuthorizationState => 9
    case ChargeParameterState => 10
    case CableCheckState => 11
    case PreChargeState => 12
    case PowerDeliveryState => 13
    case CurrentDemandState => 14
    case WeldingDetectionState => 15
    case SessionStopState => 16
    case Error => 17
  }

  /**
   * Requests and states are numbered alike, but for ServiceDetail, which has no state: the
   * n-th request that has a state leads to the n-th state of the V2G phase.
   */
  predicate InStep(t: MsgType, s: SeccState) {
    StateCode(s) == if 2 <= MsgCode(t) <= 3 then MsgCode(t) + 4 else if MsgCode(t) >= 5 then MsgCode(t) + 3 else 17
  }

  lemma DispatchInStep(t: MsgType, s: SeccState)
    ensures s == Dispatched(t) <==> InStep(t, s)
  {
  }

  function StateAfter(t: MsgType, s: SeccState): SeccState {
    if t == SupportedAppProtocol then s else Dispatched(t)
  }

  /** The world outside: the codec, and whether a write succeeds given all earlier ones. */
  datatype Host = Host(codec: Codec, writeOk: (seq<seq<Byte>>, seq<Byte>) -> bool)

  /** Everything a session reads and writes, except its receive buffer. */
  datatype World = World(
    state: SeccState,
    sessionId: Uint32,
    selection: Selection,
    written: seq<seq<Byte>>,
    handled: seq<Frame>)

  function SessionIdBytes(id: Uint32): seq<Byte> {
    BigEndian(id, 8)
  }

  /** A response on the wire: version 1, type 0x8001. */
  function Wrap(exi: seq<Byte>): seq<Byte>
    requires |exi| < 0x1_0000_0000
  {
    Serialize(Frame([0x01, 0xFE], V2GTP_EXI, exi))
  }

  function Wrapped(exi: Option<ExiBytes>): Option<seq<Byte>> {
    if exi.Some? then Some(Wrap(exi.value)) else None
  }

  /** secc_build_response. */
  function Response(codec: Codec, id: Uint32, sel: Selection, t: MsgType): Option<seq<Byte>> {
    match t
    case Unknown => None
    case SupportedAppProtocol => Wrapped(codec.encodeApp(sel.Current() % 256))
    case _ => Wrapped(codec.encodeIso(IsoResponse(t, SessionIdBytes(id))))
  }

  /** A world, and whether the session goes on from it. */
  datatype Result = Result(world: World, ok: bool)

  /** One complete message: skipped if it is not EXI, else decoded, dispatched and answered. */
  function HandleFrame(h: Host, w: World, f: Frame): Result {
    var seen := w.(handled := w.handled + [f]);
    if f.ptype != V2GTP_EXI then Result(seen, true)
    else
      var t := TypeOf(h.codec, f.payload);
      var w1 := seen.(selection := SelectionAfter(h.codec, f.payload, w.selection), state := StateAfter(t, w.state));
      var r := Response(h.codec, w1.sessionId, w1.selection, t);
      if r.Some? && h.writeOk(w.written, r.value) then Result(w1.(written := w.written + [r.value]), true)
      else Result(w1, false)
  }

  function HandleAll(h: Host, w: World, fs: seq<Frame>): Result
    decreases |fs|
  {
    if fs == [] then Result(w, true)
    else
      var r := HandleFrame(h, w, fs[0]);
      if r.ok then HandleAll(h, r.world, fs[1..]) else r
  }

  /** The reference: parse the whole stream at once and handle what it holds. */
  function HandleStream(h: Host, w: World, stream: seq<Byte>): Result {
    HandleAll(h, w, Frames(stream))
  }

  lemma {:induction false} HandleSplit(h: Host, w: World, a: seq<Frame>, b: seq<Frame>)
    ensures var r := HandleAll(h, w, a);
            HandleAll(h, w, a + b) == if r.ok then HandleAll(h, r.world, b) else r
    decreases |a|
  {
    if a == [] {
      assert a + b == b;
    } else {
      assert (a + b)[0] == a[0] && (a + b)[1..] == a[1..] + b;
      var r := HandleFrame(h, w, a[0]);
      if r.ok {
        HandleSplit(h, r.world, a[1..], b);
      }
    }
  }

  // ---- One call of v2g_process_message, and a run of them ----

  /**
   * How a call ends. Refused: behind the complete messages the loop has taken an EXI header of
   * negative length for a message. Lost: it has taken another header whose message's end does
   * not fit an int for a message; from there the C code has no meaning to model.
   */
  datatype Outcome = Running | Overflowed | Rejected | Refused | Lost {
    /** The call did what its complete messages ask for, and no more. */
    predicate Parsed() {
      Running? || Rejected?
    }
  }

  datatype Session = Session(world: World, residual: seq<Byte>, outcome: Outcome)

  /** What the decoder is given for an EXI header of negative length: no payload. */
  function Headless(s: seq<Byte>): Frame
    requires |s| >= HEADER_LEN
  {
    Frame(s[..2], V2GTP_EXI, [])
  }

  /** What the deframing loop makes of the bytes in the buffer. */
  function Digest(h: Host, w: World, all: seq<Byte>): Session {
    var r := HandleStream(h, w, all);
    if !r.ok then Session(r.world, [], Rejected)
    else if NegativeLength(Rest(all)) then Session(HandleFrame(h, r.world, Headless(Rest(all))).world, [], Refused)
    else if !RestFits(all) then Session(r.world, all, Lost)
    else Session(r.world, Rest(all), Running)
  }

  /**
   * The loop does just what the complete messages in the buffer ask for if and only if one of
   * them stops it or the header left behind them declares a message whose end fits an int.
   */
  lemma DigestParsedIff(h: Host, w: World, all: seq<Byte>)
    requires |all| <= BUFFER_SIZE
    ensures Digest(h, w, all).outcome.Parsed() <==> !HandleStream(h, w, all).ok || RestFits(all)
    ensures Digest(h, w, all).outcome.Parsed() ==>
              Digest(h, w, all).world == HandleStream(h, w, all).world
              && (HandleStream(h, w, all).ok <==> Digest(h, w, all).outcome.Running?)
  {
  }

  /** What v2g_process_message makes of a chunk that a read returned. */
  function Process(h: Host, w: World, residual: seq<Byte>, chunk: seq<Byte>): Session {
    if |residual| + |chunk| > BUFFER_SIZE then Session(w, [], Overflowed)
    else Digest(h, w, residual + chunk)
  }

  /**
   * A call that fails leaves no byte behind; one that overflows, which is one whose bytes
   * exceed 2048 in all, does nothing else.
   */
  lemma FailureEmpties(h: Host, w: World, residual: seq<Byte>, chunk: seq<Byte>)
    ensures var s := Process(h, w, residual, chunk);
            && (s.outcome.Overflowed? <==> |residual| + |chunk| > 2048)
            && (s.outcome.Overflowed? ==> s.world == w)
            && (s.outcome.Overflowed? || s.outcome.Rejected? || s.outcome.Refused? ==> s.residual == [])
  {
  }

  /** The session loop over the chunks that successive reads return. */
  function RunChunks(h: Host, w: World, residual: seq<Byte>, chunks: seq<seq<Byte>>): Session
    decreases |chunks|
  {
    if chunks == [] then Session(w, residual, Running)
    else
      var s := Process(h, w, residual, chunks[0]);
      if s.outcome.Running? then RunChunks(h, s.world, s.residual, chunks[1..]) else s
  }

  function Concat(chunks: seq<seq<Byte>>): seq<Byte> {
    if chunks == [] then [] else chunks[0] + Concat(chunks[1..])
  }

  /** One more chunk at the end of a run that is still going. */
  lemma {:induction false} RunSnoc(h: Host, w: World, residual: seq<Byte>, chunks: seq<seq<Byte>>, chunk: seq<Byte>)
    ensures var s := RunChunks(h, w, residual, chunks);
            RunChunks(h, w, residual, chunks + [chunk]) ==
            if s.outcome.Running? then Process(h, s.world, s.residual, chunk) else s
    decreases |chunks|
  {
    var longer := chunks + [chunk];
    if chunks == [] {
      var s := Process(h, w, residual, longer[0]);
      assert longer[1..] == [];
    } else {
      assert longer[0] == chunks[0] && longer[1..] == chunks[1..] + [chunk];
      var s := Process(h, w, residual, chunks[0]);
      if s.outcome.Running? {
        RunSnoc(h, s.world, s.residual, chunks[1..], chunk);
      }
    }
  }

  lemma {:induction false} ConcatSnoc(chunks: seq<seq<Byte>>, chunk: seq<Byte>)
    ensures Concat(chunks + [chunk]) == Concat(chunks) + chunk
  {
    if chunks == [] {
      assert Concat([chunk]) == chunk + Concat([chunk][1..]);
    } else {
      ConcatSnoc(chunks[1..], chunk);
      assert (chunks + [chunk])[1..] == chunks[1..] + [chunk];
    }
  }

  /** A run that goes on, or is stopped by a complete message, is the parse of all it was given. */
  lemma {:induction false} RunIsParse(h: Host, w: World, residual: seq<Byte>, chunks: seq<seq<Byte>>)
    requires !Complete(residual)
    ensures var s := RunChunks(h, w, residual, chunks);
            var whole := residual + Concat(chunks);
            s.outcome.Parsed() ==>
              && HandleStream(h, w, whole) == Result(s.world, s.outcome.Running?)
              && s.residual == if s.outcome.Running? then Rest(whole) else []
    decreases |chunks|
  {
    var whole := residual + Concat(chunks);
    if chunks == [] {
      assert whole == residual;
    } else {
      var all, tail := residual + chunks[0], Concat(chunks[1..]);
      assert whole == all + tail;
      Split(all, tail);
      HandleSplit(h, w, Frames(all), Frames(Rest(all) + tail));
      var s := Process(h, w, residual, chunks[0]);
      if s.outcome.Running? {
        RunIsParse(h, s.world, s.residual, chunks[1..]);
      }
    }
  }

  /**
   * A run that stops was going on up to some chunk k, so that it was a parse of all bytes
   * before it, and stops in processing that chunk.
   */
  lemma {:induction false} RunStops(h: Host, w: World, residual: seq<Byte>, chunks: seq<seq<Byte>>) returns (k: nat)
    requires !RunChunks(h, w, residual, chunks).outcome.Running?
    ensures k < |chunks|
    ensures var s := RunChunks(h, w, residual, chunks[..k]);
            s.outcome.Running? && RunChunks(h, w, residual, chunks) == Process(h, s.world, s.residual, chunks[k])
    decreases |chunks|
  {
    var n := |chunks| - 1;
    var init := chunks[..n];
    assert chunks == init + [chunks[n]];
    RunSnoc(h, w, residual, init, chunks[n]);
    if RunChunks(h, w, residual, init).outcome.Running? {
      k := n;
    } else {
      k := RunStops(h, w, residual, init);
      assert init[..k] == chunks[..k];
    }
  }

  /**
   * Chunk independence: two ways of cutting one stream, neither of which overflows the buffer
   * or meets a length beyond an int, end in the same session: same messages handled, same responses, same state,
   * same remainder, stopped at the same unanswerable message if at any.
   */
  lemma ChunkIndependence(h: Host, w: World, residual: seq<Byte>, cs: seq<seq<Byte>>, ds: seq<seq<Byte>>)
    requires !Complete(residual) && Concat(cs) == Concat(ds)
    requires RunChunks(h, w, residual, cs).outcome.Parsed()
    requires RunChunks(h, w, residual, ds).outcome.Parsed()
    ensures RunChunks(h, w, residual, cs) == RunChunks(h, w, residual, ds)
  {
    RunIsParse(h, w, residual, cs);
    RunIsParse(h, w, residual, ds);
  }

  /** Byte conservation for one successful call, and no message left behind in the buffer. */
  lemma ProcessConserves(h: Host, w: World, residual: seq<Byte>, chunk: seq<Byte>)
    requires Process(h, w, residual, chunk).outcome.Running?
    ensures var s := Process(h, w, residual, chunk);
            var consumed := Frames(residual + chunk);
            && AllWellformed(consumed)
            && residual + chunk == SerializeAll(consumed) + s.residual
            && s.world.handled == w.handled + consumed
            && !Complete(s.residual)
  {
    Conservation(residual + chunk);
    HandledAll(h, w, Frames(residual + chunk));
  }

  lemma {:induction false} HandledAll(h: Host, w: World, fs: seq<Frame>)
    requires HandleAll(h, w, fs).ok
    ensures HandleAll(h, w, fs).world.handled == w.handled + fs
    decreases |fs|
  {
    if fs != [] {
      var r := HandleFrame(h, w, fs[0]);
      HandledAll(h, r.world, fs[1..]);
      assert fs == [fs[0]] + fs[1..];
    }
  }

  /** Every chunk is at most n bytes. */
  predicate ReadsWithin(chunks: seq<seq<Byte>>, n: nat) {
    forall c :: c in chunks ==> |c| <= n
  }

  /**
   * Messages of at most m bytes and reads of at most 2048 - (m - 1) never overflow the buffer,
   * nor meet a length beyond an int: such a run is the parse of its bytes.
   */
  lemma {:induction false} OverflowFree(h: Host, w: World, residual: seq<Byte>, chunks: seq<seq<Byte>>, m: nat)
    requires 8 <= m <= 2049 && |residual| < m
    requires MessagesWithin(residual + Concat(chunks), m)
    requires ReadsWithin(chunks, 2048 - (m - 1))
    ensures RunChunks(h, w, residual, chunks).outcome.Parsed()
    decreases |chunks|
  {
    if chunks != [] {
      var all, tail := residual + chunks[0], Concat(chunks[1..]);
      assert residual + Concat(chunks) == all + tail;
      WithinSplit(all, tail, m);
      RestShort(all, m);
      WithinFits(all, m);
      assert chunks[0] in chunks;
      var s := Process(h, w, residual, chunks[0]);
      if s.outcome.Running? {
        OverflowFree(h, s.world, s.residual, chunks[1..], m);
      }
    }
  }

  // ---- That read bound is tight ----

  function Zeros(n: nat): seq<Byte> {
    seq(n, _ => 0)
  }

  /** Zero bytes parse as empty messages of eight bytes each. */
  lemma {:induction false} ZerosWithin(n: nat, m: nat)
    requires m >= HEADER_LEN
    ensures MessagesWithin(Zeros(n), m)
  {
    if n >= HEADER_LEN {
      var s := Zeros(n);
      ShiftForms(0, 0, 0, 0);
      assert s[4..8] == [0, 0, 0, 0];
      assert s[FirstLen(s)..] == Zeros(n - HEADER_LEN);
      ZerosWithin(n - HEADER_LEN, m);
    }
  }

  lemma WithinFirst(f: Frame, tail: seq<Byte>, m: nat)
    requires Wellformed(f) && HEADER_LEN + |f.payload| <= m && MessagesWithin(tail, m)
    ensures MessagesWithin(Serialize(f) + tail, m)
  {
    FirstOfSerialized(f, tail);
  }

  /** No proper prefix of a message is complete. */
  lemma PrefixIncomplete(f: Frame, k: nat)
    requires Wellformed(f) && k < |Serialize(f)|
    ensures !Complete(Serialize(f)[..k])
  {
    var s := Serialize(f);
    FirstOfSerialized(f, []);
    assert s + [] == s;
    if k >= HEADER_LEN {
      assert s[..k][4..8] == s[4..8];
    }
  }

  lemma PrefixLength(f: Frame, k: nat)
    requires Wellformed(f) && HEADER_LEN <= k <= |Serialize(f)|
    ensures DeclaredLen(Serialize(f)[..k]) == |f.payload|
  {
    var s := Serialize(f);
    FirstOfSerialized(f, []);
    assert s + [] == s && s[..k][4..8] == s[4..8];
  }

  /** A stream cut into single bytes. */
  function Singles(s: seq<Byte>): seq<seq<Byte>> {
    if s == [] then [] else [[s[0]]] + Singles(s[1..])
  }

  lemma {:induction false} SinglesShort(s: seq<Byte>)
    ensures ReadsWithin(Singles(s), 1)
  {
    if s != [] {
      SinglesShort(s[1..]);
    }
  }

  lemma {:induction false} ConcatSingles(s: seq<Byte>, last: seq<Byte>)
    ensures Concat(Singles(s) + [last]) == s + last
  {
    if s == [] {
      assert Singles(s) + [last] == [last];
      assert Concat([last]) == last + Concat([last][1..]);
    } else {
      var tail := Singles(s[1..]) + [last];
      ConcatSingles(s[1..], last);
      assert Singles(s) + [last] == [[s[0]]] + tail;
      assert ([[s[0]]] + tail)[1..] == tail;
      assert s == [s[0]] + s[1..];
    }
  }

  /** One more byte of an unfinished message waits in the buffer. */
  lemma PileOne(h: Host, w: World, f: Frame, k: nat)
    requires Wellformed(f) && |Serialize(f)| <= INT_MAX && k + 1 < |Serialize(f)| && k < BUFFER_SIZE
    ensures Process(h, w, Serialize(f)[..k], [Serialize(f)[k]]) == Session(w, Serialize(f)[..k + 1], Running)
  {
    hide Serialize;
    var s := Serialize(f);
    assert s[..k] + [s[k]] == s[..k + 1];
    PrefixIncomplete(f, k + 1);
    if k + 1 >= HEADER_LEN {
      PrefixLength(f, k + 1);
    }
  }

  /** Single bytes of an unfinished message pile up until one read is too long. */
  lemma {:induction false} PileUp(h: Host, w: World, f: Frame, k: nat, n: nat, last: seq<Byte>)
    requires Wellformed(f) && |Serialize(f)| <= INT_MAX
    requires k <= n < |Serialize(f)| && n <= BUFFER_SIZE && n + |last| > BUFFER_SIZE
    ensures RunChunks(h, w, Serialize(f)[..k], Singles(Serialize(f)[k..n]) + [last]).outcome == Overflowed
    decreases n - k
  {
    hide Process, Serialize;
    var s := Serialize(f);
    var cs := Singles(s[k..n]) + [last];
    if k == n {
      assert cs == [last];
      PileOver(h, w, s[..k], last);
    } else {
      assert s[k..n][1..] == s[k + 1..n];
      assert cs[0] == [s[k]] && cs[1..] == Singles(s[k + 1..n]) + [last];
      PileOne(h, w, f, k);
      PileUp(h, w, f, k + 1, n, last);
    }
  }

  lemma PileOver(h: Host, w: World, residual: seq<Byte>, last: seq<Byte>)
    requires |residual| + |last| > BUFFER_SIZE
    ensures Process(h, w, residual, last).outcome == Overflowed
  {
  }

  /** A stream of messages of at most m bytes, and reads of at most b bytes, that overflow. */
  lemma Overflowing(h: Host, w: World, m: nat, b: nat) returns (chunks: seq<seq<Byte>>)
    requires HEADER_LEN <= m && b > 0 && b > BUFFER_SIZE - (m - 1)
    ensures ReadsWithin(chunks, b) && MessagesWithin(Concat(chunks), m)
    ensures RunChunks(h, w, [], chunks).outcome == Overflowed
  {
    hide MessagesWithin, Serialize, RunChunks, Concat, Singles;
    var n := if m <= BUFFER_SIZE then m - 1 else BUFFER_SIZE;
    var f := Frame([0x01, 0xFE], V2GTP_EXI, Zeros(n + 1 - HEADER_LEN));
    var s, tail := Serialize(f), Zeros(BUFFER_SIZE - n);
    var last := s[n..] + tail;
    chunks := Singles(s[..n]) + [last];
    SinglesShort(s[..n]);
    ConcatSingles(s[..n], last);
    assert Concat(chunks) == s + tail;
    ZerosWithin(|tail|, m);
    WithinFirst(f, tail, m);
    PileUp(h, w, f, 0, n, last);
    assert s[0..n] == s[..n] && s[..0] == [];
  }

  /** Overflow freedom, exactly: reads of at most b bytes are safe if and only if b <= 2048 - (m - 1). */
  lemma OverflowFreeIff(h: Host, w: World, m: nat, b: nat)
    requires 8 <= m && b > 0
    ensures (forall chunks: seq<seq<Byte>> :: ReadsWithin(chunks, b) && MessagesWithin(Concat(chunks), m) ==>
               RunChunks(h, w, [], chunks).outcome != Overflowed)
            <==> b <= 2048 - (m - 1)
  {
    if b <= BUFFER_SIZE - (m - 1) {
      forall chunks: seq<seq<Byte>> | ReadsWithin(chunks, b) && MessagesWithin(Concat(chunks), m)
        ensures RunChunks(h, w, [], chunks).outcome != Overflowed
      {
        assert [] + Concat(chunks) == Concat(chunks);
        OverflowFree(h, w, [], chunks, m);
      }
    } else {
      var chunks := Overflowing(h, w, m, b);
    }
  }
}
