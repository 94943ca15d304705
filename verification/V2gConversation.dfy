/** What a run of messages leads to, said without reference to the machine that runs it. */
module V2gConversation {
  import opened Bytes
  import opened V2gtpFraming
  import opened ExiDecoder
  import opened V2gSession

  predicate IsExi(f: Frame) {
    f.ptype == 0x8001
  }

  /** The EXI messages among fs, in order. */
  function ExiFrames(fs: seq<Frame>): (r: seq<Frame>)
    ensures |r| <= |fs|
  {
    if fs == [] then []
    else
      var last := fs[|fs| - 1];
      ExiFrames(fs[..|fs| - 1]) + if IsExi(last) then [last] else []
  }

  /** The answer to one payload: a function of the payload and the session id alone. */
  function Answer(codec: Codec, id: Uint32, payload: seq<Byte>): Option<seq<Byte>> {
    var t := TypeOf(codec, payload);
    if t == Unknown then None
    else if t == SupportedAppProtocol then
      Wrapped(codec.encodeApp(AppChoice(codec, payload)))
    else Wrapped(codec.encodeIso(IsoResponse(t, SessionIdBytes(id))))
  }

  /** The SchemaID answered to a SupportedAppProtocol request: its own best entry, in 8 bits. */
  function AppChoice(codec: Codec, payload: seq<Byte>): Byte {
    var app := codec.decodeApp(payload);
    if app.Some? then ChosenSchema(app.value) % 256 else 1
  }

  function AnswerOr(codec: Codec, id: Uint32, f: Frame): seq<Byte> {
    var a := Answer(codec, id, f.payload);
    if a.Some? then a.value else []
  }

  function Answers(codec: Codec, id: Uint32, fs: seq<Frame>): seq<seq<Byte>> {
    seq(|ExiFrames(fs)|, i requires 0 <= i < |ExiFrames(fs)| => AnswerOr(codec, id, ExiFrames(fs)[i]))
  }

  /** Can message k of fs be answered, given what earlier answers have been written? */
  predicate Answered(h: Host, w: World, fs: seq<Frame>, k: nat)
    requires k < |fs|
  {
    IsExi(fs[k]) ==>
      var a := Answer(h.codec, w.sessionId, fs[k].payload);
      a.Some? && h.writeOk(w.written + Answers(h.codec, w.sessionId, fs[..k]), a.value)
  }

  predicate AllAnswered(h: Host, w: World, fs: seq<Frame>) {
    forall k: nat :: k < |fs| ==> Answered(h, w, fs, k)
  }

  lemma AnsweredInPrefix(h: Host, w: World, fs: seq<Frame>, n: nat, k: nat)
    requires k < n <= |fs|
    ensures Answered(h, w, fs, k) == Answered(h, w, fs[..n], k)
  {
    assert fs[..n][..k] == fs[..k];
  }

  lemma AllAnsweredSnoc(h: Host, w: World, fs: seq<Frame>)
    requires fs != []
    ensures AllAnswered(h, w, fs) <==> AllAnswered(h, w, fs[..|fs| - 1]) && Answered(h, w, fs, |fs| - 1)
  {
    var n := |fs| - 1;
    var init := fs[..n];
    if AllAnswered(h, w, init) && Answered(h, w, fs, n) {
      forall k: nat | k < |fs|
        ensures Answered(h, w, fs, k)
      {
        if k < n {
          assert Answered(h, w, init, k);
          AnsweredInPrefix(h, w, fs, n, k);
        }
      }
    }
    if AllAnswered(h, w, fs) {
      assert Answered(h, w, fs, n);
      forall k: nat | k < n
        ensures Answered(h, w, init, k)
      {
        assert Answered(h, w, fs, k);
        AnsweredInPrefix(h, w, fs, n, k);
      }
    }
  }

  lemma TypeOfAppRequest(codec: Codec, data: seq<Byte>)
    ensures TypeOf(codec, data) == SupportedAppProtocol <==> data != [] && IsAppRequest(codec, data)
  {
    hide IsAppRequest, FirstUsed;
    assert SupportedAppProtocol !in ISO_ORDER;
  }

  /** The selection state never leaks: the response built is the stateless answer. */
  lemma ResponseIsAnswer(codec: Codec, id: Uint32, payload: seq<Byte>, sel: Selection)
    ensures Response(codec, id, SelectionAfter(codec, payload, sel), TypeOf(codec, payload))
            == Answer(codec, id, payload)
  {
    TypeOfAppRequest(codec, payload);
  }

  /** One more message at the end of the list. */
  lemma HandleSnoc(h: Host, w: World, fs: seq<Frame>)
    requires fs != []
    ensures var r := HandleAll(h, w, fs[..|fs| - 1]);
            HandleAll(h, w, fs) == if r.ok then HandleFrame(h, r.world, fs[|fs| - 1]) else r
  {
    var init, last := fs[..|fs| - 1], fs[|fs| - 1];
    assert fs == init + [last];
    HandleSplit(h, w, init, [last]);
    var r := HandleAll(h, w, init);
    if r.ok {
      var s := HandleFrame(h, r.world, last);
      assert [last][1..] == [];
      assert HandleAll(h, r.world, [last]) == s;
    }
  }

  lemma AnswersSnoc(codec: Codec, id: Uint32, fs: seq<Frame>)
    requires fs != []
    ensures var last := fs[|fs| - 1];
            Answers(codec, id, fs) ==
            Answers(codec, id, fs[..|fs| - 1]) + if IsExi(last) then [AnswerOr(codec, id, last)] else []
  {
  }

  lemma FrameAnswer(h: Host, w: World, f: Frame)
    ensures var r, a := HandleFrame(h, w, f), Answer(h.codec, w.sessionId, f.payload);
            && (r.ok <==> (IsExi(f) ==> a.Some? && h.writeOk(w.written, a.value)))
            && r.world.sessionId == w.sessionId
            && r.world.written ==
               w.written + if IsExi(f) && r.ok then [AnswerOr(h.codec, w.sessionId, f)] else []
  {
    ResponseIsAnswer(h.codec, w.sessionId, f.payload, w.selection);
  }

  lemma NoMessages(h: Host, w: World)
    ensures HandleAll(h, w, []) == Result(w, true)
    ensures AllAnswered(h, w, []) && w.written + Answers(h.codec, w.sessionId, []) == w.written
  {
  }

  /**
   * A run of messages goes through if and only if each EXI message among them has an answer
   * that can be written; then there is exactly one response per EXI message, in order, none
   * for any other message, and the session id is untouched.
   */
  lemma {:induction false} RunAnswers(h: Host, w: World, fs: seq<Frame>)
    ensures var r := HandleAll(h, w, fs);
            && (r.ok <==> AllAnswered(h, w, fs))
            && r.world.sessionId == w.sessionId
            && (r.ok ==> r.world.written == w.written + Answers(h.codec, w.sessionId, fs))
    decreases |fs|
  {
    hide HandleFrame, HandleAll, AnswerOr, Answers, AllAnswered;
    if fs == [] {
      NoMessages(h, w);
    } else {
      var n := |fs| - 1;
      var init, last := fs[..n], fs[n];
      RunAnswers(h, w, init);
      HandleSnoc(h, w, fs);
      AnswersSnoc(h.codec, w.sessionId, fs);
      AllAnsweredSnoc(h, w, fs);
      FrameAnswer(h, HandleAll(h, w, init).world, last);
    }
  }

  /** Does this message move the session to another state? */
  predicate Steers(codec: Codec, f: Frame) {
    IsExi(f) && TypeOf(codec, f.payload) != SupportedAppProtocol
  }

  lemma FrameState(h: Host, w: World, f: Frame)
    ensures HandleFrame(h, w, f).world.state ==
            if Steers(h.codec, f) then Dispatched(TypeOf(h.codec, f.payload)) else w.state
  {
  }

  /**
   * Of the messages that get an answer, ServiceDetail is the only one that leaves the session
   * in ERROR; the session goes on all the same.
   */
  lemma AnsweredErrorIff(h: Host, w: World, f: Frame)
    requires HandleFrame(h, w, f).ok && Steers(h.codec, f)
    ensures HandleFrame(h, w, f).world.state == Error <==> TypeOf(h.codec, f.payload) == ServiceDetail
    ensures |HandleFrame(h, w, f).world.written| == |w.written| + 1
  {
    FrameAnswer(h, w, f);
    FrameState(h, w, f);
  }

  /** Any ServiceDetail request with an answer that can be written is such a message. */
  lemma ServiceDetailAnswered(h: Host, w: World, f: Frame)
    requires IsExi(f) && TypeOf(h.codec, f.payload) == ServiceDetail
    requires var a := Wrapped(h.codec.encodeIso(IsoResponse(ServiceDetail, SessionIdBytes(w.sessionId))));
             a.Some? && h.writeOk(w.written, a.value)
    ensures HandleFrame(h, w, f).ok && HandleFrame(h, w, f).world.state == Error
  {
    FrameAnswer(h, w, f);
    FrameState(h, w, f);
  }

  /** A codec that reads ServiceDetail from some payload and can encode every response. */
  lemma ServiceDetailCodec() returns (codec: Codec, payload: seq<Byte>)
    ensures TypeOf(codec, payload) == ServiceDetail
    ensures forall r: IsoResponse :: codec.encodeIso(r).Some?
  {
    var none: ExiBytes := [];
    codec := Codec(_ => None, _ => Some(IsoDoc(true, {ServiceDetail})), _ => Some(none), _ => Some(none));
    payload := [0];
    FirstUsedIsFirst({ServiceDetail}, ISO_ORDER, 2);
  }

  /** So there are a host and a message that leave any session in ERROR, and going on. */
  lemma ServiceDetailExists() returns (h: Host, f: Frame)
    ensures TypeOf(h.codec, f.payload) == ServiceDetail
    ensures forall w: World :: HandleFrame(h, w, f).ok && HandleFrame(h, w, f).world.state == Error
  {
    hide HandleFrame, TypeOf, Wrap, SessionIdBytes;
    var codec, payload := ServiceDetailCodec();
    h := Host(codec, (_, _) => true);
    f := Frame([0x01, 0xFE], V2GTP_EXI, payload);
    forall w: World
      ensures HandleFrame(h, w, f).ok && HandleFrame(h, w, f).world.state == Error
    {
      ServiceDetailAnswered(h, w, f);
    }
  }

  /**
   * An EXI header whose length is negative as an int ends the session as an unanswerable
   * message would: in ERROR, after all complete messages before it were answered.
   */
  lemma NegativeLengthRefused(h: Host, w: World, all: seq<Byte>)
    requires HandleStream(h, w, all).ok && NegativeLength(Rest(all))
    ensures var s := Digest(h, w, all);
            && s.outcome.Refused? && s.world.state == Error && s.residual == []
            && s.world.written == w.written + Answers(h.codec, w.sessionId, Frames(all))
            && s.world.selection == HandleStream(h, w, all).world.selection
  {
    var r := HandleStream(h, w, all);
    RunAnswers(h, w, Frames(all));
    FrameState(h, r.world, Headless(Rest(all)));
    FrameAnswer(h, r.world, Headless(Rest(all)));
  }

  /** No message from number i on moves the session. */
  predicate QuietFrom(codec: Codec, fs: seq<Frame>, i: nat) {
    forall j :: i <= j < |fs| ==> !Steers(codec, fs[j])
  }

  /** The state after a run is the one its last steering message leads to. */
  lemma {:induction false} RunState(h: Host, w: World, fs: seq<Frame>, i: nat)
    requires HandleAll(h, w, fs).ok
    requires i < |fs| && Steers(h.codec, fs[i]) && QuietFrom(h.codec, fs, i + 1)
    ensures var s, t := HandleAll(h, w, fs).world.state, TypeOf(h.codec, fs[i].payload);
            s == Dispatched(t) && InStep(t, s) && Means(h.codec, fs[i].payload, t)
    decreases |fs|
  {
    hide HandleFrame, HandleAll, Dispatched, Steers, TypeOf, InStep, Means;
    var n := |fs| - 1;
    DispatchInStep(TypeOf(h.codec, fs[i].payload), Dispatched(TypeOf(h.codec, fs[i].payload)));
    TypeOfMeans(h.codec, fs[i].payload, TypeOf(h.codec, fs[i].payload));
    HandleSnoc(h, w, fs);
    FrameState(h, HandleAll(h, w, fs[..n]).world, fs[n]);
    if i < n {
      RunState(h, w, fs[..n], i);
    }
  }

  /** SupportedAppProtocol requests and non-EXI messages alone leave the state as it was. */
  lemma {:induction false} RunStateKept(h: Host, w: World, fs: seq<Frame>)
    requires HandleAll(h, w, fs).ok && QuietFrom(h.codec, fs, 0)
    ensures HandleAll(h, w, fs).world.state == w.state
    decreases |fs|
  {
    if fs != [] {
      FrameState(h, w, fs[0]);
      RunStateKept(h, HandleFrame(h, w, fs[0]).world, fs[1..]);
    }
  }

  /**
   * A run that is stopped is stopped by its first unanswerable message: everything before
   * it was answered, nothing after it was looked at, and an unrecognised message leaves the
   * session in ERROR.
   */
  lemma {:induction false} RunRejected(h: Host, w: World, fs: seq<Frame>) returns (k: nat)
    requires !HandleAll(h, w, fs).ok
    ensures k < |fs| && HandleAll(h, w, fs[..k]).ok && IsExi(fs[k]) && !Answered(h, w, fs, k)
    ensures HandleAll(h, w, fs).world == HandleFrame(h, HandleAll(h, w, fs[..k]).world, fs[k]).world
    ensures HandleAll(h, w, fs).world.written == w.written + Answers(h.codec, w.sessionId, fs[..k])
    ensures TypeOf(h.codec, fs[k].payload) == Unknown ==> HandleAll(h, w, fs).world.state == Error
    decreases |fs|
  {
    var n := |fs| - 1;
    var init := fs[..n];
    HandleSnoc(h, w, fs);
    RunAnswers(h, w, init);
    var r := HandleAll(h, w, init);
    if r.ok {
      k := n;
      FrameAnswer(h, r.world, fs[n]);
      FrameState(h, r.world, fs[n]);
    } else {
      k := RunRejected(h, w, init);
      assert fs[..k] == init[..k] && fs[k] == init[k];
    }
  }

  /** Any list of payloads, wrapped and concatenated, parses back to exactly that list. */
  function WrapAll(payloads: seq<seq<Byte>>): seq<Byte>
    requires forall p :: p in payloads ==> |p| < 0x1_0000_0000
  {
    if payloads == [] then [] else Wrap(payloads[0]) + WrapAll(payloads[1..])
  }

  function AsFrames(payloads: seq<seq<Byte>>): (fs: seq<Frame>)
    requires forall p :: p in payloads ==> |p| < 0x1_0000_0000
    ensures |fs| == |payloads| && AllWellformed(fs)
    ensures forall i :: 0 <= i < |fs| ==> fs[i] == Frame([0x01, 0xFE], 0x8001, payloads[i])
  {
    seq(|payloads|, i requires 0 <= i < |payloads| => Frame([0x01, 0xFE], V2GTP_EXI, payloads[i]))
  }

  lemma {:induction false} WrapAllSerializes(payloads: seq<seq<Byte>>)
    requires forall p :: p in payloads ==> |p| < 0x1_0000_0000
    ensures WrapAll(payloads) == SerializeAll(AsFrames(payloads))
  {
    if payloads != [] {
      WrapAllSerializes(payloads[1..]);
      assert AsFrames(payloads)[1..] == AsFrames(payloads[1..]);
    }
  }

  lemma FramingRoundTrip(payloads: seq<seq<Byte>>)
    requires forall p :: p in payloads ==> |p| < 0x1_0000_0000
    ensures Frames(WrapAll(payloads)) == AsFrames(payloads) && Rest(WrapAll(payloads)) == []
  {
    WrapAllSerializes(payloads);
    Unique(AsFrames(payloads), []);
    assert WrapAll(payloads) + [] == WrapAll(payloads);
  }

  /** The session id survives its encoding, whose first half is zero. */
  lemma SessionIdRoundTrip(id: Uint32)
    ensures FromBigEndian(SessionIdBytes(id)) == id
    ensures SessionIdBytes(id)[..4] == [0, 0, 0, 0]
  {
    Pow256Values();
    DecodeEncode(id, 8);
    var s := SessionIdBytes(id);
    assert s == BigEndian(id / 0x1_0000_0000, 4) + s[4..] by {
      HighHalf(id);
    }
    assert BigEndian(0, 4) == [0, 0, 0, 0];
  }

  lemma HighHalf(n: nat)
    ensures BigEndian(n, 8)[..4] == BigEndian(n / 0x1_0000_0000, 4)
  {
    var a := n / 256;
    var b := a / 256;
    var c := b / 256;
    var d := c / 256;
    assert d == n / 0x1_0000_0000;
    assert BigEndian(n, 8) == BigEndian(a, 7) + [n % 256];
    assert BigEndian(a, 7) == BigEndian(b, 6) + [a % 256];
    assert BigEndian(b, 6) == BigEndian(c, 5) + [b % 256];
    assert BigEndian(c, 5) == BigEndian(d, 4) + [c % 256];
  }

  lemma SessionIdInjective(a: Uint32, b: Uint32)
    requires SessionIdBytes(a) == SessionIdBytes(b)
    ensures a == b
  {
    SessionIdRoundTrip(a);
    SessionIdRoundTrip(b);
  }
}
