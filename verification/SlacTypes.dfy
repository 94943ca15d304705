/**
 * The data of the SLAC matching process (Annex A of ISO 15118-3): frames, the protocol
 * states of both roles, one context, and what the outside world supplies to one step.
 */
module SlacTypes {
  import opened Bytes

  const NUM_SOUNDS: nat := 10
  const NUM_GROUPS: nat := 58
  const EV_MATCH_RETRY: nat := 3

  // Receive deadlines, in milliseconds
  const PARM_CNF_MS: nat := 400
  const ATTEN_CHAR_MS: nat := 800        // TT_EVSE_MATCH_MNBC_MS + 200
  const VALIDATE_CNF_MS: nat := 1200
  const MATCH_JOIN_MS: nat := 12000
  const START_ATTEN_MS: nat := 800
  const EVSE_MNBC_MS: nat := 600
  const ATTEN_RSP_MS: nat := 800
  const VALIDATE_REQ_MS: nat := 1500

  type Mac = s: seq<Byte> | |s| == 6 witness [0, 0, 0, 0, 0, 0]
  type RunId = s: seq<Byte> | |s| == 8 witness [0, 0, 0, 0, 0, 0, 0, 0]
  type Nmk = s: seq<Byte> | |s| == 16 witness seq(16, _ => 0)
  type Nid = s: seq<Byte> | |s| == 7 witness [0, 0, 0, 0, 0, 0, 0]
  type Groups = s: seq<Byte> | |s| == NUM_GROUPS witness seq(NUM_GROUPS, _ => 0)
  type Rands = s: seq<nat> | |s| == NUM_GROUPS witness seq(NUM_GROUPS, _ => 0)

  /** The management messages, with every field that some step reads or that varies. */
  datatype Frame =
    | ParmReq(src: Mac, runId: RunId)
    | ParmCnf(src: Mac, dst: Mac, runId: RunId)
    | StartAtten(src: Mac, runId: RunId)
    | Sound(src: Mac, cnt: Byte, runId: RunId)
    | AttenChar(src: Mac, dst: Mac, runId: RunId, numSounds: Byte, aag: Groups)
    | AttenRsp(src: Mac, dst: Mac, runId: RunId)
    | ValidateReq(src: Mac, dst: Mac)
    | ValidateCnf(src: Mac, dst: Mac, result: Byte)
    | MatchReq(src: Mac, dst: Mac, runId: RunId)
    | MatchCnf(src: Mac, dst: Mac, runId: RunId, nmk: Nmk, nid: Nid)

  datatype SlacState =
    | EvIdle | EvSendParmReq | EvWaitParmCnf | EvSendStartAtten | EvSendMnbcSounds
    | EvWaitAttenChar | EvSendAttenRsp | EvSendValidate | EvWaitValidateCnf
    | EvSendMatchReq | EvWaitMatchCnf | EvMatched | EvFailed
    | EvseIdle | EvseWaitParmReq | EvseSendParmCnf | EvseWaitStartAtten | EvseCollectSounds
    | EvseSendAttenChar | EvseWaitAttenRsp | EvseWaitValidateReq | EvseSendValidateCnf
    | EvseWaitMatchReq | EvseSendMatchCnf | EvseMatched | EvseFailed

  predicate EvState(s: SlacState) {
    match s
    case EvIdle | EvSendParmReq | EvWaitParmCnf | EvSendStartAtten | EvSendMnbcSounds => true
    case EvWaitAttenChar | EvSendAttenRsp | EvSendValidate | EvWaitValidateCnf => true
    case EvSendMatchReq | EvWaitMatchCnf | EvMatched | EvFailed => true
    case _ => false
  }

  predicate Final(s: SlacState) {
    s == EvMatched || s == EvFailed || s == EvseMatched || s == EvseFailed
  }

  /**
   * One context. `peer` and, for the EVSE, `runId` are what slac_step keeps in static
   * buffers between calls: the address and run id learnt from the other side.
   */
  datatype Ctx = Ctx(
    isEv: bool,
    state: SlacState,
    localMac: Mac,
    peer: Mac,
    runId: RunId,
    nmk: Nmk,
    nid: Nid,
    aag: Groups,
    soundCount: Byte,
    retryCount: nat,
    lastTime: nat)

  /**
   * The nondeterminism of one step. `recv` is what recv_frame yields (None: timeout, a
   * short frame or a foreign type); `now` is the clock when millis() is read; the first
   * `sendOk` calls of send_frame succeed and the next one fails; the rest is rand().
   */
  datatype Env = Env(
    recv: Option<Frame>,
    now: nat,
    sendOk: nat,
    freshRunId: RunId,
    freshNmk: Nmk,
    freshNid: Nid,
    rands: Rands)

  /** A context advanced by one step, and the frames the step put on the wire, in order. */
  datatype Stepped = Stepped(ctx: Ctx, sent: seq<Frame>)
}
