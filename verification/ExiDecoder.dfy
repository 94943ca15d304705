/** Message classification over an abstract EXI codec, and the SupportedAppProtocol choice. */
module ExiDecoder {
  import opened Bytes

  const UINT_MAX: Uint32 := 0xFFFF_FFFF

  datatype MsgType =
    | Unknown | SupportedAppProtocol | SessionSetup | ServiceDiscovery | ServiceDetail
    | PaymentServiceSelection | Authorization | ChargeParameterDiscovery | CableCheck
    | PreCharge | PowerDelivery | CurrentDemand | WeldingDetection | SessionStop

  /** The values of exi_msg_type_t. */
  function MsgCode(t: MsgType): nat {
    match t
    case Unknown => 0
    case SupportedAppProtocol => 1
    case SessionSetup => 2
    case ServiceDiscovery => 3
    case ServiceDetail => 4
    case PaymentServiceSelection => 5
    case Authorization => 6
    case ChargeParameterDiscovery => 7
    case CableCheck => 8
    case PreCharge => 9
    case PowerDelivery => 10
    case CurrentDemand => 11
    case WeldingDetection => 12
    case SessionStop => 13
  }

  /** The twelve requests of an iso1 message body. */
  predicate IsRequest(t: MsgType) {
    MsgCode(t) >= 2
  }

  /** Of two requests in one body, t prevails: by code, but for CurrentDemand over PowerDelivery. */
  predicate Prevails(t: MsgType, u: MsgType) {
    if t == PowerDelivery && u == CurrentDemand then false
    else if t == CurrentDemand && u == PowerDelivery then true
    else MsgCode(t) < MsgCode(u)
  }

  /** What a body is a request for: the one that prevails over all others, if it holds any. */
  predicate Denotes(body: set<MsgType>, t: MsgType) {
    if forall u :: u in body ==> !IsRequest(u) then t == Unknown
    else t in body && IsRequest(t) && forall u :: u in body && IsRequest(u) && u != t ==> Prevails(t, u)
  }

  datatype AppProtocol = AppProtocol(schemaId: nat, priority: Uint32)

  /** A decoded appHand document: is it a request, and which protocols does it offer? */
  datatype AppDoc = AppDoc(requestUsed: bool, protocols: seq<AppProtocol>)

  /** A decoded iso1 document: is it a message, and which request elements does it hold? */
  datatype IsoDoc = IsoDoc(messageUsed: bool, body: set<MsgType>)

  /** The varying part of an iso1 response document: which response, for which session. */
  datatype IsoResponse = IsoResponse(kind: MsgType, sessionId: seq<Byte>)

  /** What an encoder can produce in the builders' 1024-byte EXI buffer. */
  type ExiBytes = s: seq<Byte> | |s| <= 1024

  /**
   * The OpenV2G codec, as deterministic functions. None is a codec error; for the encoders
   * it also covers a failed flush or a failed decode-back check.
   */
  datatype Codec = Codec(
    decodeApp: seq<Byte> -> Option<AppDoc>,
    decodeIso: seq<Byte> -> Option<IsoDoc>,
    encodeApp: Byte -> Option<ExiBytes>,
    encodeIso: IsoResponse -> Option<ExiBytes>)

  /** k is the earliest of the entries with the numerically smallest priority. */
  predicate EarliestBest(ps: seq<AppProtocol>, k: nat) {
    && k < |ps|
    && (forall j :: 0 <= j < |ps| ==> ps[k].priority <= ps[j].priority)
    && (forall j :: 0 <= j < k ==> ps[k].priority < ps[j].priority)
  }

  function BestIndex(ps: seq<AppProtocol>): (k: nat)
    requires ps != []
    ensures EarliestBest(ps, k)
  {
    var n := |ps| - 1;
    if n == 0 then 0
    else
      var k := BestIndex(ps[..n]);
      assert forall j :: 0 <= j < n ==> ps[..n][j] == ps[j];
      if ps[n].priority < ps[k].priority then n else k
  }

  function ChosenSchema(doc: AppDoc): nat {
    if !doc.requestUsed || doc.protocols == [] then 1
    else doc.protocols[BestIndex(doc.protocols)].schemaId
  }

  /** choose_supported_app_protocol_schema. */
  method ChooseSchema(doc: AppDoc) returns (schema: nat)
    ensures !doc.requestUsed || doc.protocols == [] ==> schema == 1
    ensures doc.requestUsed && doc.protocols != [] ==>
              exists k: nat :: EarliestBest(doc.protocols, k) && schema == doc.protocols[k].schemaId
    ensures schema == ChosenSchema(doc)
  {
    var ps := doc.protocols;
    if !doc.requestUsed || |ps| == 0 {
      return 1;
    }
    schema := ps[0].schemaId;
    var best := UINT_MAX;
    for i := 0 to |ps|
      invariant i == 0 ==> schema == ps[0].schemaId && best == UINT_MAX
      invariant i > 0 ==> var k := BestIndex(ps[..i]); schema == ps[k].schemaId && best == ps[k].priority
    {
      assert ps[..i + 1][..i] == ps[..i];
      if ps[i].priority < best {
        best, schema := ps[i].priority, ps[i].schemaId;
      }
    }
    assert ps[..|ps|] == ps;
  }

  /** The order in which a message body is searched for a known request. */
  const ISO_ORDER: seq<MsgType> := [
    SessionSetup, ServiceDiscovery, ServiceDetail, PaymentServiceSelection, Authorization,
    ChargeParameterDiscovery, CableCheck, PreCharge, CurrentDemand, PowerDelivery,
    WeldingDetection, SessionStop]

  function FirstUsed(body: set<MsgType>, order: seq<MsgType>): (t: MsgType)
    ensures t == Unknown || (t in body && t in order)
  {
    if order == [] then Unknown
    else if order[0] in body then order[0]
    else FirstUsed(body, order[1..])
  }

  /** The earliest entry of `order` that the body holds, and nothing else, is the answer. */
  lemma {:induction false} FirstUsedIsFirst(body: set<MsgType>, order: seq<MsgType>, k: nat)
    requires k < |order| && order[k] in body && forall j :: 0 <= j < k ==> order[j] !in body
    ensures FirstUsed(body, order) == order[k]
  {
    if k > 0 {
      FirstUsedIsFirst(body, order[1..], k - 1);
    }
  }

  lemma {:induction false} NoneUsed(body: set<MsgType>, order: seq<MsgType>)
    requires forall t :: t in order ==> t !in body
    ensures FirstUsed(body, order) == Unknown
  {
    if order != [] {
      NoneUsed(body, order[1..]);
    }
  }

  /** Whatever the search finds, nothing before it is in the body; and it finds something if there is anything. */
  lemma {:induction false} FirstUsedFound(body: set<MsgType>, order: seq<MsgType>) returns (k: nat)
    requires Unknown !in order
    ensures k <= |order| && forall j :: 0 <= j < k ==> order[j] !in body
    ensures FirstUsed(body, order) == if k < |order| then order[k] else Unknown
    ensures k < |order| ==> order[k] in body
  {
    if order == [] || order[0] in body {
      k := 0;
    } else {
      k := FirstUsedFound(body, order[1..]);
      k := k + 1;
    }
  }

  /** The search order is that of prevalence, and no request is missing from it. */
  lemma OrderPrevails()
    ensures forall i, j :: 0 <= i < j < |ISO_ORDER| ==> Prevails(ISO_ORDER[i], ISO_ORDER[j])
    ensures forall t :: IsRequest(t) <==> t in ISO_ORDER
  {
    forall t
      ensures IsRequest(t) <==> t in ISO_ORDER
    {
      if IsRequest(t) {
        var k := if MsgCode(t) < 10 then MsgCode(t) - 2
                 else if MsgCode(t) == 10 then 9 else if MsgCode(t) == 11 then 8 else MsgCode(t) - 2;
        assert ISO_ORDER[k] == t;
      }
    }
  }

  lemma SearchDenotes(body: set<MsgType>)
    ensures Denotes(body, FirstUsed(body, ISO_ORDER))
  {
    hide Prevails, MsgCode, FirstUsed;
    OrderPrevails();
    assert !IsRequest(Unknown) by {
      NotRequests();
    }
    var k := FirstUsedFound(body, ISO_ORDER);
    if k < |ISO_ORDER| {
      var t := ISO_ORDER[k];
      assert t in ISO_ORDER;
      forall u | u in body && IsRequest(u) && u != t
        ensures Prevails(t, u)
      {
        var j :| 0 <= j < |ISO_ORDER| && ISO_ORDER[j] == u;
      }
    }
  }

  lemma NotRequests()
    ensures !IsRequest(Unknown) && !IsRequest(SupportedAppProtocol)
  {
  }

  /** A body is a request for at most one thing. */
  lemma DenotesUnique(body: set<MsgType>, t: MsgType, u: MsgType)
    requires Denotes(body, t) && Denotes(body, u)
    ensures t == u
  {
  }

  /** A body with a single request is classified as that request, each of the twelve. */
  lemma OneRequest(t: MsgType)
    requires IsRequest(t)
    ensures Classify(IsoDoc(true, {t})) == t
  {
    SearchDenotes({t});
    assert t in {t};
  }

  /** The chain of tests on the body's request flags. */
  method ClassifyBody(body: set<MsgType>) returns (t: MsgType)
    ensures t == FirstUsed(body, ISO_ORDER)
    ensures Denotes(body, t)
  {
    hide Denotes, FirstUsed, Prevails, MsgCode, IsRequest;
    SearchDenotes(body);
    if SessionSetup in body {
      FirstUsedIsFirst(body, ISO_ORDER, 0);
      return SessionSetup;
    }
    if ServiceDiscovery in body {
      FirstUsedIsFirst(body, ISO_ORDER, 1);
      return ServiceDiscovery;
    }
    if ServiceDetail in body {
      FirstUsedIsFirst(body, ISO_ORDER, 2);
      return ServiceDetail;
    }
    if PaymentServiceSelection in body {
      FirstUsedIsFirst(body, ISO_ORDER, 3);
      return PaymentServiceSelection;
    }
    if Authorization in body {
      FirstUsedIsFirst(body, ISO_ORDER, 4);
      return Authorization;
    }
    if ChargeParameterDiscovery in body {
      FirstUsedIsFirst(body, ISO_ORDER, 5);
      return ChargeParameterDiscovery;
    }
    if CableCheck in body {
      FirstUsedIsFirst(body, ISO_ORDER, 6);
      return CableCheck;
    }
    if PreCharge in body {
      FirstUsedIsFirst(body, ISO_ORDER, 7);
      return PreCharge;
    }
    if CurrentDemand in body {
      FirstUsedIsFirst(body, ISO_ORDER, 8);
      return CurrentDemand;
    }
    if PowerDelivery in body {
      FirstUsedIsFirst(body, ISO_ORDER, 9);
      return PowerDelivery;
    }
    if WeldingDetection in body {
      FirstUsedIsFirst(body, ISO_ORDER, 10);
      return WeldingDetection;
    }
    if SessionStop in body {
      FirstUsedIsFirst(body, ISO_ORDER, 11);
      return SessionStop;
    }
    NoneUsed(body, ISO_ORDER);
    t := Unknown;
  }

  function Classify(doc: IsoDoc): MsgType {
    if doc.messageUsed then FirstUsed(doc.body, ISO_ORDER) else Unknown
  }

  predicate IsAppRequest(codec: Codec, data: seq<Byte>) {
    var app := codec.decodeApp(data);
    app.Some? && app.value.requestUsed
  }

  /** The message type of a payload; it depends on the payload alone. */
  function TypeOf(codec: Codec, data: seq<Byte>): MsgType {
    if data == [] then Unknown
    else if IsAppRequest(codec, data) then SupportedAppProtocol
    else
      var iso := codec.decodeIso(data);
      if iso.None? then Unknown else Classify(iso.value)
  }

  /** What a payload means, said without the order of the tests. */
  predicate Means(codec: Codec, data: seq<Byte>, t: MsgType) {
    var app, iso := codec.decodeApp(data), codec.decodeIso(data);
    if data == [] then t == Unknown
    else if app.Some? && app.value.requestUsed then t == SupportedAppProtocol
    else if iso.Some? && iso.value.messageUsed then Denotes(iso.value.body, t)
    else t == Unknown
  }

  lemma TypeOfMeans(codec: Codec, data: seq<Byte>, t: MsgType)
    ensures t == TypeOf(codec, data) <==> Means(codec, data, t)
  {
    hide Denotes, FirstUsed;
    var iso := codec.decodeIso(data);
    if iso.Some? {
      SearchDenotes(iso.value.body);
      if Denotes(iso.value.body, t) {
        DenotesUnique(iso.value.body, t, FirstUsed(iso.value.body, ISO_ORDER));
      }
    }
  }

  /** The module's static variables: the last selected SchemaID and whether it is current. */
  datatype Selection = Selection(schema: nat, valid: bool) {
    function Current(): nat {
      if valid then schema else 1
    }
  }

  function SelectionAfter(codec: Codec, data: seq<Byte>, sel: Selection): Selection {
    if data == [] then sel
    else if IsAppRequest(codec, data) then Selection(ChosenSchema(codec.decodeApp(data).value), true)
    else sel.(valid := false)
  }

  class Decoder {
    var schema: nat
    var valid: bool

    constructor ()
      ensures schema == 1 && !valid
    {
      schema, valid := 1, false;
    }

    function Value(): Selection
      reads this
    {
      Selection(schema, valid)
    }

    /** exi_get_supported_app_protocol_schema. */
    function CurrentSchema(): (s: nat)
      reads this
      ensures s == Value().Current()
    {
      if valid then schema else 1
    }

    /** exi_decode_message. */
    method Decode(codec: Codec, data: seq<Byte>) returns (t: MsgType)
      modifies this
      ensures t == TypeOf(codec, data) && Means(codec, data, t)
      ensures Value() == SelectionAfter(codec, data, old(Value()))
      ensures CurrentSchema() == if data == [] then old(CurrentSchema())
                                 else if IsAppRequest(codec, data) then ChosenSchema(codec.decodeApp(data).value)
                                 else 1
    {
      hide Means, Denotes, FirstUsed, BestIndex;
      TypeOfMeans(codec, data, TypeOf(codec, data));
      if |data| == 0 {
        return Unknown;
      }
      var app := codec.decodeApp(data);
      if app.Some? && app.value.requestUsed {
        schema := ChooseSchema(app.value);
        valid := true;
        return SupportedAppProtocol;
      }
      valid := false;
      var iso := codec.decodeIso(data);
      if iso.None? {
        return Unknown;
      }
      if iso.value.messageUsed {
        t := ClassifyBody(iso.value.body);
        return;
      }
      t := Unknown;
    }
  }
}
