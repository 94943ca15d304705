# Verified model of the SECC communication core

This project models the protocol core of a Supply Equipment Communication Controller (the
charging-station side of ISO 15118) and proves what its parts promise to each other:

* **SLAC matching** (`v2g/slac.c`, Annex A of ISO 15118-3). `SlacSpec` says what one call of
  `ev_step` and of `evse_step` does; `SlacContext` is the C context, updated in place and proved
  equal to it. `SlacProtocol` runs one EV against one EVSE over a network that loses, delays,
  duplicates and reorders frames but never forges them, and keeps an inductive invariant over every
  run. `SlacCausality` proves key agreement and the order of the handshake, `SlacTermination` that
  the roles end, `SlacDeadlines` how long each timed wait lasts and what ends it, `SlacLiveness` that over a clean channel both sides match, `SlacMatching` when a
  matched EVSE has a matched EV, `SlacAttenuation` the 8-bit averages, `SlacProfile` that the EV takes over those, and `SlacWitness` builds runs
  that show where the code promises less than one would expect.
* **V2GTP reassembly and the session loop** (`v2g/v2gtp_handler.c`, `core/secc_session.c`, section
  7.8.3 of ISO 15118-2). `V2gtpFraming` is a recursive parser over a whole stream with its inverse;
  `V2gSession` is the session as a fold over messages and the chunk-by-chunk run; `V2gConversation`
  says what a run answers without mentioning the machine. `V2gtpHandler`, `V2gtpResponse` and
  `Transport` are the code on its 2048-byte buffers, proved to compute just that for every way the
  network cuts the stream.
* **Supporting cores**: the EXI message classifier and schema choice (`ExiDecoder`), the SDP
  exchange (`SdpHandler`, section 7.10.1 of ISO 15118-2) and the logger's ring buffer (`SeccLog`).

Properties that are false of the code are kept as such, with a witness and the exact condition under
which they hold:

* No received frame has its run id checked, so a matched pair need not agree on the run id; it is
  bound to exactly when the EV has not timed out (`SlacWitness.RunIdAgreementIff`).
* A matched EVSE does not imply a matched EV (`SlacWitness.EvseMatchedAlone`). The EV is then in its
  last wait or past it (`SlacMatching.EvseMatchedEvWaits`), and matches if and only if a MATCH.CNF
  reaches it before a step reads the clock more than 12 s after the MATCH.REQ was sent
  (`SlacMatching.EvMatchesIff`).
* `v2g/slac.h:36` names a 20 s limit on the EVSE's wait for the first PARM.REQ; no code applies it,
  so that a run can wait for ever (`SlacTermination.EvseWaitsForEver`) and ends if and only if a
  PARM.REQ arrives (`SlacTermination.EvseRunEndsIff`).
* The attenuation accumulators are 8 bits wide and wrap: a run with seven sounds reports 2 dB for
  39 dB (`SlacAttenuation.SevenSoundsRun`); a report is right if and only if the true sum fits in a
  byte (`SlacAttenuation.ReportedAverages`).
* `8 + payload_length` is computed unsigned and stored in an `int`, and so is its sum with `offset`.
  The deframing loop's test for a complete message is right if and only if the message's end fits an
  `int` (`V2gtpFraming.CompleteTestExactIff`); it fails on `V2gtpFraming.EndOverflows`, and on
  `V2gtpFraming.NeverAdvances` the loop makes no progress. A whole buffer is handled as its complete
  messages ask if and only if one of them stops it or the header behind them meets that condition
  (`V2gSession.DigestParsedIff`).
* ServiceDetail is answered, yet moves the session to ERROR, and no other answered message does
  (`V2gConversation.AnsweredErrorIff`, `V2gConversation.ServiceDetailExists`).
* `secc_log_get_recent` returns the oldest entries held. With no entry repeated these are the newest
  if and only if all of them fit (`SeccLog.OldestIsNewestIff`).

Where comments and code disagree the model follows the code. So the SDP transport byte is ignored
and the V2GTP receiver does not look at the version bytes.

Nondeterminism is an input: the clock, `rand`, `rand_bytes` and the outcome of each send and receive
of a SLAC step come in an `Env` value; a connection carries a plan for its receive calls and a
function that decides each write; the OpenV2G codec is a record of deterministic functions.

Verify with `dafny verify dfyconfig.toml`.

## Model

| member | source | states |
|---|---|---|
| SlacCausality.KeyAgreement | v2g/slac.c:301-322 | In every interleaving over a lossy, replaying, reordering network: whenever the EV is MATCHED so is the EVSE, both hold the same NMK and NID, and the NID's last byte has its two low bits clear |
| SlacCausality.MatchedMeansFullHandshake | v2g/slac.c:328-557 | Behind a matched EV lie all ten kinds of message, each sent at its own earlier step and in protocol order: none can be skipped or overtaken by replays |
| SlacCausality.EvPhaseCausality | v2g/slac.c:341-435 | Each EV phase past a wait implies that the EVSE had by then sent the frame it depends on, from its own sending state, whatever either side does later |
| SlacCausality.EvsePhaseCausality | v2g/slac.c:451-549 | The converse: each EVSE phase past a wait implies that the EV had sent the corresponding frame; a counted sound implies a sound was sent |
| SlacCausality.Provenance | v2g/slac.c:117-140 | No forgery: every frame on the wire was put there at an earlier step by its sender in the one state that sends that kind |
| SlacCausality.EvRankMonotone | v2g/slac.c:357-435 | Once past the retry loop the EV never falls back to an earlier phase in any run, short of failing |
| SlacCausality.RunIdProvenance | v2g/slac.c:160-172 | The EVSE's run id, once it has one, and every run id on the wire was broadcast by the EV in an earlier PARM.REQ |
| SlacCausality.OneRunIdWithoutTimeout | v2g/slac.c:341-355 | While the EV has not timed out, the EVSE and every frame carry the EV's current run id |
| SlacProtocol.NextPreserves | v2g/slac.c:328-560 | Every step of either side, with any delivery, preserves the joint invariant on roles, keys, addresses and run ids |
| SlacProtocol.RunInv | v2g/slac.c:328-560 | The joint invariant holds in every state of every run |
| SlacProtocol.EvSends | v2g/slac.c:160-231 | Whatever one EV step sends bears the EV's address and current run id, is addressed to the learnt peer unless broadcast, and is never sent by a step that fails |
| SlacProtocol.EvseSends | v2g/slac.c:236-322 | Whatever one EVSE step sends bears its address, the learnt peer and run id; a MATCH.CNF leaves the EVSE matched with the very keys it carries |
| SlacWitness.RunIdAgreementIff | v2g/slac.c:451-460 | All matched reachable states with a given retry count agree on the run id if and only if that count is zero |
| SlacWitness.HandshakeCompletes | v2g/slac.c:301-322 | Whatever run id the EV draws first and whatever NMK and NID the EVSE draws, some run matches both sides on just those without a time-out |
| SlacWitness.EvseMatchedAlone | v2g/slac.c:418-433 | A reachable state in which the EVSE is matched and the EV has failed |
| SlacMatching.EvseMatchedEvWaits | v2g/slac.c:418-433 | In every run a matched EVSE has an EV that waits for MATCH.CNF, or has done so and is matched or failed |
| SlacMatching.EvMatchesIff | v2g/slac.c:412-433 | The EV matches if and only if some step after the one that sends the MATCH.REQ receives a MATCH.CNF and every step between reads the clock within 12000 ms of the sending |
| SlacMatching.EvPatience | v2g/slac.c:412-433 | For 12000 ms from sending the MATCH.REQ the EV is waiting or matched |
| SlacDeadlines.WaitLastsIff | v2g/slac.c:341-554 | In every run a side is still in a timed wait exactly when nothing it waits for has come and no step has read the clock past the wait's deadline (EV 400, 800, 1200, 12000 ms; EVSE 800, 800, 1500, 12000 ms), counted from the step that began the wait |
| SlacDeadlines.WaitGoesOn | v2g/slac.c:341-554 | What ends it: the awaited frame, however late, moves to the next phase (a refused validation fails); without it the deadline fails the side, or has the EV retry while fewer than three attempts are made |
| SlacDeadlines.WaitSucceedsIff | v2g/slac.c:341-554 | A wait succeeds if and only if what it is for comes before the clock is read past the deadline |
| SlacDeadlines.Patience | v2g/slac.c:341-554 | Until the clock is past the deadline a side is in its wait or has taken what it is for |
| SlacDeadlines.CollectLastsIff | v2g/slac.c:466-502 | The EVSE is still collecting exactly when fewer than ten sounds have come and no silent step read the clock more than 600 ms after the START_ATTEN was taken |
| SlacDeadlines.CollectCounts | v2g/slac.c:482-502 | The sound count is the number of sounds received since; the tenth ends the collection, a late silent step ends it with a report if there was a sound and in failure if not |
| SlacDeadlines.TimerStarts | v2g/slac.c:335-549 | Every timed wait a step begins counts from that step's clock |
| SlacDeadlines.EvSendingStep | v2g/slac.c:160-231 | An EV step sends the one frame or ten sounds of its state, cut at the first failing send, and moves on regardless, but for a PARM.REQ that could not be sent; a PARM.REQ carries a fresh run id |
| SlacDeadlines.EvseSendingStep | v2g/slac.c:236-322 | The same for the EVSE, which moves on regardless |
| SlacLiveness.CleanRunMatches | v2g/slac.c:328-557 | If no send fails, frames are taken in order one per wait, and no wait reads the clock past its deadline from the step that began it, every interleaving in which neither side stops stepping matches both sides at the first attempt, on one key and one run id |
| SlacLiveness.CleanRunExists | v2g/slac.c:600-614 | Such runs exist, for every run id the EV may draw |
| SlacLiveness.NoDeadlock | v2g/slac.c:328-557 | In such a run one side can always get further until both are matched |
| SlacLiveness.EvTurnOnScript | v2g/slac.c:328-435 | Each EV turn keeps the frames under way to just those sent and not yet taken, and gets further unless there is nothing to take |
| SlacLiveness.EvseTurnOnScript | v2g/slac.c:444-557 | The same for the EVSE, the ten sounds one by one |
| SlacSpec.EvMatchingStep | v2g/slac.c:418-427 | The EV step that matches has received a MATCH.CNF, takes over its keys and changes nothing else |
| SlacSpec.EvseMatchingStep | v2g/slac.c:301-322 | The EVSE step that matches stores the NMK drawn, and the NID drawn with its two low bits cleared, and sends just those unless the send fails |
| SlacSpec.SampleCycle | v2g/slac.c:487-488 | Over successive draws the measurement runs through 20..39 in a circle |
| SlacProfile.ProfileAgreement | v2g/slac.c:362-383 | In every run an EV past the attenuation profile holds just what its EVSE averaged |
| SlacTermination.EvRunEnds | v2g/slac.c:600-614 | The EV role reaches a final state whatever frames arrive, on a monotonic clock that keeps going |
| SlacTermination.EvRunBound | v2g/slac.c:335-355 | A fresh EV is final after 15220 steps at the latest if no idle wait step leaves the clock where it was |
| SlacTermination.EvseRunBound | v2g/slac.c:463-554 | On the same terms an EVSE that has taken a PARM.REQ is final 15724 steps later at the latest |
| SlacTermination.EvseRunEndsIff | v2g/slac.c:451-461 | The EVSE role reaches a final state if and only if some PARM.REQ ever reaches it |
| SlacTermination.EndsEventually | v2g/slac.c:463-554 | Once past WAIT_PARM_REQ a run of either role reaches a final state |
| SlacTermination.EndsWithinMeasure | v2g/slac.c:463-554 | The same with a bound: the measure (retries, phase, sounds still to come, time to the deadline) of the start bounds the steps left |
| SlacTermination.StepDrops | v2g/slac.c:333-554 | No step raises the measure, and every step outside the open-ended wait lowers it unless nothing at all changed |
| SlacTermination.WaitsForParmReq | v2g/slac.c:451-461 | Until a PARM.REQ arrives the EVSE context stays exactly as slac_run set it up |
| SlacTermination.EvseWaitsForEver | v2g/slac.c:451-461 | An EVSE run on a clock that goes on which never reaches a final state |
| SlacTermination.AttemptsCounted | v2g/slac.c:341-355 | A fresh EV attempts at most three PARM.REQs; at any step their number is the retry count, or one more once the current attempt is made. A context run again keeps the count of the run before, and attempts at least once |
| SlacTermination.FirstEnd | v2g/slac.c:600-614 | The run from the started context exists and has a final state, for either role under its own condition |
| SlacAttenuation.RunHolds | v2g/slac.c:482-502 | At every step of an EVSE run each accumulator is the sum of the measurements taken, modulo 256, and the sound count is their number, at most ten |
| SlacAttenuation.ReportedAverages | v2g/slac.c:280-287 | An ATTEN_CHAR.IND reports one to ten sounds and, for 58 groups, the wrapped sum over their number; that is the true floor average, and lies in 20..39, if and only if the true sum fits in a byte, which up to six sounds it does |
| SlacAttenuation.ReportExactIff | v2g/slac.h:223 | The arithmetic behind that: wrapped sum over count equals true sum over count exactly up to 255 |
| SlacAttenuation.SevenSoundsMisreported | v2g/slac.c:487-488 | Six is tight: seven measurements of 39 dB are reported as 2 dB |
| SlacAttenuation.SevenSoundsRun | v2g/slac.c:482-502 | On a run of the EVSE: seven sounds measured at 39 dB, then silence, and the ATTEN_CHAR.IND sent reports 2 dB in every group |
| SlacContext.Context.constructor | v2g/slac.c:566-577 | A fresh context is idle in its role with every other field zero but its own address |
| SlacContext.Context.SendMnbcSounds | v2g/slac.c:190-206 | The loop emits sounds 9 down to 0 and stops at the first failing send |
| SlacContext.Context.AddMeasurement | v2g/slac.c:487-488 | Every group accumulates its own measurement with 8-bit wrap-around, in place |
| SlacContext.Context.AverageGroups | v2g/slac.c:283-285 | Each group's value over the sound count, zero without sounds |
| SlacContext.Context.EvStep | v2g/slac.c:328-438 | The in-place EV step yields the whole new context and the frames sent that the specification step gives |
| SlacContext.Context.EvseStep | v2g/slac.c:444-560 | The same for the EVSE |
| SlacContext.Context.Step | v2g/slac.c:579-598 | The step of the context's role; a final context stays as it is, the step that matches holds the keys of the MATCH.CNF received or sent, and the code is 0 exactly while no final state is reached |
| SlacContext.Context.Start | v2g/slac.c:600-609 | The entry of slac_run sets the first state and, for the EVSE, clears the counters and nothing else; the retry count stays |
| SlacContext.Context.Run | v2g/slac.c:600-626 | slac_run stops at the first final context of the run from the started one; 0 exactly when matched |
| V2gtpFraming.ParseHeader | v2g/v2gtp_parser.c:10-25 | The shifted bytes are the big-endian 16- and 32-bit fields |
| V2gtpFraming.Conservation | v2g/v2gtp_handler.c:64-144 | Re-serializing the parsed messages and appending the remainder gives back the stream, byte for byte |
| V2gtpFraming.Unique | v2g/v2gtp_handler.c:64-133 | Deframing is the only reading: serialized messages followed by an incomplete rest parse to exactly those messages and that rest |
| V2gtpFraming.Split | v2g/v2gtp_handler.c:50-144 | Parsing a prefix, then its remainder with the rest of the stream, is parsing the whole |
| V2gtpFraming.RestShort | v2g/v2gtp_handler.c:136-144 | With messages of at most m bytes the remainder is always shorter than m |
| V2gtpFraming.CompleteTestExactIff | v2g/v2gtp_handler.c:77-86 | With both sums in 32 bits, the loop's test for a complete message, and the next offset, are right if and only if the message's end fits an int; any other message is taken to be there |
| V2gtpFraming.EndOverflows | v2g/v2gtp_handler.c:78-79 | An empty message followed by a header that declares 2^31 - 9 bytes: message_len is right, its sum with the offset overflows and 2 GB are taken to be there |
| V2gtpFraming.NeverAdvances | v2g/v2gtp_handler.c:78-94 | A non-EXI header on which the next offset is the header's own |
| V2gSession.RunIsParse | core/secc_session.c:99-118 | A run over chunks that goes on, or is stopped by a complete message, handles, answers and keeps exactly what one parse of all the bytes prescribes, up to the same first unanswerable message |
| V2gSession.RunStops | core/secc_session.c:105-117 | A run that stops was a parse of all bytes up to one chunk, and stops in processing that chunk |
| V2gSession.DigestParsedIff | v2g/v2gtp_handler.c:61-133 | The loop does what the complete messages in the buffer ask for if and only if one of them stops it or the end of the message behind them fits an int |
| V2gConversation.NegativeLengthRefused | v2g/v2gtp_handler.c:99-128 | An EXI header of negative length ends the session in ERROR after all complete messages before it were answered |
| V2gSession.ChunkIndependence | v2g/v2gtp_handler.c:29-147 | Two ways of cutting one stream, neither overflowing nor meeting a length beyond an int, end in the same state, responses, handled messages, remainder and outcome |
| V2gSession.ProcessConserves | v2g/v2gtp_handler.c:50-144 | After a successful call, old remainder plus chunk equals the handled messages in order plus the new remainder, which holds no complete message |
| V2gSession.OverflowFree | v2g/v2gtp_handler.c:50-56 | Messages of at most m bytes and reads of at most 2048 - (m - 1) never take the overflow branch, nor meet a length beyond an int, in any run |
| V2gSession.OverflowFreeIff | v2g/v2gtp_handler.c:50-56 | That read bound is tight for every m: reads of at most b > 0 bytes are safe on all streams of such messages if and only if b is at most 2048 - (m - 1) |
| V2gSession.PileUp | v2g/v2gtp_handler.c:50-56 | The other direction's witness: an unfinished message collects byte by byte until one read no longer fits |
| V2gConversation.RunAnswers | v2g/v2gtp_handler.c:90-132 | A run goes through if and only if every EXI message has an answer that can be written; then there is one response per EXI message in order, none for others, each a function of its payload and the unchanged session id |
| V2gConversation.ResponseIsAnswer | exi/exi_decoder.c:63-114 | The stored schema selection never leaks: the SupportedAppProtocol response carries the choice of its own request, in 8 bits, whatever was stored before |
| V2gConversation.RunState | core/secc_state_machine.c:22-86 | After a successful run the state is the one its last steering message leads to: the state numbered in step with the request, ERROR for ServiceDetail |
| V2gSession.DispatchInStep | core/secc_state.h:4-24 | By the numbers of the two enumerations, the n-th request that has a state leads to the n-th state of the V2G phase, and nothing else does |
| V2gSession.FailureEmpties | v2g/v2gtp_handler.c:50-56 | A call overflows exactly when the bytes exceed 2048 and then does nothing else; a call that fails leaves no byte behind |
| V2gConversation.RunStateKept | v2g/v2gtp_handler.c:100-107 | SupportedAppProtocol requests and non-EXI messages alone leave the state unchanged |
| V2gConversation.AnsweredErrorIff | v2g/v2gtp_response_handler.c:1808-1861 | An answered message leaves the session in ERROR if and only if it is ServiceDetail |
| V2gConversation.ServiceDetailExists | core/secc_state_machine.c:80-84 | A codec and a message that leave any session in ERROR, answered and going on |
| V2gConversation.RunRejected | v2g/v2gtp_handler.c:122-128 | A stopped run is stopped by its first unanswerable message; all before it is answered, and an unknown message leaves ERROR |
| V2gConversation.FramingRoundTrip | v2g/v2gtp_response_handler.c:505-511 | Any list of payloads, wrapped and concatenated, parses back to exactly that list with type 0x8001 and nothing left over |
| V2gConversation.SessionIdRoundTrip | v2g/v2gtp_response_handler.c:542-546 | The eight session-id bytes decode to the id and begin with four zeros |
| V2gConversation.SessionIdInjective | v2g/v2gtp_response_handler.c:542-546 | Distinct ids have distinct encodings |
| V2gtpResponse.WriteHeader | v2g/v2gtp_response_handler.c:374-386 | The header bytes are version 1, type 0x8001 and the big-endian length; the rest of the buffer is untouched |
| V2gtpResponse.HeaderRoundTrip | v2g/v2gtp_response_handler.c:374-386 | The header is read back as written for every 32-bit length |
| V2gtpResponse.WriteSessionId | v2g/v2gtp_response_handler.c:542-546 | The loop from the last byte to the first writes the big-endian form |
| V2gtpResponse.WrapInto | v2g/v2gtp_response_handler.c:505-511 | The wrap step leaves one serialized V2GTP message at the front of the buffer |
| V2gtpResponse.BuildResponse | v2g/v2gtp_response_handler.c:1808-1861 | The router produces the specified response, or -1 exactly when there is none |
| V2gtpHandler.Context.constructor | core/secc_session.c:18-28 | A fresh session is idle, has id 1 and an empty receive buffer |
| V2gtpHandler.Context.HandleMessage | core/secc_state_machine.c:22-86 | The switch sets the state numbered in step with the request, by message type alone; ERROR for exactly the three types it does not name |
| V2gtpHandler.Context.HandleExi | v2g/v2gtp_handler.c:96-129 | Decode, dispatch, build and write in place do what the specification's one-message step does |
| V2gtpHandler.Context.Append | v2g/v2gtp_handler.c:50-59 | The chunk goes behind the remainder, or the buffer is emptied when it does not fit |
| V2gtpHandler.Context.Shift | v2g/v2gtp_handler.c:135-144 | The unconsumed bytes move to the front, in order |
| V2gtpHandler.Context.Deframe | v2g/v2gtp_handler.c:61-133 | On every buffer, the loop with its 32-bit sums handles what the recursive parser finds and stops at the parser's remainder, or is refused or lost there exactly as specified |
| V2gtpHandler.Context.TakeAbsent | v2g/v2gtp_handler.c:88-129 | What a message taken to be there does: an EXI one of negative length is handled as empty |
| V2gtpHandler.Context.ProcessMessage | v2g/v2gtp_handler.c:29-147 | One call reads one chunk, whatever it holds, and leaves session and buffer as the specification step does |
| V2gtpHandler.Context.SessionRun | core/secc_session.c:99-118 | However the bytes arrive and whatever they are, the session run is the run over the chunks read and ends in ERROR; it is the parse of all bytes read unless the buffer overflowed or a length was beyond an int |
| Transport.Connection.PlainRead | transport/tls_transport.c:354-444 | A return of n means that the first n bytes of the buffer are the next n stream bytes and the rest is untouched; n reaches the message's end or the buffer's unless a receive brought nothing; -1 consumes nothing |
| Transport.Connection.Fill | transport/tls_transport.c:359-384 | Each read loop appends consecutive stream bytes until its goal, the buffer's end or a dry receive |
| Transport.Connection.Read | transport/tls_transport.c:306-446 | Either branch returns at most len consecutive stream bytes, or consumes nothing |
| Transport.GoalIsMessage | transport/tls_transport.c:391-401 | Without 32-bit wrap-around the goal of a read on a message boundary is min(len, 8 + declared length) |
| ExiDecoder.BestIndex | exi/exi_decoder.c:48-58 | The index found is the earliest of those with the smallest priority |
| ExiDecoder.ChooseSchema | exi/exi_decoder.c:38-61 | The loop returns the SchemaID of the earliest entry of minimum priority, also when every priority is the sentinel, and 1 for an empty list |
| ExiDecoder.FirstUsedIsFirst | exi/exi_decoder.c:147-232 | The classification is the earliest request in the order of tests that the body holds |
| ExiDecoder.ClassifyBody | exi/exi_decoder.c:147-235 | Unknown exactly when the body holds none of the twelve requests; otherwise the held request that prevails over all others, by type number but for CurrentDemand over PowerDelivery |
| ExiDecoder.OneRequest | exi/exi_decoder.c:147-232 | A body with a single request is classified as that request, each of the twelve |
| ExiDecoder.TypeOfMeans | exi/exi_decoder.c:70-236 | The type of a payload is the one meaning it has: application protocol request, or the prevailing request of its iso1 body, or unknown |
| ExiDecoder.Decoder.Decode | exi/exi_decoder.c:70-236 | The type is the payload's meaning; the schema afterwards is the choice of a SupportedAppProtocol request, 1 after anything else, and unchanged by an empty payload |
| SdpHandler.ParseRequestIff | v2g/v2gtp_sdp_handler.c:33-70 | A datagram parses to a request if and only if it begins with that request's ten-byte encoding |
| SdpHandler.DecodeResponseIff | v2g/v2gtp_sdp_handler.c:108-162 | Decoding and building responses are inverse in both directions, for every address, port and security byte |
| SdpHandler.BuildResponse | v2g/v2gtp_sdp_handler.c:108-162 | 28 bytes that are the encoding of the response, or -1 with the buffer untouched when it is too small |
| SdpHandler.Listen | transport/tls_transport.c:824-911 | A reply is sent if and only if the packet is a ten-byte request for security 0x00 or 0x10; it decodes to the given address and port and the requested security; 0 exactly when all 28 bytes went out |
| SdpHandler.AnswerableIff | v2g/v2gtp_sdp_handler.c:33-91 | Those packets, byte by byte |
| SeccLog.QueueIsLatest | core/logging/secc_log.c:137-145 | After any sequence of entries a bounded queue is the last min(total, 1000) of them in order |
| SeccLog.RingBuffer.HoldsLatest | core/logging/secc_log.c:137-145 | In every reachable buffer the count cells from tail on are the last 1000 entries logged, or all of them, oldest first |
| SeccLog.OldestIsNewestIff | core/logging/secc_log.c:183-190 | The oldest n entries are the newest n exactly when entries that far apart are equal, hence with no entry repeated exactly when n takes in all |
| SeccLog.PushWhenFull | core/logging/secc_log.c:141-145 | Overwriting the tail cell and advancing tail drops the oldest entry and adds the new one |
| SeccLog.RingBuffer.Init | core/logging/secc_log.c:67-90 | Initialization empties the buffer once; a second call changes nothing |
| SeccLog.RingBuffer.Insert | core/logging/secc_log.c:137-145 | The circular insertion is one push onto the bounded queue, with head kept at (tail + count) mod 1000 |
| SeccLog.RingBuffer.Log | core/logging/secc_log.c:112-145 | The newest entry carries the given time, level, category and session id, the message cut to 511 characters and the component to 31; the rest are the latest before it; nothing happens before initialization |
| SeccLog.RingBuffer.GetRecent | core/logging/secc_log.c:176-193 | The oldest min(count, max) of the entries held are copied out; with no entry repeated these are the newest if and only if count is at most max; the buffer is unchanged |

## Left out

- V2gtpHandler.Context.Deframe: stops with the outcome Lost where the loop takes a non-EXI message whose end does not fit an int to be there, or an EXI one whose length is still positive. What C does next has no meaning to model: a signed overflow, an offset before the buffer, one that never advances, or one inside a header, or a decoder that is given more bytes than there are. Conversions from unsigned to int are two's complement.
- V2gtpHandler.Context.SessionRun: the peer's stream is finite, so that the loop ends when a read brings nothing.
- SlacContext.Context.constructor: a socket that cannot be opened, for which slac_init returns -1.
- SlacContext.Context.Run: for an EVSE assumes that some PARM.REQ arrives, since slac_run does not return otherwise, as SlacTermination.EvseRunEndsIff proves; the clock is monotonic and keeps going.
- Transport.Connection.Read: for TLS, records and handshake are not modelled; a TLS read is one receive call.
- Transport.Connection.Write: any non-negative result of a write counts as the response having been sent, as in the code; a partial write is not told apart.
- SlacProtocol.RunInv: exactly one EV and one EVSE; frames of the management protocol arrive whole. The code checks only that the Ethernet header is complete and would read stale buffer bytes for a shorter body.
- The OpenV2G codec is a set of deterministic functions; no EXI round trip is assumed, and a failed flush or decode-back check counts as an encoding failure.
- Constant fields of frames and responses (voltages, limits, EVSE id, timers); a response document is its kind and its session id.
- 64-bit wrap-around of the millisecond clock; the two SLAC contexts keep independent clocks.
- The static buffers of slac_step: the learnt address and run id are fields of the context, so contexts of one process that share them are not modelled.
- The cast between secc_session_t and secc_context_t: one context object stands for both.
- Sockets, multicast and interface set-up, TLS, certificates, printing, JSON files and exports, mutexes: calls into the system; a logging call is one atomic step.
- Closing the logger, and the file it writes.
- The example programs v2g/slac_integration.c and v2g/sdp_ipv6_usage_examples.c, the stub handlers and the unused handle_v2g_response: nothing in the core depends on them.
