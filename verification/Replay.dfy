/** The tracker of peer-initiated procedures in the BLE replay connector
    (whad/ble/connector/replay.py). It keeps replayed answers from being sent when the
    connection's own stack has answered already. */
module Replay {

  datatype Procedure = Version | Ping | ConnParams | Features | LlConnParams

  /** What a captured PDU is, as far as the tracker can tell. */
  datatype Kind =
    | VersionInd
    | PingReq | PingRsp
    | ConnParamReq | ConnParamRsp
    | FeatureReq | FeatureRsp
    | L2capUpdateReq | L2capUpdateRsp
    | OtherControl
    | OtherData
  {
    /** The packet has the link-layer control layer. */
    predicate IsControl() {
      this != L2capUpdateReq && this != L2capUpdateRsp && this != OtherData
    }

    /** The procedure that this PDU starts when the peer sends it. */
    predicate Requests(p: Procedure) {
      match p
      case Version => this == VersionInd
      case Ping => this == PingReq
      case ConnParams => this == ConnParamReq
      case Features => this == FeatureReq
      case LlConnParams => this == L2capUpdateReq
    }

    /** The procedure that this PDU answers. */
    predicate Answers(p: Procedure) {
      match p
      case Version => this == VersionInd
      case Ping => this == PingRsp
      case ConnParams => this == ConnParamRsp
      case Features => this == FeatureRsp
      case LlConnParams => this == L2capUpdateRsp
    }
  }

  /** `list.remove`: the first occurrence. */
  function Remove(active: seq<Procedure>, p: Procedure): seq<Procedure> {
    if active == [] then []
    else if active[0] == p then active[1..]
    else [active[0]] + Remove(active[1..], p)
  }

  /** `analyze_incoming_pdu`. */
  function Analyze(active: seq<Procedure>, k: Kind): seq<Procedure> {
    match k
    case VersionInd => if Version !in active then active + [Version] else active
    case PingReq => active + [Ping]
    case ConnParamReq => active + [ConnParams]
    case FeatureReq => active + [Features]
    case L2capUpdateReq => active + [LlConnParams]
    case _ => active
  }

  datatype Decision = Send | Suppress | Refuse | RaiseValueError

  function Answer(active: seq<Procedure>, p: Procedure, otherwise: Decision): (Decision, seq<Procedure>) {
    if p in active then (Suppress, Remove(active, p)) else (otherwise, active)
  }

  /** `should_send_pdu`. There is no guard in front of removing 'features'. */
  function Decide(active: seq<Procedure>, k: Kind, canInject: bool): (Decision, seq<Procedure>) {
    var otherwise := if k.IsControl() && !canInject then Refuse else Send;
    match k
    case VersionInd => Answer(active, Version, otherwise)
    case PingRsp => Answer(active, Ping, otherwise)
    case ConnParamRsp => Answer(active, ConnParams, otherwise)
    case FeatureRsp => Answer(active, Features, RaiseValueError)
    case L2capUpdateRsp => Answer(active, LlConnParams, otherwise)
    case _ => (otherwise, active)
  }

  /** A captured packet: who sent it, and what it is. */
  datatype Captured = Captured(fromCentral: bool, kind: Kind)

  /** What happened to the packets so far. */
  datatype Step = Analyzed(kind: Kind) | Decided(kind: Kind, decision: Decision)

  /** `send_packet`: packets of the central are replayed if we emit; all others,
      including the central's own when we do not emit, are taken for the peer's. */
  function StepOf(active: seq<Procedure>, c: Captured, emitter: bool, canInject: bool): (Step, seq<Procedure>) {
    if c.fromCentral && emitter then
      var (d, active') := Decide(active, c.kind, canInject);
      (Decided(c.kind, d), active')
    else (Analyzed(c.kind), Analyze(active, c.kind))
  }

  function Run(trace: seq<Captured>, emitter: bool, canInject: bool): (seq<Step>, seq<Procedure>) {
    if trace == [] then ([], [])
    else
      var (steps, active) := Run(trace[..|trace| - 1], emitter, canInject);
      var (s, active') := StepOf(active, trace[|trace| - 1], emitter, canInject);
      (steps + [s], active')
  }

  function Count(active: seq<Procedure>, p: Procedure): nat {
    if active == [] then 0 else (if active[0] == p then 1 else 0) + Count(active[1..], p)
  }

  lemma {:induction false} RemoveCount(active: seq<Procedure>, p: Procedure, q: Procedure)
    ensures Count(Remove(active, p), q) == if p == q && p in active then Count(active, q) - 1 else Count(active, q)
  {
    if active != [] {
      RemoveCount(active[1..], p, q);
      assert ([active[0]] + Remove(active[1..], p))[1..] == Remove(active[1..], p);
    }
  }

  // ----- What was asked for, and what was held back -----

  function Requests(steps: seq<Step>, p: Procedure): nat {
    if steps == [] then 0
    else
      var front, s := steps[..|steps| - 1], steps[|steps| - 1];
      Requests(front, p) + if s.Analyzed? && s.kind.Requests(p) then 1 else 0
  }

  function HeldBack(steps: seq<Step>, p: Procedure): nat {
    if steps == [] then 0
    else
      var front, s := steps[..|steps| - 1], steps[|steps| - 1];
      HeldBack(front, p) + if s.Decided? && s.decision == Suppress && s.kind.Answers(p) then 1 else 0
  }

  /** The peer has sent its version, and no answer has been held back since. */
  predicate VersionPending(steps: seq<Step>) {
    if steps == [] then false
    else
      var front, s := steps[..|steps| - 1], steps[|steps| - 1];
      if s == Analyzed(VersionInd) then true
      else if s == Decided(VersionInd, Suppress) then false
      else VersionPending(front)
  }

  /** The list of active procedures is what the requests and the answers held back
      leave outstanding; a version exchange is listed at most once. */
  ghost predicate Tracks(steps: seq<Step>, active: seq<Procedure>, p: Procedure) {
    if p == Version
    then Count(active, p) == (if VersionPending(steps) then 1 else 0)
         && HeldBack(steps, p) + Count(active, p) <= Requests(steps, p)
    else Requests(steps, p) == HeldBack(steps, p) + Count(active, p)
  }

  lemma {:induction false} AppendCount(active: seq<Procedure>, p: Procedure, q: Procedure)
    ensures Count(active + [q], p) == if p == q then Count(active, p) + 1 else Count(active, p)
  {
    if active != [] {
      assert (active + [q])[1..] == active[1..] + [q];
      AppendCount(active[1..], p, q);
    }
  }

  lemma {:induction false} InIffCounted(active: seq<Procedure>, p: Procedure)
    ensures p in active <==> Count(active, p) > 0
  {
    if active != [] {
      InIffCounted(active[1..], p);
    }
  }

  lemma AnalyzeTracks(steps: seq<Step>, active: seq<Procedure>, p: Procedure, k: Kind)
    requires Tracks(steps, active, p)
    ensures Tracks(steps + [Analyzed(k)], Analyze(active, k), p)
  {
    assert (steps + [Analyzed(k)])[..|steps|] == steps;
    match k
    case VersionInd =>
      InIffCounted(active, Version);
      AppendCount(active, p, Version);
    case PingReq => AppendCount(active, p, Ping);
    case ConnParamReq => AppendCount(active, p, ConnParams);
    case FeatureReq => AppendCount(active, p, Features);
    case L2capUpdateReq => AppendCount(active, p, LlConnParams);
    case _ =>
  }

  lemma DecideTracks(steps: seq<Step>, active: seq<Procedure>, p: Procedure, k: Kind, canInject: bool)
    requires Tracks(steps, active, p)
    ensures var (d, active') := Decide(active, k, canInject);
            Tracks(steps + [Decided(k, d)], active', p)
  {
    var (d, active') := Decide(active, k, canInject);
    assert (steps + [Decided(k, d)])[..|steps|] == steps;
    InIffCounted(active, p);
    match k
    case VersionInd => RemoveCount(active, Version, p);
    case PingRsp => RemoveCount(active, Ping, p);
    case ConnParamRsp => RemoveCount(active, ConnParams, p);
    case FeatureRsp => RemoveCount(active, Features, p);
    case L2capUpdateRsp => RemoveCount(active, LlConnParams, p);
    case _ =>
  }

  /** On every run, and so at every moment of it, the tracker counts right. In
      particular no more answers are held back than requests have come in, which
      matches each of them with an earlier request of its own; and for pings, for
      instance, those outstanding are the requests minus the answers held back. */
  lemma {:induction false} TrackerCounts(trace: seq<Captured>, emitter: bool, canInject: bool, p: Procedure)
    ensures var (steps, active) := Run(trace, emitter, canInject);
            Tracks(steps, active, p) && HeldBack(steps, p) <= Requests(steps, p)
  {
    if trace != [] {
      var front, c := trace[..|trace| - 1], trace[|trace| - 1];
      TrackerCounts(front, emitter, canInject, p);
      var (steps, active) := Run(front, emitter, canInject);
      if c.fromCentral && emitter {
        DecideTracks(steps, active, p, c.kind, canInject);
      } else {
        AnalyzeTracks(steps, active, p, c.kind);
      }
    }
  }

  /** Something of the procedure is outstanding. */
  ghost predicate Pending(steps: seq<Step>, p: Procedure) {
    if p == Version then VersionPending(steps) else HeldBack(steps, p) < Requests(steps, p)
  }

  /** After any run, an answer is held back exactly when its procedure is pending. With
      nothing pending it is sent, or refused if the device cannot inject control PDUs;
      except for a feature response, where the tracker raises. */
  lemma AnswerHeldBackIffPending(trace: seq<Captured>, emitter: bool, canInject: bool, k: Kind, p: Procedure)
    requires k.Answers(p)
    ensures var (steps, active) := Run(trace, emitter, canInject);
            Decide(active, k, canInject).0 ==
              if Pending(steps, p) then Suppress
              else if p == Features then RaiseValueError
              else if k.IsControl() && !canInject then Refuse
              else Send
  {
    TrackerCounts(trace, emitter, canInject, p);
    InIffCounted(Run(trace, emitter, canInject).1, p);
  }

  /** Which PDU answers which request: once the peer's request has come in, the captured answer
      is held back, the first time. */
  lemma AnswerAfterRequest(req: Kind, rsp: Kind, canInject: bool)
    requires (req, rsp) in {(VersionInd, VersionInd), (PingReq, PingRsp), (ConnParamReq, ConnParamRsp),
                            (FeatureReq, FeatureRsp), (L2capUpdateReq, L2capUpdateRsp)}
    ensures Run([Captured(false, req), Captured(true, rsp)], true, canInject)
            == ([Analyzed(req), Decided(rsp, Suppress)], [])
  {
    var first, second := Captured(false, req), Captured(true, rsp);
    assert [first, second][..1] == [first] && [first][..0] == [];
    assert Run([first][..0], true, canInject) == ([], []);
    assert Run([first], true, canInject) == ([] + [Analyzed(req)], Analyze([], req));
    var active := Analyze([], req);
    assert |active| == 1 && Remove(active, active[0]) == active[1..] == [];
    assert StepOf(active, second, true, canInject) == (Decided(rsp, Suppress), []);
    assert [] + [Analyzed(req)] == [Analyzed(req)] && [Analyzed(req)] + [Decided(rsp, Suppress)] == [Analyzed(req), Decided(rsp, Suppress)];
  }

  // ----- What goes out -----

  /** The kinds with the link-layer control layer. */
  lemma ControlKinds(k: Kind)
    ensures k.IsControl() <==> k in {VersionInd, PingReq, PingRsp, ConnParamReq, ConnParamRsp, FeatureReq, FeatureRsp, OtherControl}
  {
  }

  /** What answers nothing is sent, or refused if it is a control PDU and the device cannot
      inject those; the procedures stay as they are. */
  lemma OthersPass(active: seq<Procedure>, k: Kind, canInject: bool)
    requires forall p: Procedure :: !k.Answers(p)
    ensures Decide(active, k, canInject) == (if k.IsControl() && !canInject then Refuse else Send, active)
  {
    assert !k.Answers(Version) && !k.Answers(Ping) && !k.Answers(ConnParams) && !k.Answers(Features) && !k.Answers(LlConnParams);
  }

  /** Answering takes its own procedure off the list and no other, and only if it is held
      back; nothing else about the list changes. */
  lemma DecideKeepsOthers(active: seq<Procedure>, k: Kind, canInject: bool, q: Procedure)
    ensures var (d, active') := Decide(active, k, canInject);
            && (d != Suppress ==> active' == active)
            && (d == Suppress ==> Count(active', q) == if k.Answers(q) then Count(active, q) - 1 else Count(active, q))
  {
    match k
    case VersionInd => RemoveCount(active, Version, q);
    case PingRsp => RemoveCount(active, Ping, q);
    case ConnParamRsp => RemoveCount(active, ConnParams, q);
    case FeatureRsp => RemoveCount(active, Features, q);
    case L2capUpdateRsp => RemoveCount(active, LlConnParams, q);
    case _ =>
  }

  /** A packet is replayed exactly if it is the central's and we emit, it answers nothing
      that is pending, it is no feature response, and it can be injected. */
  ghost predicate GoesOut(steps: seq<Step>, c: Captured, emitter: bool, canInject: bool) {
    && c.fromCentral && emitter
    && (forall p: Procedure :: c.kind.Answers(p) ==> p != Features && !Pending(steps, p))
    && (c.kind.IsControl() ==> canInject)
  }

  /** The kinds that went out. */
  function Sent(steps: seq<Step>): seq<Kind> {
    if steps == [] then []
    else
      var s := steps[|steps| - 1];
      Sent(steps[..|steps| - 1]) + if s.Decided? && s.decision == Send then [s.kind] else []
  }

  ghost function Expected(trace: seq<Captured>, emitter: bool, canInject: bool): seq<Kind> {
    if trace == [] then []
    else
      var front, c := trace[..|trace| - 1], trace[|trace| - 1];
      Expected(front, emitter, canInject) +
      if GoesOut(Run(front, emitter, canInject).0, c, emitter, canInject) then [c.kind] else []
  }

  /** Whether one more packet goes out. */
  lemma SendIffGoesOut(trace: seq<Captured>, c: Captured, emitter: bool, canInject: bool)
    ensures var (steps, active) := Run(trace, emitter, canInject);
            StepOf(active, c, emitter, canInject).0 == Decided(c.kind, Send) <==> GoesOut(steps, c, emitter, canInject)
  {
    var (steps, active) := Run(trace, emitter, canInject);
    if p :| c.kind.Answers(p) {
      AnswerHeldBackIffPending(trace, emitter, canInject, c.kind, p);
      OneAnswer(c.kind, p);
    } else {
      OthersPass(active, c.kind, canInject);
    }
  }

  /** A PDU answers one procedure at most. */
  lemma OneAnswer(k: Kind, p: Procedure)
    requires k.Answers(p)
    ensures forall q: Procedure :: k.Answers(q) ==> q == p
  {
  }

  /** Over any trace exactly those packets are sent, once each and in order; none when we do
      not emit. */
  lemma {:induction false} SentIsExpected(trace: seq<Captured>, emitter: bool, canInject: bool)
    ensures Sent(Run(trace, emitter, canInject).0) == Expected(trace, emitter, canInject)
    ensures !emitter ==> Expected(trace, emitter, canInject) == []
  {
    if trace != [] {
      var front, c := trace[..|trace| - 1], trace[|trace| - 1];
      SentIsExpected(front, emitter, canInject);
      SendIffGoesOut(front, c, emitter, canInject);
      var (steps, active) := Run(front, emitter, canInject);
      var s := StepOf(active, c, emitter, canInject).0;
      assert (steps + [s])[..|steps|] == steps;
    }
  }

  // ----- The object -----

  class Replayer {
    const emitter: bool
    const canInject: bool
    var activeProcedures: seq<Procedure>
    var sent: seq<Kind>

    constructor (emitter: bool, canInject: bool)
      ensures this.emitter == emitter && this.canInject == canInject && activeProcedures == [] && sent == []
    {
      this.emitter, this.canInject, activeProcedures, sent := emitter, canInject, [], [];
    }

    method AnalyzeIncomingPdu(k: Kind)
      modifies `activeProcedures
      ensures activeProcedures == Analyze(old(activeProcedures), k)
    {
      if k == VersionInd && Version !in activeProcedures {
        activeProcedures := activeProcedures + [Version];
      } else if k == PingReq {
        activeProcedures := activeProcedures + [Ping];
      } else if k == ConnParamReq {
        activeProcedures := activeProcedures + [ConnParams];
      } else if k == FeatureReq {
        activeProcedures := activeProcedures + [Features];
      } else if k == L2capUpdateReq {
        activeProcedures := activeProcedures + [LlConnParams];
      }
    }

    method ShouldSendPdu(k: Kind) returns (d: Decision)
      modifies `activeProcedures
      ensures (d, activeProcedures) == Decide(old(activeProcedures), k, canInject)
    {
      if k == VersionInd && Version in activeProcedures {
        activeProcedures := Remove(activeProcedures, Version);
        return Suppress;
      }
      if k == PingRsp && Ping in activeProcedures {
        activeProcedures := Remove(activeProcedures, Ping);
        return Suppress;
      }
      if k == ConnParamRsp && ConnParams in activeProcedures {
        activeProcedures := Remove(activeProcedures, ConnParams);
        return Suppress;
      }
      if k == FeatureRsp {
        if Features !in activeProcedures { return RaiseValueError; }
        activeProcedures := Remove(activeProcedures, Features);
        return Suppress;
      }
      if k == L2capUpdateRsp && LlConnParams in activeProcedures {
        activeProcedures := Remove(activeProcedures, LlConnParams);
        return Suppress;
      }
      if k.IsControl() {
        return if canInject then Send else Refuse;
      }
      return Send;
    }

    /** `send_packet`: true exactly for a packet that went out. */
    method SendPacket(c: Captured) returns (done: bool, step: Step)
      modifies this
      ensures (step, activeProcedures) == StepOf(old(activeProcedures), c, emitter, canInject)
      ensures done <==> step == Decided(c.kind, Send)
      ensures sent == if done then old(sent) + [c.kind] else old(sent)
    {
      if c.fromCentral && emitter {
        var d := ShouldSendPdu(c.kind);
        step := Decided(c.kind, d);
        if d == Send {
          sent := sent + [c.kind];
          return true, step;
        }
        return false, step;
      }
      AnalyzeIncomingPdu(c.kind);
      return false, Analyzed(c.kind);
    }
  }
}
