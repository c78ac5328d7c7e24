/** The FAPI session state machine. */
module Fapi {
  import opened Common

  const FAPI_MSG_VERSION: nat := 1

  datatype FapiState = Idle | Configured | Running | Error

  datatype FapiMsgType =
    | CONFIG_REQ | CONFIG_RESP | START_REQ | STOP_REQ | SLOT_IND | UL_TTI_REQ | DL_TTI_REQ
    | TX_DATA_REQ | RX_DATA_IND | CRC_IND | ERROR_IND

  datatype FapiMessage = FapiMessage(version: nat, kind: FapiMsgType, sfn: nat, slot: nat, handle: nat,
    payload: Bits, jsonMeta: string, crcOk: bool, error: string)

  /** A snapshot of a session. */
  datatype Session = Session(state: FapiState, slotCount: nat, sfn: nat, slot: nat)

  const RESET: Session := Session(Idle, 0, 0, 0)

  predicate VersionOk(m: FapiMessage) { m.version == 0 || m.version == FAPI_MSG_VERSION }

  predicate IsData(m: FapiMessage) { m.kind == UL_TTI_REQ || m.kind == DL_TTI_REQ || m.kind == TX_DATA_REQ }

  /** The message is acted on rather than answered with an error. */
  predicate Accepts(s: Session, m: FapiMessage) {
    VersionOk(m) &&
    match m.kind
    case CONFIG_REQ => s.state == Idle || s.state == Configured || s.state == Error
    case START_REQ => s.state == Configured
    case STOP_REQ => s.state == Running || s.state == Error
    case UL_TTI_REQ => s.state == Running
    case DL_TTI_REQ => s.state == Running
    case TX_DATA_REQ => s.state == Running
    case _ => false
  }

  /** One slot later. */
  function Tick(s: Session): Session {
    var slot := (s.slot + 1) % 20;
    s.(slotCount := s.slotCount + 1, slot := slot, sfn := if slot == 0 then (s.sfn + 1) % 1024 else s.sfn)
  }

  /** The session after a message. */
  function Next(s: Session, m: FapiMessage): Session {
    if !Accepts(s, m) then s.(state := Error)
    else if IsData(m) then Tick(s)
    else if m.kind == START_REQ then s.(state := Running)
    else s.(state := Configured)
  }

  /** The kind of the answer: an error exactly when the message is not accepted. */
  function ReplyKind(s: Session, m: FapiMessage): FapiMsgType {
    if !Accepts(s, m) then ERROR_IND
    else
      match m.kind
      case CONFIG_REQ => CONFIG_RESP
      case START_REQ => SLOT_IND
      case STOP_REQ => CONFIG_RESP
      case TX_DATA_REQ => CRC_IND
      case _ => SLOT_IND
  }

  /** The error text of a message that is not accepted. */
  function Reason(m: FapiMessage): string {
    if !VersionOk(m) then "unsupported FAPI message version"
    else if m.kind == CONFIG_REQ then "CONFIG_REQ invalid in current state"
    else if m.kind == START_REQ then "START_REQ requires Configured"
    else if m.kind == STOP_REQ then "STOP_REQ invalid state"
    else if IsData(m) then "data/tti requires Running"
    else "unexpected message direction for session.handle"
  }

  const STATUS_OK := "{\"status\":\"ok\",\"version\":1}"

  /** What handling message m does to a session and what it answers: an error with its reason for a
      message that is not accepted, the current slot for one that starts or uses the clock, and
      everything else as it came. */
  ghost predicate Answers(before: Session, m: FapiMessage, after: Session, out: FapiMessage) {
    var ok := Accepts(before, m);
    var timed := ok && (IsData(m) || m.kind == START_REQ);
    && after == Next(before, m)
    && out.kind == ReplyKind(before, m) && out.version == FAPI_MSG_VERSION
    && out.error == (if ok then m.error else Reason(m))
    && out.sfn == (if timed then after.sfn else m.sfn) && out.slot == (if timed then after.slot else m.slot)
    && out.crcOk == (m.crcOk || (ok && IsData(m)))
    && out.jsonMeta == (if ok && m.kind == CONFIG_REQ then STATUS_OK else m.jsonMeta)
    && out.handle == m.handle && out.payload == m.payload
  }

  class FapiSession {
    var state: FapiState
    var slotCount: nat
    var sfn: nat
    var slot: nat

    function Snapshot(): Session
      reads this
    {
      Session(state, slotCount, sfn, slot)
    }

    constructor ()
      ensures Snapshot() == RESET
    {
      state := Idle;
      slotCount := 0;
      sfn := 0;
      slot := 0;
    }

    method Reset()
      modifies this
      ensures Snapshot() == RESET
    {
      state := Idle;
      slotCount := 0;
      sfn := 0;
      slot := 0;
    }

    /** Answers with an error and enters the error state. */
    method Fail(m: FapiMessage, e: string) returns (out: FapiMessage)
      requires !Accepts(Snapshot(), m) && e == Reason(m)
      modifies this
      ensures Answers(old(Snapshot()), m, Snapshot(), out)
    {
      state := Error;
      out := m.(kind := ERROR_IND, error := e, version := FAPI_MSG_VERSION);
    }

    /** Data and TTI requests advance the slot clock, whose time the answer carries. */
    method Handle(m: FapiMessage) returns (out: FapiMessage)
      modifies this
      ensures Answers(old(Snapshot()), m, Snapshot(), out)
    {
      hide Answers, Accepts, Reason, Snapshot;
      if m.version != 0 && m.version != FAPI_MSG_VERSION {
        out := HandleVersion(m);
        return;
      }
      match m.kind
      case CONFIG_REQ => out := HandleConfig(m);
      case START_REQ => out := HandleStart(m);
      case STOP_REQ => out := HandleStop(m);
      case UL_TTI_REQ => out := HandleData(m);
      case DL_TTI_REQ => out := HandleData(m);
      case TX_DATA_REQ => out := HandleData(m);
      case _ => out := HandleDirection(m);
    }

    method HandleVersion(m: FapiMessage) returns (out: FapiMessage)
      requires !VersionOk(m)
      modifies this
      ensures Answers(old(Snapshot()), m, Snapshot(), out)
    {
      hide Answers;
      out := Fail(m, "unsupported FAPI message version");
    }

    /** Only the peer sends indications and responses. */
    method HandleDirection(m: FapiMessage) returns (out: FapiMessage)
      requires VersionOk(m) && !IsData(m) && m.kind != CONFIG_REQ && m.kind != START_REQ && m.kind != STOP_REQ
      modifies this
      ensures Answers(old(Snapshot()), m, Snapshot(), out)
    {
      hide Answers;
      out := Fail(m, "unexpected message direction for session.handle");
    }

    method HandleConfig(m: FapiMessage) returns (out: FapiMessage)
      requires VersionOk(m) && m.kind == CONFIG_REQ
      modifies this
      ensures Answers(old(Snapshot()), m, Snapshot(), out)
    {
      if state != Idle && state != Configured && state != Error {
        out := Fail(m, "CONFIG_REQ invalid in current state");
        return;
      }
      state := Configured;
      out := m.(kind := CONFIG_RESP, version := FAPI_MSG_VERSION, jsonMeta := STATUS_OK);
    }

    method HandleStart(m: FapiMessage) returns (out: FapiMessage)
      requires VersionOk(m) && m.kind == START_REQ
      modifies this
      ensures Answers(old(Snapshot()), m, Snapshot(), out)
    {
      if state != Configured {
        out := Fail(m, "START_REQ requires Configured");
        return;
      }
      state := Running;
      out := m.(kind := SLOT_IND, version := FAPI_MSG_VERSION, sfn := sfn, slot := slot);
    }

    method HandleStop(m: FapiMessage) returns (out: FapiMessage)
      requires VersionOk(m) && m.kind == STOP_REQ
      modifies this
      ensures Answers(old(Snapshot()), m, Snapshot(), out)
    {
      if state != Running && state != Error {
        out := Fail(m, "STOP_REQ invalid state");
        return;
      }
      state := Configured;
      out := m.(kind := CONFIG_RESP, version := FAPI_MSG_VERSION);
    }

    method HandleData(m: FapiMessage) returns (out: FapiMessage)
      requires VersionOk(m) && IsData(m)
      modifies this
      ensures Answers(old(Snapshot()), m, Snapshot(), out)
    {
      if state != Running {
        out := Fail(m, "data/tti requires Running");
        return;
      }
      slotCount := slotCount + 1;
      slot := (slot + 1) % 20;
      if slot == 0 { sfn := (sfn + 1) % 1024; }
      var kind := if m.kind == TX_DATA_REQ then CRC_IND else SLOT_IND;
      out := m.(kind := kind, version := FAPI_MSG_VERSION, sfn := sfn, slot := slot, crcOk := true);
    }
  }

  /** Which messages are refused: those of another version, CONFIG_REQ while Running, START_REQ except when
      Configured, STOP_REQ when Idle or Configured, data and TTI requests except while Running, and every
      indication or response. */
  lemma RefusedIff(s: Session, m: FapiMessage)
    ensures !Accepts(s, m) <==>
      || (m.version != 0 && m.version != 1)
      || (m.kind == CONFIG_REQ && s.state == Running)
      || (m.kind == START_REQ && s.state != Configured)
      || (m.kind == STOP_REQ && (s.state == Idle || s.state == Configured))
      || (m.kind in {UL_TTI_REQ, DL_TTI_REQ, TX_DATA_REQ} && s.state != Running)
      || m.kind in {CONFIG_RESP, SLOT_IND, RX_DATA_IND, CRC_IND, ERROR_IND}
  {
  }

  /** The type of the answer tells the new state: errors for refused messages only, CONFIG_RESP after
      CONFIG_REQ and STOP_REQ, CRC_IND after transmitted data, and SLOT_IND for the rest. */
  lemma AnswerTypes(before: Session, m: FapiMessage, after: Session, out: FapiMessage)
    requires Answers(before, m, after, out)
    ensures out.kind == ERROR_IND <==> !Accepts(before, m)
    ensures out.kind == CONFIG_RESP <==> Accepts(before, m) && m.kind in {CONFIG_REQ, STOP_REQ}
    ensures out.kind == CRC_IND <==> Accepts(before, m) && m.kind == TX_DATA_REQ
    ensures out.kind == SLOT_IND <==> Accepts(before, m) && m.kind in {START_REQ, UL_TTI_REQ, DL_TTI_REQ}
    ensures after.state == match out.kind
                           case ERROR_IND => Error
                           case CONFIG_RESP => Configured
                           case _ => Running
  {
  }

  /** The texts of the refusals, the unsupported version before everything else. */
  lemma RefusalReasons(before: Session, m: FapiMessage, after: Session, out: FapiMessage)
    requires Answers(before, m, after, out) && !Accepts(before, m)
    ensures m.version != 0 && m.version != 1 ==> out.error == "unsupported FAPI message version"
    ensures m.version == 0 || m.version == 1 ==>
      out.error == match m.kind
                   case CONFIG_REQ => "CONFIG_REQ invalid in current state"
                   case START_REQ => "START_REQ requires Configured"
                   case STOP_REQ => "STOP_REQ invalid state"
                   case UL_TTI_REQ => "data/tti requires Running"
                   case DL_TTI_REQ => "data/tti requires Running"
                   case TX_DATA_REQ => "data/tti requires Running"
                   case _ => "unexpected message direction for session.handle"
  {
  }

  // ---------------------------------------------------------------- whole runs

  function Run(ms: seq<FapiMessage>): Session {
    if ms == [] then RESET else Next(Run(ms[..|ms| - 1]), ms[|ms| - 1])
  }

  /** The number of accepted data and TTI messages. */
  function DataCount(ms: seq<FapiMessage>): nat {
    if ms == [] then 0
    else
      var n := |ms| - 1;
      DataCount(ms[..n]) + (if IsData(ms[n]) && Accepts(Run(ms[..n]), ms[n]) then 1 else 0)
  }

  /** The slot clock counts the accepted data messages modulo 1024 frames of 20 slots. */
  lemma {:induction false} SlotClock(ms: seq<FapiMessage>)
    ensures var s := Run(ms);
      && s.slot < 20 && s.sfn < 1024
      && s.slotCount == DataCount(ms) && s.sfn * 20 + s.slot == s.slotCount % 20480
  {
    if ms != [] {
      var n := |ms| - 1;
      SlotClock(ms[..n]);
      ClockTicks(Run(ms[..n]));
    }
  }

  lemma ClockTicks(s: Session)
    requires s.slot < 20 && s.sfn < 1024 && s.sfn * 20 + s.slot == s.slotCount % 20480
    ensures var t := Tick(s); t.slot < 20 && t.sfn < 1024 && t.sfn * 20 + t.slot == t.slotCount % 20480
  {
    var r := s.slotCount % 20480;
    assert (s.slotCount + 1) % 20480 == if r == 20479 then 0 else r + 1;
  }

  /** Message k is a START_REQ that was accepted, and everything after it is well-versioned data. */
  predicate StartedAt(ms: seq<FapiMessage>, k: nat)
    requires k < |ms|
  {
    && ms[k].kind == START_REQ && Accepts(Run(ms[..k]), ms[k])
    && forall j | k < j < |ms| :: IsData(ms[j]) && VersionOk(ms[j])
  }

  /** A session is Running exactly when the trace ends with an accepted START_REQ followed only by
      data and TTI messages of a supported version. */
  lemma {:induction false} RunningIff(ms: seq<FapiMessage>)
    ensures Run(ms).state == Running <==> exists k :: 0 <= k < |ms| && StartedAt(ms, k)
  {
    hide StartedAt, Accepts;
    if ms != [] {
      var n := |ms| - 1;
      RunningIff(ms[..n]);
      RunningStep(Run(ms[..n]), ms[n]);
      forall k | 0 <= k < |ms|
        ensures StartedAt(ms, k) <==>
          if k == n then ms[n].kind == START_REQ && Accepts(Run(ms[..n]), ms[n])
          else StartedAt(ms[..n], k) && IsData(ms[n]) && VersionOk(ms[n])
      {
        StartedStep(ms, k);
      }
      assert StartedAt(ms, n) <==> ms[n].kind == START_REQ && Accepts(Run(ms[..n]), ms[n]);
      if k :| 0 <= k < n && StartedAt(ms[..n], k) { assert StartedAt(ms, k) <==> IsData(ms[n]) && VersionOk(ms[n]); }
    }
  }

  lemma RunningStep(s: Session, m: FapiMessage)
    ensures Next(s, m).state == Running <==>
      || (m.kind == START_REQ && Accepts(s, m))
      || (s.state == Running && IsData(m) && VersionOk(m))
  {
  }

  lemma StartedStep(ms: seq<FapiMessage>, k: nat)
    requires k < |ms|
    ensures var n := |ms| - 1;
      StartedAt(ms, k) <==>
        if k == n then ms[n].kind == START_REQ && Accepts(Run(ms[..n]), ms[n])
        else StartedAt(ms[..n], k) && IsData(ms[n]) && VersionOk(ms[n])
  {
    hide Accepts, Run;
    if k < |ms| - 1 { assert ms[..|ms| - 1][..k] == ms[..k]; }
  }

  // ---------------------------------------------------------------- configuration

  /** No CONFIG_REQ was accepted among the first k messages. */
  ghost predicate Unconfigured(ms: seq<FapiMessage>, k: nat)
    requires k <= |ms|
  {
    forall j | 0 <= j < k && ms[j].kind == CONFIG_REQ :: !Accepts(Run(ms[..j]), ms[j])
  }

  /** After k messages the session is Configured or Running although no CONFIG_REQ was accepted. */
  ghost predicate ReadyUnconfigured(ms: seq<FapiMessage>, k: nat)
    requires k <= |ms|
  {
    Unconfigured(ms, k) && (Run(ms[..k]).state == Configured || Run(ms[..k]).state == Running)
  }

  /** Message k is a STOP_REQ of a supported version that finds the session in the error state before
      any CONFIG_REQ was accepted. */
  ghost predicate StopsUnconfigured(ms: seq<FapiMessage>, k: nat)
    requires k < |ms|
  {
    Unconfigured(ms, k) && ms[k].kind == STOP_REQ && VersionOk(ms[k]) && Run(ms[..k]).state == Error
  }

  /** One message leads into Configured or Running without a configuration only from there, or as a
      STOP_REQ in the error state. */
  lemma ReadyStep(ms: seq<FapiMessage>, k: nat)
    requires k < |ms|
    ensures ReadyUnconfigured(ms, k + 1) ==> ReadyUnconfigured(ms, k) || StopsUnconfigured(ms, k)
    ensures StopsUnconfigured(ms, k) ==> ReadyUnconfigured(ms, k + 1)
  {
    assert ms[..k + 1][..k] == ms[..k];
  }

  /** In every history the first STOP_REQ handled in the error state before any accepted CONFIG_REQ is
      the only way round the configuration: the session is at some point Configured or Running without
      an accepted CONFIG_REQ exactly when there is such a message. */
  lemma ConfigBypassIff(ms: seq<FapiMessage>)
    ensures (exists k :: 0 <= k <= |ms| && ReadyUnconfigured(ms, k))
      <==> exists k :: 0 <= k < |ms| && StopsUnconfigured(ms, k)
  {
    hide ReadyUnconfigured, StopsUnconfigured;
    if k :| 0 <= k < |ms| && StopsUnconfigured(ms, k) { ReadyStep(ms, k); }
    if k :| 0 <= k <= |ms| && ReadyUnconfigured(ms, k) { BypassBefore(ms, k); }
  }

  lemma {:induction false} BypassBefore(ms: seq<FapiMessage>, k: nat)
    requires k <= |ms| && ReadyUnconfigured(ms, k)
    ensures exists j :: 0 <= j < k && StopsUnconfigured(ms, j)
  {
    if k > 0 {
      ReadyStep(ms, k - 1);
      if !StopsUnconfigured(ms, k - 1) { BypassBefore(ms, k - 1); }
    }
  }

  /** A request of the current version. */
  function Request(kind: FapiMsgType): FapiMessage { FapiMessage(FAPI_MSG_VERSION, kind, 0, 0, 0, [], "", false, "") }

  /** The shortest way round: a START_REQ that is refused, a STOP_REQ, and a START_REQ that is not. */
  lemma RunningWithoutConfig()
    ensures Run([Request(START_REQ), Request(STOP_REQ), Request(START_REQ)]).state == Running
    ensures StopsUnconfigured([Request(START_REQ), Request(STOP_REQ), Request(START_REQ)], 1)
  {
    var start, stop := Request(START_REQ), Request(STOP_REQ);
    var ms := [start, stop, start];
    assert ms[..2] == [start, stop] && ms[..1] == [start] && [start, stop][..1] == [start] && [start][..0] == [];
    assert Run([start]).state == Error;
    assert Run([start, stop]).state == Configured;
  }
}
