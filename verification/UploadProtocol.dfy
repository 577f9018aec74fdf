/**
 The streaming multipart upload as a protocol: the writing thread, the uploading thread and the
 bounded channel between them, as interleaved atomic steps with sink calls that may fail.
 */
module UploadProtocol {
  import opened Wrappers
  import opened ByteStrings
  import opened PartSchedule

  const CAPACITY: nat := 2

  datatype Msg = Data(part: Bytes) | Finish | Abort

  /** A call the sink sees, with its answer. */
  datatype Event =
    | Sent(number: nat, part: Bytes, token: string)
    | SendFailed(number: nat, part: Bytes, error: string)
    | Completed(tokens: seq<string>)
    | CompleteFailed(tokens: seq<string>, error: string)
    | Aborted

  datatype Exit = PartFailed(number: nat, part: Bytes, error: string) | Complete(answer: Result<(), string>) | Cancelled

  datatype Uploader = Waiting | Holding(msg: Msg) | Exited(how: Exit)

  /** Where the writing thread is: between calls, or inside write, finish or abort. */
  datatype Writer =
    | Idle
    | Writing
    | Sending(part: Bytes)
    | FinishSending(last: Bytes)
    | FinishSignalling
    | FinishJoining
    | AbortSignalling
    | AbortJoining
    | Finished(outcome: Result<nat, string>)
    | Dropped

  /**
   `tx` and `joinable` say whether the writer still owns its sender and join handle. The last
   four fields record history: the bytes given to `write`, the parts the channel accepted, the
   parts the sink accepted, and whether a send from `write` or `finish` failed.
   */
  datatype State = State(
    writer: Writer,
    buffer: Bytes,
    partsSent: nat,
    total: nat,
    tx: bool,
    joinable: bool,
    channel: seq<Msg>,
    uploader: Uploader,
    partNumber: nat,
    tokens: seq<string>,
    log: seq<Event>,
    aborted: bool,
    written: Bytes,
    accepted: seq<Bytes>,
    delivered: seq<Bytes>,
    lost: bool)

  const START := State(Idle, [], 0, 0, true, true, [], Waiting, 1, [], [], false, [], [], [], false)

  datatype Action =
    | CallWrite(bytes: Bytes)
    | CallFinish
    | CallAbort
    | Drop
    | Cut
    | WriteReturns
    | Accept
    | Reject
    | Signal
    | Join
    | Receive
    | Disconnected
    | Answer(reply: Result<string, string>)

  /** What a caller of the writer does; everything else the two threads do by themselves. */
  predicate IsCall(a: Action) {
    a.CallWrite? || a.CallFinish? || a.CallAbort? || a.Drop?
  }

  predicate Alive(s: State) {
    !s.uploader.Exited?
  }

  function CallStep(s: State, a: Action): Option<State>
    requires IsCall(a)
  {
    if !s.writer.Idle? then None
    else match a
      case CallWrite(bytes) =>
        Some(s.(writer := Writing, buffer := s.buffer + bytes, total := s.total + |bytes|,
                written := s.written + bytes))
      case CallFinish =>
        if s.buffer != [] || s.partsSent == 0 then Some(s.(writer := FinishSending(s.buffer), buffer := []))
        else Some(s.(writer := FinishSignalling))
      case CallAbort => Some(s.(writer := AbortSignalling))
      case Drop => Some(s.(writer := Dropped, tx := false))
  }

  /** `send` blocks while the channel is full, and fails once the sender is gone or the receiver has exited. */
  function SendStep(s: State, ok: bool): Option<State>
    requires s.writer.Sending? || s.writer.FinishSending?
  {
    var part := if s.writer.Sending? then s.writer.part else s.writer.last;
    if ok then
      if s.tx && Alive(s) && |s.channel| < CAPACITY then
        var pushed := s.(channel := s.channel + [Data(part)], accepted := s.accepted + [part]);
        Some(if s.writer.Sending? then pushed.(writer := Writing, partsSent := s.partsSent + 1)
             else pushed.(writer := FinishSignalling))
      else None
    else if !s.tx || !Alive(s) then
      Some(s.(lost := true, writer := if s.writer.Sending? then Idle else FinishSignalling))
    else None
  }

  /** `finish` and `abort` give up the sender after one last message, if it is still there and can be delivered. */
  function SignalStep(s: State): Option<State>
    requires s.writer.FinishSignalling? || s.writer.AbortSignalling?
  {
    var finishing := s.writer.FinishSignalling?;
    var next := s.(writer := if finishing then FinishJoining else AbortJoining, tx := false,
                   aborted := s.aborted || !finishing);
    if !s.tx || !Alive(s) then Some(next)
    else if |s.channel| < CAPACITY then Some(next.(channel := s.channel + [if finishing then Finish else Abort]))
    else None
  }

  function OutcomeOf(how: Exit, total: nat): Result<nat, string> {
    match how
    case PartFailed(_, _, e) => Failure(e)
    case Complete(Failure(e)) => Failure(e)
    case Complete(Success(_)) => Success(total)
    case Cancelled => Success(total)
  }

  function JoinStep(s: State): Option<State>
    requires s.writer.FinishJoining? || s.writer.AbortJoining?
  {
    if s.joinable && Alive(s) then None
    else
      var next := s.(joinable := false);
      if s.writer.AbortJoining? then Some(next.(writer := Idle))
      else Some(next.(writer := Finished(if s.joinable then OutcomeOf(s.uploader.how, s.total) else Success(s.total))))
  }

  function WriterStep(s: State, a: Action): Option<State> {
    match a
    case Cut =>
      if s.writer.Writing? && |s.buffer| >= PartSize(s.partsSent) then
        Some(s.(writer := Sending(s.buffer[..PartSize(s.partsSent)]), buffer := s.buffer[PartSize(s.partsSent)..]))
      else None
    case WriteReturns =>
      if s.writer.Writing? && |s.buffer| < PartSize(s.partsSent) then Some(s.(writer := Idle)) else None
    case Accept => if s.writer.Sending? || s.writer.FinishSending? then SendStep(s, true) else None
    case Reject => if s.writer.Sending? || s.writer.FinishSending? then SendStep(s, false) else None
    case Signal => if s.writer.FinishSignalling? || s.writer.AbortSignalling? then SignalStep(s) else None
    case Join => if s.writer.FinishJoining? || s.writer.AbortJoining? then JoinStep(s) else None
    case _ => None
  }

  /** The uploader handles the message it holds; the sink may answer any way it likes. */
  function AnswerStep(s: State, reply: Result<string, string>): State
    requires s.uploader.Holding?
  {
    match s.uploader.msg
    case Data(part) =>
      (match reply
       case Success(token) =>
         s.(uploader := Waiting, tokens := s.tokens + [token], partNumber := s.partNumber + 1,
            log := s.log + [Sent(s.partNumber, part, token)], delivered := s.delivered + [part])
       case Failure(e) =>
         s.(uploader := Exited(PartFailed(s.partNumber, part, e)),
            log := s.log + [SendFailed(s.partNumber, part, e), Aborted]))
    case Finish =>
      (match reply
       case Success(_) => s.(uploader := Exited(Complete(Success(()))), log := s.log + [Completed(s.tokens)])
       case Failure(e) => s.(uploader := Exited(Complete(Failure(e))), log := s.log + [CompleteFailed(s.tokens, e)]))
    case Abort => s.(uploader := Exited(Cancelled), log := s.log + [Aborted])
  }

  function UploaderStep(s: State, a: Action): Option<State> {
    match a
    case Receive =>
      if s.uploader.Waiting? && s.channel != [] then
        Some(s.(uploader := Holding(s.channel[0]), channel := s.channel[1..]))
      else None
    case Disconnected =>
      if s.uploader.Waiting? && s.channel == [] && !s.tx then
        Some(s.(uploader := Exited(Cancelled), log := s.log + [Aborted]))
      else None
    case Answer(reply) => if s.uploader.Holding? then Some(AnswerStep(s, reply)) else None
    case _ => None
  }

  predicate ByUploader(a: Action) {
    a.Receive? || a.Disconnected? || a.Answer?
  }

  function Step(s: State, a: Action): Option<State> {
    if IsCall(a) then CallStep(s, a) else if ByUploader(a) then UploaderStep(s, a) else WriterStep(s, a)
  }

  /** The state after a run of atomic steps; none when one of them is not possible. */
  function Run(actions: seq<Action>): Option<State> {
    if actions == [] then Some(START)
    else
      match Run(actions[..|actions| - 1])
      case None => None
      case Some(s) => Step(s, actions[|actions| - 1])
  }

  ghost predicate Reachable(s: State) {
    exists actions :: Run(actions) == Some(s)
  }

  // The invariant.

  function Deliveries(parts: seq<Bytes>, tokens: seq<string>): seq<Event>
    requires |parts| == |tokens|
  {
    seq(|parts|, i requires 0 <= i < |parts| => Sent(i + 1, parts[i], tokens[i]))
  }

  function Ending(u: Uploader, tokens: seq<string>): seq<Event> {
    match u
    case Exited(PartFailed(n, part, e)) => [SendFailed(n, part, e), Aborted]
    case Exited(Complete(Success(_))) => [Completed(tokens)]
    case Exited(Complete(Failure(e))) => [CompleteFailed(tokens, e)]
    case Exited(Cancelled) => [Aborted]
    case _ => []
  }

  function DataOf(msgs: seq<Msg>): seq<Bytes> {
    if msgs == [] then [] else (if msgs[0].Data? then [msgs[0].part] else []) + DataOf(msgs[1..])
  }

  function InHand(u: Uploader): seq<Msg> {
    if u.Holding? then [u.msg] else []
  }

  /** The messages on their way: the one the uploader holds and those in the channel. */
  function OnTheWay(s: State): seq<Msg> {
    InHand(s.uploader) + s.channel
  }

  predicate OnlyDataBeforeLast(msgs: seq<Msg>) {
    forall i | 0 <= i < |msgs| - 1 :: msgs[i].Data?
  }

  predicate OnlyData(msgs: seq<Msg>) {
    forall m <- msgs :: m.Data?
  }

  /** The uploader's counters and the sink's log agree with the parts delivered. */
  predicate LogInv(s: State) {
    |s.tokens| == |s.delivered| && s.partNumber == |s.tokens| + 1 &&
    s.log == Deliveries(s.delivered, s.tokens) + Ending(s.uploader, s.tokens)
  }

  /** Nothing the channel accepted is lost or reordered while the uploader runs. */
  predicate FlowInv(s: State) {
    (Alive(s) ==> s.accepted == s.delivered + DataOf(OnTheWay(s))) &&
    (s.uploader.Exited? && s.uploader.how.Complete? ==> s.accepted == s.delivered)
  }

  predicate FinishOnTheWay(s: State) {
    (Alive(s) && Finish in OnTheWay(s)) || (s.uploader.Exited? && s.uploader.how.Complete?)
  }

  predicate AbortOnTheWay(s: State) {
    (Alive(s) && Abort in OnTheWay(s)) || (s.uploader.Exited? && s.uploader.how.Cancelled?)
  }

  /** Only the last message can be a control message, and it says what the writer did. */
  predicate ControlInv(s: State) {
    |s.channel| <= CAPACITY && OnlyDataBeforeLast(OnTheWay(s)) &&
    (s.tx ==> OnlyData(OnTheWay(s)) && (s.uploader.Exited? ==> s.uploader.how.PartFailed?)) &&
    (FinishOnTheWay(s) ==> !s.aborted && !s.lost && (s.writer.FinishJoining? || s.writer.Finished?)) &&
    (AbortOnTheWay(s) ==> s.aborted || s.writer.Dropped?) &&
    (s.writer.FinishJoining? && !s.aborted && Alive(s) ==> Finish in OnTheWay(s)) &&
    (s.aborted && Alive(s) && OnTheWay(s) != [] ==> Abort in OnTheWay(s))
  }

  /** The writer between and inside its calls. */
  predicate HandleInv(s: State) {
    s.total == |s.written| &&
    (match s.writer
     case Dropped => !s.tx
     case Finished(outcome) =>
       !s.tx && !s.joinable && !Alive(s) &&
       outcome == if s.aborted then Success(s.total) else OutcomeOf(s.uploader.how, s.total)
     case FinishJoining => !s.tx && s.joinable == !s.aborted
     case AbortJoining => !s.tx && s.aborted
     case _ => s.tx == !s.aborted && s.joinable == !s.aborted) &&
    (!s.joinable ==> !Alive(s)) &&
    (s.lost ==> s.aborted || s.writer.Dropped? || (s.uploader.Exited? && s.uploader.how.PartFailed?))
  }

  /** While nothing is lost, what was accepted and what is still held are the bytes written, cut by the schedule. */
  predicate CutInv(s: State) {
    !s.lost ==>
      match s.writer
      case Idle => s.partsSent == |s.accepted| && s.accepted == FullParts(s.written, 0) &&
        s.buffer == Rest(s.written, 0)
      case AbortSignalling => s.partsSent == |s.accepted| && s.accepted == FullParts(s.written, 0) &&
        s.buffer == Rest(s.written, 0)
      case AbortJoining => s.partsSent == |s.accepted| && s.accepted == FullParts(s.written, 0) &&
        s.buffer == Rest(s.written, 0)
      case Writing =>
        s.partsSent == |s.accepted| &&
        s.accepted + FullParts(s.buffer, s.partsSent) == FullParts(s.written, 0) &&
        Rest(s.buffer, s.partsSent) == Rest(s.written, 0)
      case Sending(part) =>
        s.partsSent == |s.accepted| &&
        s.accepted + [part] + FullParts(s.buffer, s.partsSent + 1) == FullParts(s.written, 0) &&
        Rest(s.buffer, s.partsSent + 1) == Rest(s.written, 0)
      case FinishSending(last) => s.accepted + [last] == PartsOf(s.written)
      case Dropped => true
      case _ => s.accepted == PartsOf(s.written)
  }

  predicate Inv(s: State) {
    LogInv(s) && FlowInv(s) && ControlInv(s) && HandleInv(s) && CutInv(s)
  }

  // Every step keeps it.

  lemma CallKeepsCut(s: State, a: Action)
    requires CutInv(s) && IsCall(a) && CallStep(s, a).Some?
    ensures CutInv(CallStep(s, a).value)
  {
    hide FullParts, Rest, PartSize;
    if a.CallWrite? && !s.lost {
      CutResumes(s.written, a.bytes, 0);
    }
    if a.CallFinish? && !s.lost {
      PartsCases(s.written);
    }
  }

  lemma PartsCases(data: Bytes)
    ensures var full, rest := FullParts(data, 0), Rest(data, 0);
            if rest != [] || |full| == 0 then PartsOf(data) == full + [rest] else PartsOf(data) == full
  {
  }

  lemma CallKeepsInv(s: State, a: Action)
    requires Inv(s) && IsCall(a) && CallStep(s, a).Some?
    ensures Inv(CallStep(s, a).value)
  {
    hide CutInv, Deliveries, DataOf, PartSize;
    CallKeepsCut(s, a);
  }

  lemma CutStepKeepsInv(s: State)
    requires Inv(s) && WriterStep(s, Cut).Some?
    ensures Inv(WriterStep(s, Cut).value)
  {
    hide Deliveries, DataOf, PartSize, FullParts, Rest;
    CutStep(s.buffer, s.partsSent);
    assert s.accepted + ([s.buffer[..PartSize(s.partsSent)]] +
                         FullParts(s.buffer[PartSize(s.partsSent)..], s.partsSent + 1)) ==
           s.accepted + [s.buffer[..PartSize(s.partsSent)]] +
           FullParts(s.buffer[PartSize(s.partsSent)..], s.partsSent + 1);
  }

  lemma ReturnKeepsInv(s: State)
    requires Inv(s) && WriterStep(s, WriteReturns).Some?
    ensures Inv(WriterStep(s, WriteReturns).value)
  {
    hide Deliveries, DataOf, PartSize, FullParts, Rest;
    CutNothing(s.buffer, s.partsSent);
    assert s.accepted + [] == s.accepted;
  }

  lemma {:induction false} DataOfAppend(msgs: seq<Msg>, m: Msg)
    ensures DataOf(msgs + [m]) == DataOf(msgs) + (if m.Data? then [m.part] else [])
  {
    var longer := msgs + [m];
    if msgs == [] {
      assert longer == [m] && longer[1..] == [];
    } else {
      assert longer[0] == msgs[0] && longer[1..] == msgs[1..] + [m];
      DataOfAppend(msgs[1..], m);
    }
  }

  lemma AcceptKeepsInv(s: State)
    requires Inv(s) && WriterStep(s, Accept).Some?
    ensures Inv(WriterStep(s, Accept).value)
  {
    hide Deliveries, DataOf, PartSize, FullParts, Rest, PartsOf;
    var part := if s.writer.Sending? then s.writer.part else s.writer.last;
    var t := WriterStep(s, Accept).value;
    DataOfAppend(OnTheWay(s), Data(part));
    assert OnTheWay(t) == OnTheWay(s) + [Data(part)];
    assert s.delivered + DataOf(OnTheWay(s)) + [part] == s.delivered + (DataOf(OnTheWay(s)) + [part]);
  }

  lemma RejectKeepsInv(s: State)
    requires Inv(s) && WriterStep(s, Reject).Some?
    ensures Inv(WriterStep(s, Reject).value)
  {
    hide Deliveries, DataOf, PartSize, FullParts, Rest, PartsOf;
  }

  lemma SignalKeepsInv(s: State)
    requires Inv(s) && WriterStep(s, Signal).Some?
    ensures Inv(WriterStep(s, Signal).value)
  {
    hide Deliveries, DataOf, PartSize, FullParts, Rest, PartsOf;
    var t := WriterStep(s, Signal).value;
    if t.channel != s.channel {
      var m := t.channel[|s.channel|];
      DataOfAppend(OnTheWay(s), m);
      assert OnTheWay(t) == OnTheWay(s) + [m];
    }
  }

  lemma JoinKeepsInv(s: State)
    requires Inv(s) && WriterStep(s, Join).Some?
    ensures Inv(WriterStep(s, Join).value)
  {
    hide Deliveries, DataOf, PartSize, FullParts, Rest, PartsOf;
  }

  lemma ReceiveKeepsInv(s: State)
    requires Inv(s) && UploaderStep(s, Receive).Some?
    ensures Inv(UploaderStep(s, Receive).value)
  {
    hide Deliveries, DataOf, PartSize, FullParts, Rest, PartsOf;
    var t := UploaderStep(s, Receive).value;
    assert OnTheWay(t) == OnTheWay(s);
  }

  lemma DisconnectedKeepsInv(s: State)
    requires Inv(s) && UploaderStep(s, Disconnected).Some?
    ensures Inv(UploaderStep(s, Disconnected).value)
  {
    hide Deliveries, DataOf, PartSize, FullParts, Rest, PartsOf;
    assert s.log + [Aborted] == Deliveries(s.delivered, s.tokens) + [Aborted];
  }

  lemma DeliveriesAppend(parts: seq<Bytes>, tokens: seq<string>, part: Bytes, token: string)
    requires |parts| == |tokens|
    ensures Deliveries(parts + [part], tokens + [token]) == Deliveries(parts, tokens) + [Sent(|parts| + 1, part, token)]
  {
  }

  lemma DataOfFirst(m: Msg, rest: seq<Msg>)
    ensures DataOf([m] + rest) == (if m.Data? then [m.part] else []) + DataOf(rest)
  {
    assert ([m] + rest)[1..] == rest;
  }

  lemma {:induction false} DataOfControl(msgs: seq<Msg>)
    requires forall m <- msgs :: !m.Data?
    ensures DataOf(msgs) == []
  {
    if msgs != [] {
      DataOfControl(msgs[1..]);
    }
  }

  /** Taking the message in hand out of the way leaves the channel, with the same last message. */
  lemma TakenFromHand(s: State)
    requires s.uploader.Holding?
    ensures OnTheWay(s) == [s.uploader.msg] + s.channel
    ensures OnlyDataBeforeLast(OnTheWay(s)) ==> OnlyDataBeforeLast(s.channel)
    ensures forall m :: m in OnTheWay(s) <==> m == s.uploader.msg || m in s.channel
  {
    assert forall i | 0 <= i < |s.channel| :: OnTheWay(s)[i + 1] == s.channel[i];
  }

  lemma PartSentKeepsInv(s: State, token: string)
    requires Inv(s) && s.uploader.Holding? && s.uploader.msg.Data?
    ensures Inv(AnswerStep(s, Success(token)))
  {
    hide Deliveries, DataOf, CutInv, OnlyDataBeforeLast;
    var part := s.uploader.msg.part;
    var t := AnswerStep(s, Success(token));
    assert CutInv(t) by {
      SameCut(s, t);
    }
    TakenFromHand(s);
    DataOfFirst(s.uploader.msg, s.channel);
    DeliveriesAppend(s.delivered, s.tokens, part, token);
    assert OnTheWay(t) == s.channel;
    assert s.delivered + ([part] + DataOf(s.channel)) == (s.delivered + [part]) + DataOf(s.channel);
    assert t.log == Deliveries(t.delivered, t.tokens) + [];
  }

  lemma PartFailedKeepsInv(s: State, e: string)
    requires Inv(s) && s.uploader.Holding? && s.uploader.msg.Data?
    ensures Inv(AnswerStep(s, Failure(e)))
  {
    hide Deliveries, DataOf, CutInv, OnlyDataBeforeLast;
    var t := AnswerStep(s, Failure(e));
    assert CutInv(t) by {
      SameCut(s, t);
    }
    TakenFromHand(s);
    assert OnTheWay(t) == s.channel;
    assert s.log == Deliveries(s.delivered, s.tokens);
  }

  lemma SameCut(s: State, t: State)
    requires CutInv(s) && t.writer == s.writer && t.accepted == s.accepted && t.buffer == s.buffer
    requires t.written == s.written && t.partsSent == s.partsSent && t.lost == s.lost
    ensures CutInv(t)
  {
    hide FullParts, Rest, PartsOf;
  }

  lemma ControlAnswerKeepsInv(s: State, reply: Result<string, string>)
    requires Inv(s) && s.uploader.Holding? && !s.uploader.msg.Data?
    ensures Inv(AnswerStep(s, reply))
  {
    hide Deliveries, DataOf, PartSize, FullParts, Rest, PartsOf;
    assert OnTheWay(s) == [s.uploader.msg] + s.channel;
    assert s.channel == [] by {
      assert OnTheWay(s)[0] == s.uploader.msg;
    }
    DataOfControl(OnTheWay(s));
    assert s.log == Deliveries(s.delivered, s.tokens);
    assert s.uploader.msg in OnTheWay(s);
  }

  lemma StepKeepsInv(s: State, a: Action)
    requires Inv(s) && Step(s, a).Some?
    ensures Inv(Step(s, a).value)
  {
    hide Inv;
    match a
    case CallWrite(_) => CallKeepsInv(s, a);
    case CallFinish => CallKeepsInv(s, a);
    case CallAbort => CallKeepsInv(s, a);
    case Drop => CallKeepsInv(s, a);
    case Cut => CutStepKeepsInv(s);
    case WriteReturns => ReturnKeepsInv(s);
    case Accept => AcceptKeepsInv(s);
    case Reject => RejectKeepsInv(s);
    case Signal => SignalKeepsInv(s);
    case Join => JoinKeepsInv(s);
    case Receive => ReceiveKeepsInv(s);
    case Disconnected => DisconnectedKeepsInv(s);
    case Answer(reply) =>
      if !s.uploader.msg.Data? {
        ControlAnswerKeepsInv(s, reply);
      } else if reply.Success? {
        PartSentKeepsInv(s, reply.value);
      } else {
        PartFailedKeepsInv(s, reply.error);
      }
  }

  lemma StartInv()
    ensures Inv(START)
  {
    CutNothing([], 0);
  }

  lemma {:induction false} RunKeepsInv(actions: seq<Action>)
    requires Run(actions).Some?
    ensures Inv(Run(actions).value)
    decreases |actions|
  {
    hide Inv, Step;
    if actions == [] {
      StartInv();
    } else {
      RunKeepsInv(actions[..|actions| - 1]);
      StepKeepsInv(Run(actions[..|actions| - 1]).value, actions[|actions| - 1]);
    }
  }

  // What a caller and the sink can rely on, in every interleaving.

  /** The sink saw the parts in order, numbered from 1, each with its token, and then one completion of all of them. */
  predicate CompleteUpload(log: seq<Event>, parts: seq<Bytes>, tokens: seq<string>) {
    |tokens| == |parts| && log == Deliveries(parts, tokens) + [Completed(tokens)]
  }

  /**
   `finish` on a writer that was not aborted returns Ok only after one successful completion of
   exactly the bytes written; the total it returns is their number.
   */
  lemma FinishOkMeansUploaded(s: State)
    requires Reachable(s) && s.writer.Finished? && s.writer.outcome.Success? && !s.aborted
    ensures CompleteUpload(s.log, PartsOf(s.written), s.tokens) && |s.tokens| >= 1
    ensures s.writer.outcome.value == |s.written| == |Concat(s.delivered)|
    ensures s.delivered == PartsOf(s.written) && Concat(s.delivered) == s.written
  {
    var actions :| Run(actions) == Some(s);
    RunKeepsInv(actions);
    PartsHoldTheBytes(s.written);
  }

  /** What a complete upload looks like to the sink: parts numbered from 1, each with its token, then one completion. */
  lemma CompleteUploadMeans(log: seq<Event>, parts: seq<Bytes>, tokens: seq<string>)
    ensures CompleteUpload(log, parts, tokens) <==>
              |tokens| == |parts| && |log| == |parts| + 1 && log[|parts|] == Completed(tokens) &&
              forall i | 0 <= i < |parts| :: log[i] == Sent(i + 1, parts[i], tokens[i])
  {
    if |tokens| == |parts| && |log| == |parts| + 1 && log[|parts|] == Completed(tokens) &&
      forall i | 0 <= i < |parts| :: log[i] == Sent(i + 1, parts[i], tokens[i])
    {
      assert log == Deliveries(parts, tokens) + [Completed(tokens)];
    }
  }

  /** The channel never holds more than two messages. */
  lemma ChannelIsBounded(s: State)
    requires Reachable(s)
    ensures |s.channel| <= 2
  {
    var actions :| Run(actions) == Some(s);
    RunKeepsInv(actions);
  }

  /** A sink error that ends the upload is the error `finish` returns, whatever failed after it. */
  lemma FinishReturnsSinkError(s: State)
    requires Reachable(s) && s.writer.Finished? && !s.aborted
    ensures s.writer.outcome.Failure? <==>
            s.log != [] && (s.log[|s.log| - 1].CompleteFailed? || (|s.log| > 1 && s.log[|s.log| - 2].SendFailed?))
    ensures forall n, part, e :: SendFailed(n, part, e) in s.log ==> s.writer.outcome == Failure(e)
    ensures forall tokens, e :: CompleteFailed(tokens, e) in s.log ==> s.writer.outcome == Failure(e)
  {
    var actions :| Run(actions) == Some(s);
    RunKeepsInv(actions);
  }

  /** After an `abort`, `finish` still returns Ok although nothing was completed: why the result above excludes it. */
  lemma FinishAfterAbortIsOk(s: State)
    requires Reachable(s) && s.writer.Finished? && s.aborted
    ensures s.writer.outcome == Success(s.total) && forall tokens :: Completed(tokens) !in s.log
  {
    var actions :| Run(actions) == Some(s);
    RunKeepsInv(actions);
  }

  lemma Extend(s: State, a: Action, t: State)
    requires Reachable(s) && Step(s, a) == Some(t)
    ensures Reachable(t)
  {
    hide Step;
    var actions :| Run(actions) == Some(s);
    var longer := actions + [a];
    assert longer[..|longer| - 1] == actions;
    assert Run(longer) == Some(t);
  }

  /** Exactly when an Ok from `finish` means a completed upload: when the writer was not aborted before. */
  lemma OkMeansCompletedIffNotAborted(s: State)
    requires Reachable(s) && s.writer.Finished? && s.writer.outcome.Success?
    ensures !s.aborted <==> CompleteUpload(s.log, PartsOf(s.written), s.tokens)
  {
    if s.aborted {
      FinishAfterAbortIsOk(s);
      assert s.log != [] ==> s.log[|s.log| - 1] in s.log;
    } else {
      FinishOkMeansUploaded(s);
    }
  }

  /** Such a run exists: abort, then finish, before anything is written. */
  lemma AbortThenFinish()
    ensures exists s :: Reachable(s) && s.writer == Finished(Success(0)) && s.aborted && s.log == [Aborted]
  {
    hide Reachable, PartSize;
    StartIsReachable();
    var s1 := START.(writer := AbortSignalling);
    Extend(START, CallAbort, s1);
    var s2 := s1.(writer := AbortJoining, tx := false, aborted := true, channel := [] + [Abort]);
    Extend(s1, Signal, s2);
    var s3 := s2.(uploader := Holding(Abort), channel := s2.channel[1..]);
    Extend(s2, Receive, s3);
    var s4 := s3.(uploader := Exited(Cancelled), log := [] + [Aborted]);
    Extend(s3, Answer(Success("")), s4);
    var s5 := s4.(writer := Idle, joinable := false);
    Extend(s4, Join, s5);
    var s6 := s5.(writer := FinishSending([]));
    Extend(s5, CallFinish, s6);
    var s7 := s6.(writer := FinishSignalling, lost := true);
    Extend(s6, Reject, s7);
    var s8 := s7.(writer := FinishJoining);
    Extend(s7, Signal, s8);
    var s9 := s8.(writer := Finished(Success(0)));
    Extend(s8, Join, s9);
  }

  lemma StartIsReachable()
    ensures Reachable(START)
  {
    assert Run([]) == Some(START);
  }

  predicate IsClosing(e: Event) {
    e.Completed? || e.CompleteFailed? || e.Aborted?
  }

  /** Before the uploader exits the sink has seen parts only; when it exits, exactly one closing call, the last one. */
  lemma OneClosingCall(s: State)
    requires Reachable(s)
    ensures Alive(s) ==> forall e <- s.log :: e.Sent?
    ensures s.uploader.Exited? ==>
              s.log != [] && IsClosing(s.log[|s.log| - 1]) &&
              forall i | 0 <= i < |s.log| - 1 :: !IsClosing(s.log[i])
  {
    var actions :| Run(actions) == Some(s);
    RunKeepsInv(actions);
    var n := |Deliveries(s.delivered, s.tokens)|;
    assert forall i | 0 <= i < |s.log| :: if i < n then s.log[i].Sent?
           else s.log[i] == Ending(s.uploader, s.tokens)[i - n];
  }

  // Progress.

  function WriterRank(w: Writer): nat {
    match w
    case Idle => 0
    case Finished(_) => 0
    case Dropped => 0
    case Writing => 1
    case Sending(_) => 4
    case FinishSending(_) => 7
    case FinishSignalling => 4
    case FinishJoining => 1
    case AbortSignalling => 4
    case AbortJoining => 1
  }

  function UploaderRank(u: Uploader): nat {
    match u
    case Waiting => 1
    case Holding(_) => 2
    case Exited(_) => 0
  }

  /** What is left to do until both threads come to rest, if nothing more is asked of them. */
  function WorkLeft(s: State): nat {
    6 * |s.buffer| + WriterRank(s.writer) + 2 * |s.channel| + UploaderRank(s.uploader)
  }

  lemma WriterUsesUpWork(s: State, a: Action)
    requires WriterStep(s, a).Some?
    ensures WorkLeft(WriterStep(s, a).value) < WorkLeft(s)
  {
    hide PartSize, OutcomeOf;
  }

  lemma UploaderUsesUpWork(s: State, a: Action)
    requires UploaderStep(s, a).Some?
    ensures WorkLeft(UploaderStep(s, a).value) < WorkLeft(s)
  {
  }

  /** No interleaving runs on for ever: every step the threads take by themselves uses up work. */
  lemma StepsUseUpWork(s: State, a: Action)
    requires !IsCall(a) && Step(s, a).Some?
    ensures WorkLeft(Step(s, a).value) < WorkLeft(s)
  {
    hide WorkLeft, WriterStep, UploaderStep;
    if ByUploader(a) {
      UploaderUsesUpWork(s, a);
    } else {
      WriterUsesUpWork(s, a);
    }
  }

  predicate InsideCall(w: Writer) {
    !w.Idle? && !w.Finished? && !w.Dropped?
  }

  /** One step that is possible while a call is under way, or the uploader has something to do. */
  function NextStep(s: State): Action {
    if s.uploader.Holding? then Answer(Success(""))
    else if s.uploader.Waiting? && s.channel != [] then Receive
    else if s.uploader.Waiting? && !s.tx then Disconnected
    else if s.writer.Writing? then (if |s.buffer| >= PartSize(s.partsSent) then Cut else WriteReturns)
    else if s.writer.Sending? || s.writer.FinishSending? then (if s.tx && Alive(s) then Accept else Reject)
    else if s.writer.FinishSignalling? || s.writer.AbortSignalling? then Signal
    else Join
  }

  lemma UploaderCanMove(s: State)
    requires Alive(s) && (s.uploader.Holding? || s.channel != [] || !s.tx)
    ensures ByUploader(NextStep(s)) && Step(s, NextStep(s)).Some?
  {
    hide AnswerStep, PartSize;
  }

  lemma WriterCanMove(s: State)
    requires InsideCall(s.writer) && |s.channel| <= CAPACITY &&
             !(s.uploader.Holding? || (s.uploader.Waiting? && (s.channel != [] || !s.tx)))
    requires s.writer.FinishJoining? || s.writer.AbortJoining? ==> !s.tx
    ensures !IsCall(NextStep(s)) && !ByUploader(NextStep(s)) && WriterStep(s, NextStep(s)).Some?
  {
    hide PartSize, OutcomeOf;
  }

  /** The bounded channel never deadlocks: while a call is under way some thread can move. */
  lemma NoDeadlock(s: State)
    requires Reachable(s) && (InsideCall(s.writer) || (Alive(s) && !s.tx))
    ensures !IsCall(NextStep(s)) && Step(s, NextStep(s)).Some?
  {
    hide NextStep, WriterStep, UploaderStep, LogInv, FlowInv, CutInv, OnlyDataBeforeLast, OnlyData, OnTheWay;
    var actions :| Run(actions) == Some(s);
    RunKeepsInv(actions);
    if Alive(s) && (s.uploader.Holding? || s.channel != [] || !s.tx) {
      UploaderCanMove(s);
    } else {
      WriterCanMove(s);
    }
  }

  /** However the threads are scheduled, a run of their own steps is no longer than the work left at its start. */
  lemma {:induction false} OwnStepsEnd(s: State, steps: seq<Action>, t: State)
    requires FollowedBy(s, steps, t) && forall a <- steps :: !IsCall(a)
    ensures |steps| + WorkLeft(t) <= WorkLeft(s)
    decreases |steps|
  {
    hide Step, WorkLeft;
    if steps != [] {
      var s' := Step(s, steps[0]).value;
      StepsUseUpWork(s, steps[0]);
      OwnStepsEnd(s', steps[1..], t);
    }
  }

  predicate FollowedBy(s: State, steps: seq<Action>, t: State)
    decreases |steps|
  {
    if steps == [] then s == t
    else Step(s, steps[0]).Some? && FollowedBy(Step(s, steps[0]).value, steps[1..], t)
  }

  /** When the threads can do no more, every call has returned; and once the sender is gone, the upload is closed. */
  lemma RestIsReturn(s: State)
    requires Reachable(s) && forall a | !IsCall(a) :: Step(s, a).None?
    ensures s.writer.Idle? || s.writer.Finished? || s.writer.Dropped?
    ensures s.aborted || s.writer.Finished? || s.writer.Dropped? ==>
              s.uploader.Exited? && s.log != [] && IsClosing(s.log[|s.log| - 1])
  {
    var actions :| Run(actions) == Some(s);
    RunKeepsInv(actions);
    if InsideCall(s.writer) || (Alive(s) && !s.tx) {
      NoDeadlock(s);
    }
    OneClosingCall(s);
  }
}
