/** Matching LSP responses to requests (crates/aide-lsp/src/client.rs): callers, the pending map,
    the reader task, timeouts and the death of the server, with every interleaving. */
module LspRequests {
  import opened Wrappers

  /** The `error` of a message, as far as it is read; what is missing or of another type is None. */
  datatype ErrorPayload = ErrorPayload(code: Option<int>, message: Option<string>)

  /** A JSON-RPC message from the server; `error` and `result` are its payload, if present. */
  datatype Message = Message(
    id: Option<int>,
    methodName: Option<string>,
    error: Option<ErrorPayload>,
    result: Option<string>)

  const NULL := "null"

  /** What the oneshot channel of a request carries: nothing yet, a message, or a dropped sender. */
  datatype Slot = Empty | Sent(message: Message) | Dropped

  datatype Outcome =
    | Value(result: string)
    | LspError(code: int, message: string)
    | Cancelled
    | Timeout
    | WriteError

  /** How far the task inside `request` has come. */
  datatype Phase = Allocated | Registered | Waiting | Expired | Done(outcome: Outcome)

  datatype Call = Call(phase: Phase, slot: Slot)

  /** The reader task: between messages, between taking a sender and using it, past its loop, gone. */
  datatype Reader = Reading | Holding(message: Message) | Exiting | Gone

  datatype System = System(
    nextId: int,
    pending: set<int>,
    calls: map<int, Call>,
    reader: Reader,
    answered: map<int, Message>) // history: the message for which each id was taken from pending

  datatype Step =
    | Allocate
    | Register(id: int)
    | Write(id: int, ok: bool)
    | Arrive(message: Message)
    | Send
    | Await(id: int)
    | Expire(id: int)
    | RemoveExpired(id: int)
    | EndOfStream
    | ClearPending

  predicate InPhase(s: System, id: int, phase: Phase) {
    id in s.calls && s.calls[id].phase == phase
  }

  predicate Enabled(s: System, st: Step) {
    match st
    case Allocate => true
    case Register(id) => InPhase(s, id, Allocated)
    case Write(id, _) => InPhase(s, id, Registered)
    case Arrive(_) => s.reader.Reading?
    case Send => s.reader.Holding?
    case Await(id) => InPhase(s, id, Waiting) && !s.calls[id].slot.Empty?
    case Expire(id) => InPhase(s, id, Waiting) && s.calls[id].slot.Empty?
    case RemoveExpired(id) => InPhase(s, id, Expired)
    case EndOfStream => s.reader.Reading?
    case ClearPending => s.reader.Exiting?
  }

  /** What the caller makes of a message; `methodName` plays no part. */
  function Resolve(m: Message): Outcome {
    if m.error.Some? then
      LspError(if m.error.value.code.Some? then m.error.value.code.value else 0,
               if m.error.value.message.Some? then m.error.value.message.value else "")
    else if m.result.Some? then Value(m.result.value)
    else Value(NULL)
  }

  function SetPhase(s: System, id: int, phase: Phase): System
    requires id in s.calls
  {
    s.(calls := s.calls[id := s.calls[id].(phase := phase)])
  }

  predicate Takes(s: System, m: Message) {
    m.id.Some? && m.id.value in s.pending
  }

  function Apply(s: System, st: Step): System
    requires Enabled(s, st)
  {
    match st
    case Allocate =>
      s.(nextId := s.nextId + 1, calls := s.calls[s.nextId := Call(Allocated, Empty)])
    case Register(id) =>
      SetPhase(s, id, Registered).(pending := s.pending + {id})
    case Write(id, ok) =>
      SetPhase(s, id, if ok then Waiting else Done(WriteError))
    case Arrive(m) =>
      if Takes(s, m) then
        s.(pending := s.pending - {m.id.value}, reader := Holding(m),
           answered := s.answered[m.id.value := m])
      else s
    case Send =>
      var id := s.reader.message.id;
      if id.Some? && id.value in s.calls then
        s.(reader := Reading, calls := s.calls[id.value := s.calls[id.value].(slot := Sent(s.reader.message))])
      else s.(reader := Reading)
    case Await(id) =>
      var slot := s.calls[id].slot;
      SetPhase(s, id, Done(if slot.Sent? then Resolve(slot.message) else Cancelled))
    case Expire(id) => SetPhase(s, id, Expired)
    case RemoveExpired(id) =>
      SetPhase(s, id, Done(Timeout)).(pending := s.pending - {id})
    case EndOfStream => s.(reader := Exiting)
    case ClearPending =>
      s.(reader := Gone, pending := {},
         calls := map id | id in s.calls ::
           if id in s.pending then s.calls[id].(slot := Dropped) else s.calls[id])
  }

  // ------------------------------------------------------------- invariant

  predicate CallSound(s: System, id: int)
    requires id in s.calls
  {
    var c := s.calls[id];
    var held := s.reader.Holding? && s.reader.message.id == Some(id);
    && id < s.nextId
    && (c.phase.Allocated? ==> id !in s.pending && c.slot.Empty? && id !in s.answered && !held)
    && (id in s.pending ==> c.slot.Empty? && id !in s.answered && !held)
    && (held ==> c.slot.Empty? && id in s.answered && s.answered[id] == s.reader.message)
    && (c.slot.Sent? ==> id in s.answered && s.answered[id] == c.slot.message && !held)
    && (c.slot.Dropped? ==> s.reader.Gone? && id !in s.answered)
    && (c.phase.Registered? || c.phase.Waiting? ==> id in s.pending || held || !c.slot.Empty?)
    && (c.phase.Done? && !c.phase.outcome.WriteError? ==> id !in s.pending)
    && (c.phase.Done? && (c.phase.outcome.Value? || c.phase.outcome.LspError?) ==>
          id in s.answered && c.phase.outcome == Resolve(s.answered[id]))
    && (c.phase.Done? && c.phase.outcome.Cancelled? ==> c.slot.Dropped?)
    && (id in s.answered ==> s.answered[id].id == Some(id))
  }

  ghost predicate Sound(s: System) {
    && (forall id :: id in s.calls ==> CallSound(s, id))
    && s.pending <= s.calls.Keys && s.answered.Keys <= s.calls.Keys
    && (s.reader.Holding? ==> s.reader.message.id.Some? && s.reader.message.id.value in s.calls)
  }

  const INITIAL := System(1, {}, map[], Reading, map[])

  lemma SoundStep(s: System, st: Step)
    requires Sound(s) && Enabled(s, st)
    ensures Sound(Apply(s, st))
  {
    var s' := Apply(s, st);
    forall id | id in s'.calls ensures CallSound(s', id) {
      if id in s.calls {
        assert CallSound(s, id);
      }
    }
  }

  // ------------------------------------------------------------------ runs

  ghost predicate IsRun(s: System, run: seq<Step>)
    decreases |run|
  {
    run == [] || (Enabled(s, run[0]) && IsRun(Apply(s, run[0]), run[1..]))
  }

  function Exec(s: System, run: seq<Step>): System
    requires IsRun(s, run)
    decreases |run|
  {
    if run == [] then s else Exec(Apply(s, run[0]), run[1..])
  }

  lemma {:induction false} SoundAlong(s: System, run: seq<Step>)
    requires Sound(s) && IsRun(s, run)
    ensures Sound(Exec(s, run))
    decreases |run|
  {
    if run != [] {
      SoundStep(s, run[0]);
      SoundAlong(Apply(s, run[0]), run[1..]);
    }
  }

  /** What a run may never undo: a resolved call keeps its outcome and an answered id its message. */
  ghost predicate Final(s: System, s': System) {
    && s.nextId <= s'.nextId
    && (forall id :: id in s.calls ==> id in s'.calls)
    && (forall id :: id in s.calls && s.calls[id].phase.Done? ==> s'.calls[id].phase == s.calls[id].phase)
    && (forall id :: id in s.answered ==> id in s'.answered && s'.answered[id] == s.answered[id])
  }

  lemma FinalStep(s: System, st: Step)
    requires Sound(s) && Enabled(s, st)
    ensures Final(s, Apply(s, st))
  {
    forall id | id in s.calls ensures CallSound(s, id) {
    }
  }

  /** A request resolves at most once. */
  lemma {:induction false} ResolvesOnce(s: System, run: seq<Step>)
    requires Sound(s) && IsRun(s, run)
    ensures Final(s, Exec(s, run))
    decreases |run|
  {
    if run != [] {
      SoundStep(s, run[0]);
      FinalStep(s, run[0]);
      ResolvesOnce(Apply(s, run[0]), run[1..]);
    }
  }

  /** In every reachable state: a call that returned a value or an error returned what the one
      message taken for its id says; Cancelled means the server is gone; unless writing failed,
      its id is out of the pending map; and a caller still waiting can be woken, because its id
      is pending, or the reader is about to send, or the answer is there. */
  lemma CallsAreAnswered(run: seq<Step>, id: int)
    requires IsRun(INITIAL, run) && id in Exec(INITIAL, run).calls
    ensures var s := Exec(INITIAL, run);
            var c := s.calls[id];
            && (c.phase.Done? && !c.phase.outcome.WriteError? ==> id !in s.pending)
            && (c.phase.Done? && (c.phase.outcome.Value? || c.phase.outcome.LspError?) ==>
                  id in s.answered && s.answered[id].id == Some(id) && c.phase.outcome == Resolve(s.answered[id]))
            && (c.phase.Done? && c.phase.outcome.Cancelled? ==> s.reader.Gone? && id !in s.answered)
            && (c.phase.Waiting? ==>
                  id in s.pending || (s.reader.Holding? && s.reader.message.id == Some(id)) || Enabled(s, Await(id)))
  {
    SoundAlong(INITIAL, run);
    assert CallSound(Exec(INITIAL, run), id);
  }

  /** The message taken for an id is the first to arrive with that id while it is pending, and no
      later message can be taken for it. */
  lemma {:induction false} FirstWhilePendingWins(s: System, run: seq<Step>, m: Message)
    requires Sound(s) && s.reader.Reading? && Takes(s, m) && IsRun(Apply(s, Arrive(m)), run)
    ensures m.id.value !in s.answered
    ensures var s' := Exec(Apply(s, Arrive(m)), run);
            m.id.value in s'.answered && s'.answered[m.id.value] == m && m.id.value !in s'.pending
  {
    var id := m.id.value;
    assert CallSound(s, id);
    SoundStep(s, Arrive(m));
    ResolvesOnce(Apply(s, Arrive(m)), run);
    SoundAlong(Apply(s, Arrive(m)), run);
    assert CallSound(Exec(Apply(s, Arrive(m)), run), id);
  }

  /** A call whose sender the exiting reader dropped; `late` says that it had already timed out. */
  predicate CutOff(s: System, id: int, late: bool) {
    && s.reader.Gone? && id in s.calls && id !in s.pending && s.calls[id].slot.Dropped?
    && match s.calls[id].phase
       case Allocated => false
       case Registered => !late
       case Waiting => !late
       case Expired => late
       case Done(outcome) => if late then outcome == Timeout else outcome == Cancelled || outcome == WriteError
  }

  lemma {:induction false} StaysCutOff(s: System, run: seq<Step>, id: int, late: bool)
    requires Sound(s) && IsRun(s, run) && CutOff(s, id, late)
    ensures CutOff(Exec(s, run), id, late)
    decreases |run|
  {
    if run != [] {
      SoundStep(s, run[0]);
      StaysCutOff(Apply(s, run[0]), run[1..], id, late);
    }
  }

  /** When the reader clears the map, everything in it is decided: whatever happens afterwards, a
      request that was pending at that moment, waiting, still being written or already timed out,
      never comes back into the map, never waits for its timeout again, and resolves, if it does, to
      Cancelled or a write error, or to Timeout exactly if it had timed out before. */
  lemma ReaderExitCancels(s: System, run: seq<Step>, id: int)
    requires Sound(s) && s.reader.Exiting? && id in s.pending && IsRun(Apply(s, ClearPending), run)
    ensures var s' := Exec(Apply(s, ClearPending), run);
            && id in s.calls && id in s'.calls && id !in s'.pending
            && (InPhase(s', id, Waiting) ==> !Enabled(s', Expire(id)) && Enabled(s', Await(id)))
            && (s'.calls[id].phase.Done? ==>
                  var outcome := s'.calls[id].phase.outcome;
                  && outcome in {Cancelled, WriteError, Timeout}
                  && (outcome == Timeout <==> s.calls[id].phase.Expired?))
  {
    assert CallSound(s, id);
    SoundStep(s, ClearPending);
    StaysCutOff(Apply(s, ClearPending), run, id, s.calls[id].phase.Expired?);
  }

  /** Nobody empties the map again: a request whose answer had not come when the reader was gone,
      a later one included, can only fail to be written or run into its timeout. */
  lemma {:induction false} NoAnswerAfterReader(s: System, run: seq<Step>, id: int)
    requires Sound(s) && IsRun(s, run) && s.reader.Gone?
    requires id in s.calls ==> s.calls[id].slot.Empty? && !s.calls[id].phase.Done?
    ensures var s' := Exec(s, run);
            s'.reader.Gone? &&
            (id in s'.calls && s'.calls[id].phase.Done? ==> s'.calls[id].phase.outcome in {Timeout, WriteError})
    decreases |run|
  {
    if run != [] {
      var st, s' := run[0], Apply(s, run[0]);
      SoundStep(s, st);
      if id in s'.calls && s'.calls[id].phase.Done? {
        ResolvesOnce(s', run[1..]);
        ReaderStaysGone(s', run[1..]);
      } else {
        NoAnswerAfterReader(s', run[1..], id);
      }
    }
  }

  lemma {:induction false} ReaderStaysGone(s: System, run: seq<Step>)
    requires IsRun(s, run) && s.reader.Gone?
    ensures Exec(s, run).reader.Gone?
    decreases |run|
  {
    if run != [] {
      ReaderStaysGone(Apply(s, run[0]), run[1..]);
    }
  }

  // --------------------------------------------------- responses and requests

  /** A server that never sends a request or a notification under an id that is pending. */
  ghost predicate IdsAvoidPending(s: System, run: seq<Step>)
    requires IsRun(s, run)
    decreases |run|
  {
    run == [] ||
    (&& (run[0].Arrive? && Takes(s, run[0].message) ==> run[0].message.methodName.None?)
     && IdsAvoidPending(Apply(s, run[0]), run[1..]))
  }

  ghost predicate OnlyResponses(s: System) {
    forall id :: id in s.answered ==> s.answered[id].methodName.None?
  }

  /** Every request is answered by a response, and by nothing else, exactly when the ids of the
      server's own requests stay clear of the pending ones. */
  lemma {:induction false} ResponsesIff(s: System, run: seq<Step>)
    requires Sound(s) && IsRun(s, run) && OnlyResponses(s)
    ensures OnlyResponses(Exec(s, run)) <==> IdsAvoidPending(s, run)
    decreases |run|
  {
    if run != [] {
      var st, s' := run[0], Apply(s, run[0]);
      SoundStep(s, st);
      if st.Arrive? && Takes(s, st.message) && st.message.methodName.Some? {
        var id := st.message.id.value;
        assert id in s'.answered && s'.answered[id].methodName.Some?;
        ResolvesOnce(s', run[1..]);
      } else {
        ResponsesIff(s', run[1..]);
      }
    }
  }

  /** The caller of this request got a value or an error from the server. */
  predicate Heard(s: System, id: int) {
    id in s.calls && s.calls[id].phase.Done? &&
    (s.calls[id].phase.outcome.Value? || s.calls[id].phase.outcome.LspError?)
  }

  /** Every message with a method that the run takes for a request is lost on its caller, who ends otherwise
      or still waits at `end`. */
  ghost predicate CollisionsUnheard(s: System, run: seq<Step>, end: System)
    requires IsRun(s, run)
    decreases |run|
  {
    run == [] ||
    (&& (run[0].Arrive? && Takes(s, run[0].message) && run[0].message.methodName.Some? ==>
           !Heard(end, run[0].message.id.value))
     && CollisionsUnheard(Apply(s, run[0]), run[1..], end))
  }

  /** What callers hear from the server comes from responses. */
  ghost predicate HearResponses(s: System) {
    forall id :: Heard(s, id) ==>
      id in s.answered && s.answered[id].methodName.None? && InPhase(s, id, Done(Resolve(s.answered[id])))
  }

  lemma {:induction false} HeardIff(s: System, run: seq<Step>)
    requires Sound(s) && IsRun(s, run)
    requires forall id :: id in s.answered && s.answered[id].methodName.Some? ==> !Heard(Exec(s, run), id)
    ensures HearResponses(Exec(s, run)) <==> CollisionsUnheard(s, run, Exec(s, run))
    decreases |run|
  {
    if run == [] {
      assert forall id :: id in s.calls ==> CallSound(s, id);
    } else {
      var st, s' := run[0], Apply(s, run[0]);
      SoundStep(s, st);
      if st.Arrive? && Takes(s, st.message) && st.message.methodName.Some? &&
         Heard(Exec(s, run), st.message.id.value) {
        ResolvesOnce(s', run[1..]);
        assert Exec(s, run).answered[st.message.id.value] == st.message;
      } else {
        HeardIff(s', run[1..]);
      }
    }
  }

  lemma {:induction false} TakenArrived(s: System, run: seq<Step>, id: int)
    requires IsRun(s, run) && id in Exec(s, run).answered
    ensures (id in s.answered && s.answered[id] == Exec(s, run).answered[id])
            || Arrive(Exec(s, run).answered[id]) in run
    decreases |run|
  {
    if run != [] {
      TakenArrived(Apply(s, run[0]), run[1..], id);
      assert run == [run[0]] + run[1..];
    }
  }

  /** The message reports an error with this code and text; 0 and the empty text stand for missing ones. */
  predicate ReportsError(m: Message, code: int, message: string) {
    && m.error.Some?
    && m.error.value.code in {Some(code), if code == 0 then None else Some(code)}
    && m.error.value.message in {Some(message), if message == "" then None else Some(message)}
  }

  /** The message is a success with this result; null stands for a missing one. */
  predicate ReportsResult(m: Message, v: string) {
    m.error.None? && (m.result == Some(v) || (m.result.None? && v == "null"))
  }

  /** What the answers mean, over every run: an error comes from a message with that error, and a value from
      one without any error and with that result; a request for which a message with an error was taken
      never ends in a value. */
  lemma {:induction false} OutcomesAre(run: seq<Step>, id: int)
    requires IsRun(INITIAL, run) && id in Exec(INITIAL, run).calls && Exec(INITIAL, run).calls[id].phase.Done?
    ensures match Exec(INITIAL, run).calls[id].phase.outcome
            case LspError(code, message) =>
              exists m :: Arrive(m) in run && m.id == Some(id) && ReportsError(m, code, message)
            case Value(v) =>
              exists m :: Arrive(m) in run && m.id == Some(id) && ReportsResult(m, v)
            case _ => true
    ensures var s := Exec(INITIAL, run);
            id in s.answered && s.answered[id].error.Some? ==> !s.calls[id].phase.outcome.Value?
    ensures var s := Exec(INITIAL, run);
            id in s.answered && s.answered[id].error.None? ==> !s.calls[id].phase.outcome.LspError?
  {
    var s := Exec(INITIAL, run);
    SoundAlong(INITIAL, run);
    assert CallSound(s, id);
    if id in s.answered {
      TakenArrived(INITIAL, run, id);
      assert Arrive(s.answered[id]) in run;
    }
  }

  /** For every run: callers hear nothing but responses that have arrived under their id, exactly when every
      request or notification that comes under a pending id is lost on its caller; in particular when
      none comes. */
  lemma CallersHearResponsesIff(run: seq<Step>)
    requires IsRun(INITIAL, run)
    ensures var s := Exec(INITIAL, run);
            (forall id :: Heard(s, id) ==>
               exists m :: Arrive(m) in run && m.id == Some(id) && m.methodName.None?
                           && InPhase(s, id, Done(Resolve(m))) && id in s.answered && s.answered[id] == m) <==>
            CollisionsUnheard(INITIAL, run, s)
    ensures IdsAvoidPending(INITIAL, run) ==> CollisionsUnheard(INITIAL, run, Exec(INITIAL, run))
  {
    var s := Exec(INITIAL, run);
    HeardIff(INITIAL, run);
    SoundAlong(INITIAL, run);
    forall id | id in s.answered ensures Arrive(s.answered[id]) in run && s.answered[id].id == Some(id) {
      TakenArrived(INITIAL, run, id);
      assert CallSound(s, id);
    }
    if HearResponses(s) {
      forall id | Heard(s, id)
        ensures exists m :: Arrive(m) in run && m.id == Some(id) && m.methodName.None?
                            && InPhase(s, id, Done(Resolve(m))) && id in s.answered && s.answered[id] == m
      {
        assert Arrive(s.answered[id]) in run;
      }
    }
    if IdsAvoidPending(INITIAL, run) {
      AvoidedIsUnheard(INITIAL, run, s);
    }
  }

  lemma {:induction false} AvoidedIsUnheard(s: System, run: seq<Step>, end: System)
    requires IsRun(s, run) && IdsAvoidPending(s, run)
    ensures CollisionsUnheard(s, run, end)
    decreases |run|
  {
    if run != [] {
      AvoidedIsUnheard(Apply(s, run[0]), run[1..], end);
    }
  }

  /** A server request whose id collides with a pending one resolves the client's request with
      null, and the real response that follows is dropped. */
  lemma CollidingRequestResolves(methodName: string, answer: string)
    ensures var collision := Message(Some(1), Some(methodName), None, None);
            var response := Message(Some(1), None, None, Some(answer));
            var run := [Allocate, Register(1), Write(1, true), Arrive(collision), Send, Await(1), Arrive(response)];
            && IsRun(INITIAL, run)
            && InPhase(Exec(INITIAL, run), 1, Done(Value(NULL)))
  {
    var collision := Message(Some(1), Some(methodName), None, None);
    var response := Message(Some(1), None, None, Some(answer));
    var s1 := Apply(INITIAL, Allocate);
    var s2 := Apply(s1, Register(1));
    var s3 := Apply(s2, Write(1, true));
    var s4 := Apply(s3, Arrive(collision));
    var s5 := Apply(s4, Send);
    var s6 := Apply(s5, Await(1));
    StepThen(s6, Arrive(response), []);
    StepThen(s5, Await(1), [Arrive(response)] + []);
    StepThen(s4, Send, [Await(1)] + ([Arrive(response)] + []));
    StepThen(s3, Arrive(collision), [Send] + ([Await(1)] + ([Arrive(response)] + [])));
    var tail := [Arrive(collision)] + ([Send] + ([Await(1)] + ([Arrive(response)] + [])));
    StepThen(s2, Write(1, true), tail);
    StepThen(s1, Register(1), [Write(1, true)] + tail);
    StepThen(INITIAL, Allocate, [Register(1)] + ([Write(1, true)] + tail));
    assert [Allocate] + ([Register(1)] + ([Write(1, true)] + tail)) ==
           [Allocate, Register(1), Write(1, true), Arrive(collision), Send, Await(1), Arrive(response)];
  }

  lemma StepThen(s: System, st: Step, rest: seq<Step>)
    requires Enabled(s, st) && IsRun(Apply(s, st), rest)
    ensures IsRun(s, [st] + rest) && Exec(s, [st] + rest) == Exec(Apply(s, st), rest)
  {
    assert ([st] + rest)[0] == st && ([st] + rest)[1..] == rest;
  }

  // ---------------------------------------------------------- the client object

  /** The client's shared state, with each code path as it runs when nothing interleaves. */
  class Client {
    var nextId: int
    var pending: set<int>
    var calls: map<int, Call>
    var reader: Reader
    ghost var answered: map<int, Message>

    ghost function State(): System
      reads this
    {
      System(nextId, pending, calls, reader, answered)
    }

    constructor ()
      ensures State() == INITIAL
    {
      nextId, pending, calls, reader := 1, {}, map[], Reading;
      answered := map[];
    }

    /** `request` up to the point where it waits: the id is registered before anything is written,
        so no answer can miss it, and a failed write leaves it registered. */
    method BeginRequest(writeOk: bool) returns (id: int)
      requires Sound(State())
      modifies this
      ensures Sound(State())
      ensures id == old(nextId) && id !in old(calls)
      ensures IsRun(old(State()), [Allocate, Register(id), Write(id, writeOk)])
      ensures State() == Exec(old(State()), [Allocate, Register(id), Write(id, writeOk)])
      ensures id in pending && InPhase(State(), id, if writeOk then Waiting else Done(WriteError))
    {
      ghost var s0 := State();
      id := nextId;
      assert id !in calls by {
        assert forall x :: x in calls ==> CallSound(s0, x);
      }
      nextId := nextId + 1;
      calls := calls[id := Call(Allocated, Empty)];
      ghost var s1 := State();
      assert s1 == Apply(s0, Allocate);
      pending := pending + {id};
      calls := calls[id := Call(Registered, Empty)];
      ghost var s2 := State();
      assert s2 == Apply(s1, Register(id));
      calls := calls[id := Call(if writeOk then Waiting else Done(WriteError), Empty)];
      assert State() == Apply(s2, Write(id, writeOk));
      ThreeSteps(s0, Allocate, Register(id), Write(id, writeOk));
    }

    /** `dispatch` of one message with an id: the sender is removed from the map, then used. */
    method Dispatch(m: Message) returns (taken: bool)
      requires Sound(State()) && reader.Reading?
      modifies this
      ensures Sound(State()) && reader.Reading?
      ensures taken <==> Takes(old(State()), m)
      ensures !taken ==> State() == old(State())
      ensures taken ==> State() == Apply(Apply(old(State()), Arrive(m)), Send)
    {
      ghost var s0 := State();
      taken := m.id.Some? && m.id.value in pending;
      if taken {
        var id := m.id.value;
        pending := pending - {id};
        reader := Holding(m);
        answered := answered[id := m];
        SoundStep(s0, Arrive(m));
        ghost var s1 := State();
        assert s1 == Apply(s0, Arrive(m));
        calls := calls[id := calls[id].(slot := Sent(m))];
        reader := Reading;
        SoundStep(s1, Send);
        assert State() == Apply(s1, Send);
      }
    }

    /** The reader after its loop: every sender still in the map is dropped. */
    method ReaderExit()
      requires Sound(State()) && reader.Reading?
      modifies this
      ensures Sound(State()) && reader.Gone? && pending == {}
      ensures State() == Apply(Apply(old(State()), EndOfStream), ClearPending)
      ensures forall id :: id in old(pending) ==> id in calls && calls[id].slot.Dropped?
    {
      ghost var s0 := State();
      reader := Exiting;
      SoundStep(s0, EndOfStream);
      ghost var s1 := State();
      SoundStep(s1, ClearPending);
      calls := map id | id in calls :: if id in pending then calls[id].(slot := Dropped) else calls[id];
      pending := {};
      reader := Gone;
    }

    /** The end of `request`: take what the channel holds, or give up and unregister. */
    method FinishRequest(id: int) returns (outcome: Outcome)
      requires Sound(State()) && InPhase(State(), id, Waiting)
      modifies this
      ensures Sound(State()) && id !in pending && InPhase(State(), id, Done(outcome))
      ensures outcome == match old(calls)[id].slot
                         case Empty => Timeout
                         case Dropped => Cancelled
                         case Sent(m) => Resolve(m)
      ensures outcome.LspError? <==> old(calls)[id].slot.Sent? && old(calls)[id].slot.message.error.Some?
      ensures outcome.LspError? ==> ReportsError(old(calls)[id].slot.message, outcome.code, outcome.message)
      ensures outcome.Value? <==> old(calls)[id].slot.Sent? && old(calls)[id].slot.message.error.None?
      ensures outcome.Value? ==> ReportsResult(old(calls)[id].slot.message, outcome.result)
      ensures pending == old(pending) - {id}
    {
      ghost var s0 := State();
      var slot := calls[id].slot;
      match slot {
        case Sent(m) =>
          outcome := Resolve(m);
          SoundStep(s0, Await(id));
        case Dropped =>
          outcome := Cancelled;
          SoundStep(s0, Await(id));
        case Empty =>
          outcome := Timeout;
          pending := pending - {id};
          SoundStep(s0, Expire(id));
          SoundStep(Apply(s0, Expire(id)), RemoveExpired(id));
      }
      assert CallSound(s0, id);
      calls := calls[id := calls[id].(phase := Done(outcome))];
      assert slot.Empty? ==> State() == Apply(Apply(s0, Expire(id)), RemoveExpired(id));
      assert !slot.Empty? ==> State() == Apply(s0, Await(id));
    }
  }

  lemma ThreeSteps(s: System, a: Step, b: Step, c: Step)
    requires Sound(s) && Enabled(s, a) && Enabled(Apply(s, a), b) && Enabled(Apply(Apply(s, a), b), c)
    ensures IsRun(s, [a, b, c]) && Exec(s, [a, b, c]) == Apply(Apply(Apply(s, a), b), c)
    ensures Sound(Exec(s, [a, b, c]))
  {
    var s1 := Apply(s, a);
    var s2 := Apply(s1, b);
    StepThen(s2, c, []);
    StepThen(s1, b, [c] + []);
    StepThen(s, a, [b] + ([c] + []));
    assert [a] + ([b] + ([c] + [])) == [a, b, c];
    SoundAlong(s, [a, b, c]);
  }
}
