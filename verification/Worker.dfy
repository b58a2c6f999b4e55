/** The request loop of the inference worker (python/inferio_worker/__main__.py). */
module Worker {
  // What it does and answers for every sequence of frames and every way in which a call into the
  // implementation can end: it may work, raise an exception, or quit the whole process.

  import opened Prelude

  const PROTOCOL_VERSION: int := 2

  const EXIT_OK: int := 0
  const EXIT_HANDSHAKE_FAILED: int := 1
  const EXIT_PROTOCOL_ERROR: int := 2
  const EXIT_INTERNAL_ERROR: int := 3

  // --- what comes in ---

  datatype Kind = Handshake(version: int) | Prewarm | Configure(model: string) | Load | Predict | Unload | Ping | Unknown

  /** A decoded frame, or bytes that are no frame: oversized, cut short, or not a map. */
  datatype Frame = Frame(kind: Kind, id: Option<int>) | Garbled

  /** How a call into the implementation ends. `SystemExit`, `KeyboardInterrupt` and the like are
      no `Exception`: nothing catches them, and the process ends with a code of their choice. */
  datatype Effect = Works | Raises | Quits(code: int)

  /** A frame, with what happens while it is handled: how the call into the implementation ends,
      if one is made, and whether the answer can be written. After the last one comes end of
      file. */
  datatype Input = Input(frame: Frame, effect: Effect, writable: bool)

  // --- what the worker does ---

  datatype Reason =
    | NotAHandshake | WrongVersion | Raised
    | PrewarmAfterConfigure | AlreadyConfigured(model: string)
    | LoadBeforeConfigure | PredictBeforeConfigure | PredictBeforeLoad | Unsupported

  datatype Verdict = Granted | Refused(reason: Reason)

  /** Requests, calls into the implementation with whether they worked, and answers. */
  datatype Act =
    | Received(kind: Kind, id: int)
    | Located(ok: bool)
    | Prepared(ok: bool)
    | Instantiated(model: string, ok: bool)
    | Loaded(ok: bool)
    | Predicted(ok: bool)
    | Unloaded(ok: bool)
    | Replied(id: int, verdict: Verdict)

  type Log = seq<Act>

  function RequestId(id: Option<int>): int {
    if id.Some? then id.value else 0
  }

  function Outcome(works: bool): Verdict {
    if works then Granted else Refused(Raised)
  }

  // --- specification ---

  /** `instance` holds the name the instance was configured under. */
  datatype Status = Status(instance: Option<string>, prewarmed: bool, loaded: bool)

  /** Handling one request: the new status, the calls made, and the answer. */
  datatype Handled = Handled(status: Status, calls: Log, verdict: Verdict)

  function Handle(hasPrepare: bool, s: Status, kind: Kind, works: bool): Handled {
    match kind
    case Prewarm =>
      if s.instance.Some? then Handled(s, [], Refused(PrewarmAfterConfigure))
      else if s.prewarmed then Handled(s, [], Granted)
      else if !hasPrepare then Handled(s.(prewarmed := true), [], Granted)
      else Handled(s.(prewarmed := works), [Prepared(works)], Outcome(works))
    case Configure(model) =>
      if s.instance.Some? then Handled(s, [], Refused(AlreadyConfigured(s.instance.value)))
      else Handled(if works then s.(instance := Some(model)) else s, [Instantiated(model, works)], Outcome(works))
    case Load =>
      if s.instance.None? then Handled(s, [], Refused(LoadBeforeConfigure))
      else Handled(s.(loaded := s.loaded || works), [Loaded(works)], Outcome(works))
    case Predict =>
      if s.instance.None? then Handled(s, [], Refused(PredictBeforeConfigure))
      else if !s.loaded then Handled(s, [], Refused(PredictBeforeLoad))
      else Handled(s, [Predicted(works)], Outcome(works))
    case Unload =>
      if s.loaded && s.instance.Some? then Handled(s, [Unloaded(works)], Outcome(works)) else Handled(s, [], Granted)
    case Ping => Handled(s, [], Granted)
    case _ => Handled(s, [], Refused(Unsupported))
  }

  /** The exit code of a run that ends before the request is answered. */
  function Stops(calls: Log, i: Input): Option<int> {
    if calls != [] && i.effect.Quits? then Some(i.effect.code)
    else if !i.writable then Some(EXIT_INTERNAL_ERROR)
    else None
  }

  /** A whole run: everything done, in order, and the exit code. */
  datatype Run = Run(log: Log, code: int)

  function Prepend(log: Log, r: Run): Run {
    Run(log + r.log, r.code)
  }

  function Requests(hasPrepare: bool, s: Status, inputs: seq<Input>): Run
    decreases inputs
  {
    if inputs == [] then Run([], EXIT_OK)
    else match inputs[0].frame
      case Garbled => Run([], EXIT_PROTOCOL_ERROR)
      case Frame(kind, id) =>
        var h := Handle(hasPrepare, s, kind, inputs[0].effect.Works?);
        var heard := [Received(kind, RequestId(id))] + h.calls;
        var stop := Stops(h.calls, inputs[0]);
        if stop.Some? then Run(heard, stop.value)
        else
          var done := heard + [Replied(RequestId(id), h.verdict)];
          if kind == Unload && h.verdict == Granted then Run(done, EXIT_OK)
          else Prepend(done, Requests(hasPrepare, h.status, inputs[1..]))
  }

  function Initial(): Status {
    Status(None, false, false)
  }

  /** Answering the first frame: the calls made and the verdict. */
  function Greeting(kind: Kind, works: bool): (Log, Verdict) {
    if !kind.Handshake? then ([], Refused(NotAHandshake))
    else if kind.version != PROTOCOL_VERSION then ([], Refused(WrongVersion))
    else ([Located(works)], Outcome(works))
  }

  function Session(hasPrepare: bool, inputs: seq<Input>): Run {
    if inputs == [] then Run([], EXIT_HANDSHAKE_FAILED)
    else match inputs[0].frame
      case Garbled => Run([], EXIT_PROTOCOL_ERROR)
      case Frame(kind, id) =>
        var g := Greeting(kind, inputs[0].effect.Works?);
        var heard := [Received(kind, RequestId(id))] + g.0;
        var stop := Stops(g.0, inputs[0]);
        if stop.Some? then Run(heard, stop.value)
        else
          var done := heard + [Replied(RequestId(id), g.1)];
          if g.1 != Granted then Run(done, EXIT_HANDSHAKE_FAILED)
          else Prepend(done, Requests(hasPrepare, Initial(), inputs[1..]))
  }

  // --- the program ---

  /** `_handshake`. */
  method Handshaking(first: Input) returns (log: Log, code: Option<int>)
    requires first.frame.Frame?
    ensures var g := Greeting(first.frame.kind, first.effect.Works?);
            var heard := [Received(first.frame.kind, RequestId(first.frame.id))] + g.0;
            if Stops(g.0, first).None?
            then log == heard + [Replied(RequestId(first.frame.id), g.1)]
                 && code == (if g.1 == Granted then None else Some(EXIT_HANDSHAKE_FAILED))
            else log == heard && code == Stops(g.0, first)
  {
    var reqId := RequestId(first.frame.id);
    log := [Received(first.frame.kind, reqId)];
    if !first.frame.kind.Handshake? {
      if !first.writable { return log, Some(EXIT_INTERNAL_ERROR); }
      return log + [Replied(reqId, Refused(NotAHandshake))], Some(EXIT_HANDSHAKE_FAILED);
    }
    if first.frame.kind.version != PROTOCOL_VERSION {
      if !first.writable { return log, Some(EXIT_INTERNAL_ERROR); }
      return log + [Replied(reqId, Refused(WrongVersion))], Some(EXIT_HANDSHAKE_FAILED);
    }
    log := log + [Located(first.effect.Works?)];
    if first.effect.Quits? { return log, Some(first.effect.code); }
    if !first.writable { return log, Some(EXIT_INTERNAL_ERROR); }
    if !first.effect.Works? { return log + [Replied(reqId, Refused(Raised))], Some(EXIT_HANDSHAKE_FAILED); }
    return log + [Replied(reqId, Granted)], None;
  }

  /** `_serve` and the exit codes `main` adds: the request loop over its local state. */
  method Serve(hasPrepare: bool, inputs: seq<Input>) returns (log: Log, code: int)
    ensures Run(log, code) == Session(hasPrepare, inputs)
  {
    if inputs == [] { return [], EXIT_HANDSHAKE_FAILED; }
    if inputs[0].frame.Garbled? { return [], EXIT_PROTOCOL_ERROR; }
    var refused: Option<int>;
    log, refused := Handshaking(inputs[0]);
    if refused.Some? { return log, refused.value; }

    var instance: Option<string>, prewarmed, loaded := None, false, false;
    var next := 1;
    while next < |inputs|
      invariant 1 <= next <= |inputs|
      invariant Session(hasPrepare, inputs)
             == Prepend(log, Requests(hasPrepare, Status(instance, prewarmed, loaded), inputs[next..]))
    {
      var input := inputs[next];
      if input.frame.Garbled? { return log, EXIT_PROTOCOL_ERROR; }
      var reqId := RequestId(input.frame.id);
      var calls: Log, verdict := [], Granted;
      ghost var before := Status(instance, prewarmed, loaded);
      match input.frame.kind {
        case Prewarm =>
          if instance.Some? {
            verdict := Refused(PrewarmAfterConfigure);
          } else if !prewarmed {
            if hasPrepare {
              calls := [Prepared(input.effect.Works?)];
              if input.effect.Works? { prewarmed := true; } else { verdict := Refused(Raised); }
            } else {
              prewarmed := true;
            }
          }
        case Configure(model) =>
          if instance.Some? {
            verdict := Refused(AlreadyConfigured(instance.value));
          } else {
            calls := [Instantiated(model, input.effect.Works?)];
            if input.effect.Works? { instance := Some(model); } else { verdict := Refused(Raised); }
          }
        case Load =>
          if instance.None? {
            verdict := Refused(LoadBeforeConfigure);
          } else {
            calls := [Loaded(input.effect.Works?)];
            if input.effect.Works? { loaded := true; } else { verdict := Refused(Raised); }
          }
        case Predict =>
          if instance.None? {
            verdict := Refused(PredictBeforeConfigure);
          } else if !loaded {
            verdict := Refused(PredictBeforeLoad);
          } else {
            calls := [Predicted(input.effect.Works?)];
            if !input.effect.Works? { verdict := Refused(Raised); }
          }
        case Unload =>
          if loaded && instance.Some? {
            calls := [Unloaded(input.effect.Works?)];
            if !input.effect.Works? { verdict := Refused(Raised); }
          }
        case Ping =>
        case _ => verdict := Refused(Unsupported);
      }
      assert Handled(Status(instance, prewarmed, loaded), calls, verdict)
          == Handle(hasPrepare, before, input.frame.kind, input.effect.Works?);
      RequestsNext(hasPrepare, before, inputs, next, log);
      log := log + ([Received(input.frame.kind, reqId)] + calls);
      if calls != [] && input.effect.Quits? { return log, input.effect.code; }
      if !input.writable { return log, EXIT_INTERNAL_ERROR; }
      log := log + [Replied(reqId, verdict)];
      if input.frame.kind == Unload && verdict == Granted { return log, EXIT_OK; }
      next := next + 1;
    }
    code := EXIT_OK;
  }

  /** One turn of the loop, as the specification sees it. */
  lemma RequestsNext(hasPrepare: bool, s: Status, inputs: seq<Input>, next: nat, log: Log)
    requires next < |inputs| && inputs[next].frame.Frame?
    ensures var input := inputs[next];
            var h := Handle(hasPrepare, s, input.frame.kind, input.effect.Works?);
            var heard := log + ([Received(input.frame.kind, RequestId(input.frame.id))] + h.calls);
            var done := heard + [Replied(RequestId(input.frame.id), h.verdict)];
            Prepend(log, Requests(hasPrepare, s, inputs[next..])) ==
              if Stops(h.calls, input).Some? then Run(heard, Stops(h.calls, input).value)
              else if input.frame.kind == Unload && h.verdict == Granted then Run(done, EXIT_OK)
              else Prepend(done, Requests(hasPrepare, h.status, inputs[next + 1..]))
  {
    var input := inputs[next];
    var h := Handle(hasPrepare, s, input.frame.kind, input.effect.Works?);
    var heard := [Received(input.frame.kind, RequestId(input.frame.id))] + h.calls;
    var reply := [Replied(RequestId(input.frame.id), h.verdict)];
    var rest := Requests(hasPrepare, h.status, inputs[next + 1..]).log;
    assert inputs[next..][0] == input && inputs[next..][1..] == inputs[next + 1..];
    assert log + (heard + reply) == (log + heard) + reply;
    assert log + ((heard + reply) + rest) == ((log + heard) + reply) + rest;
  }

  // --- the protocol order ---

  ghost predicate Configured(log: Log) {
    exists m: string :: Instantiated(m, true) in log
  }

  /** A load succeeded, and before it a configure. */
  ghost predicate Ready(log: Log) {
    exists i :: 0 <= i < |log| && log[i] == Loaded(true) && Configured(log[..i])
  }

  /** `call` is what a request of this kind asks the implementation for. */
  predicate Serves(kind: Kind, call: Act) {
    match kind
    case Handshake(_) => call.Located?
    case Prewarm => call.Prepared?
    case Configure(model) => call.Instantiated? && call.model == model
    case Load => call.Loaded?
    case Predict => call.Predicted?
    case Unload => call.Unloaded?
    case _ => false
  }

  /** The answer when no call was made for the request, and why that is right. */
  ghost predicate RightWithoutCall(hasPrepare: bool, before: Log, kind: Kind, v: Verdict) {
    if |before| == 1 then v == Refused(if kind.Handshake? then WrongVersion else NotAHandshake)
    else match kind
      case Prewarm =>
        if Configured(before) then v == Refused(PrewarmAfterConfigure)
        else v == Granted && (hasPrepare ==> Prepared(true) in before)
      case Configure(_) =>
        v.Refused? && v.reason.AlreadyConfigured? && Instantiated(v.reason.model, true) in before
      case Load => v == Refused(LoadBeforeConfigure) && !Configured(before)
      case Predict =>
        v == Refused(if Configured(before) then PredictBeforeLoad else PredictBeforeConfigure) && !Ready(before)
      case Unload => v == Granted && !Ready(before)
      case Ping => v == Granted
      case _ => v == Refused(Unsupported)
  }

  /** The answer says what happened: whether the call made for the request worked, or why none
      was made. */
  ghost predicate Truthful(hasPrepare: bool, before: Log, id: int, v: Verdict) {
    && before != []
    && var last := before[|before| - 1];
       if last.Received? then last.id == id && RightWithoutCall(hasPrepare, before, last.kind, v)
       else
         && |before| >= 2
         && before[|before| - 2].Received? && before[|before| - 2].id == id
         && Serves(before[|before| - 2].kind, last) && v == Outcome(!last.Replied? && last.ok)
  }

  /** What the protocol allows after `before`. */
  ghost predicate Allowed(hasPrepare: bool, before: Log, a: Act) {
    && (Unloaded(true) in before ==> a.Replied?)
    && match a
       case Received(_, _) => true
       case Prepared(_) => hasPrepare && !Configured(before) && Prepared(true) !in before
       case Instantiated(_, _) => !Configured(before)
       case Loaded(_) => Configured(before)
       case Predicted(_) => Ready(before)
       case Unloaded(_) => Ready(before)
       case Located(_) => |before| == 1
       case Replied(id, v) => Truthful(hasPrepare, before, id, v)
  }

  ghost predicate InOrder(hasPrepare: bool, log: Log) {
    forall j :: 0 <= j < |log| ==> Allowed(hasPrepare, log[..j], log[j])
  }

  /** How the loop's variables stand to what has been done. */
  ghost predicate Agrees(hasPrepare: bool, s: Status, log: Log) {
    && (s.instance.Some? <==> Configured(log))
    && (s.instance.Some? ==> Instantiated(s.instance.value, true) in log)
    && (Prepared(true) in log ==> s.prewarmed)
    && (s.prewarmed && hasPrepare ==> Prepared(true) in log)
    && (s.loaded <==> Ready(log))
    && Unloaded(true) !in log
    && log != []
  }

  lemma InOrderSnoc(hasPrepare: bool, log: Log, a: Act)
    requires InOrder(hasPrepare, log) && Allowed(hasPrepare, log, a)
    ensures InOrder(hasPrepare, log + [a])
  {
    var more := log + [a];
    forall j | 0 <= j < |more| ensures Allowed(hasPrepare, more[..j], more[j]) {
      assert more[..j] == log[..j];
      assert j == |log| ==> log[..j] == log;
    }
  }

  lemma ConfiguredSnoc(log: Log, a: Act)
    ensures Configured(log + [a]) <==> Configured(log) || (a.Instantiated? && a.ok)
  {
    if a.Instantiated? && a.ok { assert Instantiated(a.model, true) in log + [a]; }
    if Configured(log) {
      var m :| Instantiated(m, true) in log;
      assert Instantiated(m, true) in log + [a];
    }
  }

  lemma ReadySnoc(log: Log, a: Act)
    ensures Ready(log + [a]) <==> Ready(log) || (a == Loaded(true) && Configured(log))
  {
    var more := log + [a];
    if Ready(log) {
      var i :| 0 <= i < |log| && log[i] == Loaded(true) && Configured(log[..i]);
      assert more[i] == Loaded(true) && more[..i] == log[..i];
    }
    if a == Loaded(true) && Configured(log) {
      assert more[|log|] == a && more[..|log|] == log;
    }
    if Ready(more) {
      var i :| 0 <= i < |more| && more[i] == Loaded(true) && Configured(more[..i]);
      assert more[..i] == log[..i];
      assert i == |log| ==> log[..i] == log;
    }
  }

  /** Requests and answers change nothing. */
  lemma Unchanged(hasPrepare: bool, s: Status, log: Log, a: Act)
    requires InOrder(hasPrepare, log) && Allowed(hasPrepare, log, a) && (a.Replied? || a.Received? || a.Located?)
    ensures InOrder(hasPrepare, log + [a])
    ensures Agrees(hasPrepare, s, log) ==> Agrees(hasPrepare, s, log + [a])
  {
    InOrderSnoc(hasPrepare, log, a);
    ConfiguredSnoc(log, a);
    ReadySnoc(log, a);
  }

  /** A request that needs no call. */
  lemma Silent(hasPrepare: bool, s: Status, kind: Kind, works: bool, log: Log)
    requires Agrees(hasPrepare, s, log) && |log| >= 2
    requires Handle(hasPrepare, s, kind, works).calls == []
    ensures var h := Handle(hasPrepare, s, kind, works);
            Agrees(hasPrepare, h.status, log) && RightWithoutCall(hasPrepare, log, kind, h.verdict)
  {
  }

  /** The one call made for a request is allowed, and answers it. */
  lemma CallAllowed(hasPrepare: bool, s: Status, kind: Kind, works: bool, log: Log, call: Act)
    requires Agrees(hasPrepare, s, log) && Handle(hasPrepare, s, kind, works).calls == [call]
    ensures Allowed(hasPrepare, log, call) && Serves(kind, call) && !call.Replied? && !call.Received? && call.ok == works
    ensures Handle(hasPrepare, s, kind, works).verdict == Outcome(works)
  {
  }

  lemma CallKeeps(hasPrepare: bool, s: Status, kind: Kind, works: bool, log: Log, call: Act)
    requires Agrees(hasPrepare, s, log) && Handle(hasPrepare, s, kind, works).calls == [call]
    requires !(kind == Unload && works)
    ensures Agrees(hasPrepare, Handle(hasPrepare, s, kind, works).status, log + [call])
  {
    ConfiguredSnoc(log, call);
    ReadySnoc(log, call);
  }

  lemma CallAnswered(hasPrepare: bool, log: Log, kind: Kind, id: int, call: Act)
    requires log != [] && log[|log| - 1] == Received(kind, id)
    requires Serves(kind, call) && !call.Replied? && !call.Received?
    ensures Truthful(hasPrepare, log + [call], id, Outcome(call.ok))
  {
  }

  /** Handling one request only makes calls the protocol allows, and answers truthfully. */
  lemma CallsAllowed(hasPrepare: bool, s: Status, kind: Kind, id: int, works: bool, log: Log)
    requires InOrder(hasPrepare, log) && Agrees(hasPrepare, s, log)
    requires |log| >= 2 && log[|log| - 1] == Received(kind, id)
    ensures var h := Handle(hasPrepare, s, kind, works);
            && InOrder(hasPrepare, log + h.calls)
            && (!(kind == Unload && h.verdict == Granted) ==> Agrees(hasPrepare, h.status, log + h.calls))
            && Truthful(hasPrepare, log + h.calls, id, h.verdict)
  {
    var h := Handle(hasPrepare, s, kind, works);
    if h.calls == [] {
      assert log + h.calls == log;
      Silent(hasPrepare, s, kind, works, log);
    } else {
      var call := h.calls[0];
      assert h.calls == [call];
      CallAllowed(hasPrepare, s, kind, works, log, call);
      InOrderSnoc(hasPrepare, log, call);
      CallAnswered(hasPrepare, log, kind, id, call);
      if !(kind == Unload && works) { CallKeeps(hasPrepare, s, kind, works, log, call); }
    }
  }

  /** One request, up to the answer. */
  lemma HeardInOrder(hasPrepare: bool, s: Status, kind: Kind, id: int, works: bool, log: Log)
    requires InOrder(hasPrepare, log) && Agrees(hasPrepare, s, log)
    ensures var h := Handle(hasPrepare, s, kind, works);
            var heard := log + ([Received(kind, id)] + h.calls);
            && InOrder(hasPrepare, heard) && Truthful(hasPrepare, heard, id, h.verdict)
            && (!(kind == Unload && h.verdict == Granted) ==> Agrees(hasPrepare, h.status, heard))
  {
    var asked := log + [Received(kind, id)];
    var calls := Handle(hasPrepare, s, kind, works).calls;
    Unchanged(hasPrepare, s, log, Received(kind, id));
    CallsAllowed(hasPrepare, s, kind, id, works, asked);
    LogRegroup(log, [Received(kind, id)], calls);
  }

  lemma LogRegroup(a: Log, b: Log, c: Log)
    ensures (a + b) + c == a + (b + c)
  {
  }

  /** One request, from the frame to the answer. */
  lemma RequestInOrder(hasPrepare: bool, s: Status, kind: Kind, id: int, works: bool, log: Log)
    requires InOrder(hasPrepare, log) && Agrees(hasPrepare, s, log)
    ensures var h := Handle(hasPrepare, s, kind, works);
            var heard := log + ([Received(kind, id)] + h.calls);
            && InOrder(hasPrepare, heard) && InOrder(hasPrepare, heard + [Replied(id, h.verdict)])
            && (!(kind == Unload && h.verdict == Granted) ==> Agrees(hasPrepare, h.status, heard + [Replied(id, h.verdict)]))
  {
    var h := Handle(hasPrepare, s, kind, works);
    HeardInOrder(hasPrepare, s, kind, id, works, log);
    Unchanged(hasPrepare, h.status, log + ([Received(kind, id)] + h.calls), Replied(id, h.verdict));
  }

  lemma {:induction false} RequestsInOrder(hasPrepare: bool, s: Status, inputs: seq<Input>, log: Log)
    requires InOrder(hasPrepare, log) && Agrees(hasPrepare, s, log)
    ensures InOrder(hasPrepare, log + Requests(hasPrepare, s, inputs).log)
    decreases inputs
  {
    if inputs == [] || inputs[0].frame.Garbled? {
      assert log + [] == log;
    } else {
      var input := inputs[0];
      var kind, id := input.frame.kind, RequestId(input.frame.id);
      var h := Handle(hasPrepare, s, kind, input.effect.Works?);
      var done := (log + ([Received(kind, id)] + h.calls)) + [Replied(id, h.verdict)];
      RequestInOrder(hasPrepare, s, kind, id, input.effect.Works?, log);
      assert InOrder(hasPrepare, Prepend(log, Requests(hasPrepare, s, inputs)).log) by {
        RequestsNext(hasPrepare, s, inputs, 0, log);
        assert inputs[0..] == inputs && inputs[0 + 1..] == inputs[1..];
        if Stops(h.calls, input).None? && !(kind == Unload && h.verdict == Granted) {
          RequestsInOrder(hasPrepare, h.status, inputs[1..], done);
        }
      }
    }
  }

  /** Every run keeps the protocol order, whatever is asked and whatever fails: at most one
      configure succeeds; `prepare` runs neither after it nor again after succeeding; loading
      comes after it, predicting and unloading after a successful load; nothing but the answer
      follows a successful unload; and every answer is truthful. */
  lemma EveryRunIsInOrder(hasPrepare: bool, inputs: seq<Input>)
    ensures InOrder(hasPrepare, Session(hasPrepare, inputs).log)
  {
    if inputs != [] && inputs[0].frame.Frame? {
      var kind, id := inputs[0].frame.kind, RequestId(inputs[0].frame.id);
      var g := Greeting(kind, inputs[0].effect.Works?);
      Greeted(hasPrepare, kind, id, inputs[0].effect.Works?);
      if Stops(g.0, inputs[0]).None? && g.1 == Granted {
        var done := [Received(kind, id)] + g.0 + [Replied(id, g.1)];
        RequestsInOrder(hasPrepare, Initial(), inputs[1..], done);
      }
    }
  }

  /** The first request, up to the answer. */
  lemma GreetingHeard(hasPrepare: bool, kind: Kind, id: int, works: bool)
    ensures var g := Greeting(kind, works);
            var heard := [Received(kind, id)] + g.0;
            InOrder(hasPrepare, heard) && Truthful(hasPrepare, heard, id, g.1)
  {
    var first := [Received(kind, id)];
    assert InOrder(hasPrepare, first);
    if Greeting(kind, works).0 != [] {
      InOrderSnoc(hasPrepare, first, Located(works));
    } else {
      assert first + [] == first;
    }
  }

  lemma NothingYet(hasPrepare: bool, log: Log)
    requires log != [] && forall a :: a in log ==> a.Received? || a.Located? || a.Replied?
    ensures Agrees(hasPrepare, Initial(), log)
  {
  }

  lemma Greeted(hasPrepare: bool, kind: Kind, id: int, works: bool)
    ensures var g := Greeting(kind, works);
            var heard := [Received(kind, id)] + g.0;
            && InOrder(hasPrepare, heard) && InOrder(hasPrepare, heard + [Replied(id, g.1)])
            && Agrees(hasPrepare, Initial(), heard + [Replied(id, g.1)])
  {
    var g := Greeting(kind, works);
    var heard := [Received(kind, id)] + g.0;
    GreetingHeard(hasPrepare, kind, id, works);
    InOrderSnoc(hasPrepare, heard, Replied(id, g.1));
    NothingYet(hasPrepare, heard + [Replied(id, g.1)]);
  }

  /** At most one configure ever succeeds. */
  lemma OneConfigure(hasPrepare: bool, inputs: seq<Input>, i: nat, j: nat)
    requires var log := Session(hasPrepare, inputs).log;
             && i < |log| && log[i].Instantiated? && log[i].ok
             && j < |log| && log[j].Instantiated? && log[j].ok
    ensures i == j
  {
    EveryRunIsInOrder(hasPrepare, inputs);
    AtMostOne(hasPrepare, Session(hasPrepare, inputs).log, i, j);
  }

  /** A refusal to configure again names the model of the one configure that succeeded. */
  lemma RefusalNamesTheModel(hasPrepare: bool, inputs: seq<Input>, i: nat, j: nat, id: int, m: string)
    requires var log := Session(hasPrepare, inputs).log;
             && i < |log| && log[i].Instantiated? && log[i].ok
             && j < |log| && log[j] == Replied(id, Refused(AlreadyConfigured(m)))
    ensures i < j && Session(hasPrepare, inputs).log[i].model == m
  {
    EveryRunIsInOrder(hasPrepare, inputs);
    var log := Session(hasPrepare, inputs).log;
    assert Allowed(hasPrepare, log[..j], log[j]);
    RefusalIsGrounded(hasPrepare, log[..j], id, m);
    var k :| 0 <= k < j && log[..j][k] == Instantiated(m, true);
    AtMostOne(hasPrepare, log, i, k);
  }

  lemma RefusalIsGrounded(hasPrepare: bool, before: Log, id: int, m: string)
    requires Truthful(hasPrepare, before, id, Refused(AlreadyConfigured(m)))
    ensures Instantiated(m, true) in before
  {
  }

  lemma AtMostOne(hasPrepare: bool, log: Log, i: nat, j: nat)
    requires InOrder(hasPrepare, log) && i < |log| && j < |log|
    requires log[i].Instantiated? && log[i].ok && log[j].Instantiated? && log[j].ok
    ensures i == j
  {
    if i < j {
      NoSecond(hasPrepare, log, i, j);
    } else if j < i {
      NoSecond(hasPrepare, log, j, i);
    }
  }

  lemma NoSecond(hasPrepare: bool, log: Log, i: nat, j: nat)
    requires InOrder(hasPrepare, log) && i < j < |log| && log[i].Instantiated? && log[i].ok
    ensures !log[j].Instantiated?
  {
    assert log[..j][i] == Instantiated(log[i].model, true);
    assert Allowed(hasPrepare, log[..j], log[j]);
  }

  // --- answers and exits ---

  function Ids(inputs: seq<Input>): seq<int> {
    if inputs == [] then []
    else if inputs[0].frame.Frame? then [RequestId(inputs[0].frame.id)] + Ids(inputs[1..])
    else Ids(inputs[1..])
  }

  function Answers(log: Log): seq<int> {
    if log == [] then []
    else if log[0].Replied? then [log[0].id] + Answers(log[1..])
    else Answers(log[1..])
  }

  lemma {:induction false} AnswersConcat(a: Log, b: Log)
    ensures Answers(a + b) == Answers(a) + Answers(b)
  {
    if a == [] {
      assert a + b == b;
    } else {
      assert (a + b)[1..] == a[1..] + b;
      AnswersConcat(a[1..], b);
    }
  }

  lemma OneAnswer(heard: Log, id: int, v: Verdict)
    requires forall a :: a in heard ==> !a.Replied?
    ensures Answers(heard) == [] && Answers(heard + [Replied(id, v)]) == [id]
  {
    NoAnswer(heard);
    assert Answers([Replied(id, v)]) == [id];
    AnswersConcat(heard, [Replied(id, v)]);
  }

  lemma {:induction false} NoAnswer(heard: Log)
    requires forall a :: a in heard ==> !a.Replied?
    ensures Answers(heard) == []
  {
    if heard != [] { NoAnswer(heard[1..]); }
  }

  /** The run ended in a call made for this request: the implementation quit. */
  predicate CutShort(log: Log, last: Input) {
    last.frame.Frame? && last.effect.Quits? && log != [] && Serves(last.frame.kind, log[|log| - 1])
  }

  /** The request at which a run ends early, and the exit code that follows. */
  ghost predicate Ends(r: Run, last: Input, answered: bool) {
    if answered then
      && r.code == EXIT_OK && last.frame.Frame? && last.frame.kind == Unload
      && r.log != [] && r.log[|r.log| - 1] == Replied(RequestId(last.frame.id), Granted)
    else if last.frame.Garbled? then r.code == EXIT_PROTOCOL_ERROR
    else if CutShort(r.log, last) then r.code == last.effect.code
    else r.code == EXIT_INTERNAL_ERROR && !last.writable
  }

  /** The first `n` requests are answered; either these are all there are, or the last of them
      or the one after them ended the run. */
  ghost predicate Finishes(r: Run, inputs: seq<Input>, n: nat, first: nat)
    requires n <= |inputs|
  {
    || (n == |inputs| && r.code == EXIT_OK)
    || (n < |inputs| && Ends(r, inputs[n], false))
    || (first < n && Ends(r, inputs[n - 1], true))
  }

  lemma FinishesLater(done: Log, r: Run, inputs: seq<Input>, n: nat)
    requires inputs != [] && n <= |inputs[1..]| && Finishes(r, inputs[1..], n, 0)
    requires done != [] && done[|done| - 1].Replied?
    ensures Finishes(Prepend(done, r), inputs, n + 1, 1)
  {
    var all := Prepend(done, r);
    assert all.log[|all.log| - 1] == if r.log != [] then r.log[|r.log| - 1] else done[|done| - 1];
    if n < |inputs[1..]| { assert inputs[1..][n] == inputs[n + 1]; }
    if 0 < n { assert inputs[1..][n - 1] == inputs[n]; }
  }

  lemma IdsNext(inputs: seq<Input>, n: nat)
    requires inputs != [] && n <= |inputs[1..]| && inputs[0].frame.Frame?
    ensures Ids(inputs[..n + 1]) == [RequestId(inputs[0].frame.id)] + Ids(inputs[1..][..n])
  {
    assert inputs[..n + 1][1..] == inputs[1..][..n] && inputs[..n + 1][0] == inputs[0];
  }

  /** A request that ends the run before it is answered. */
  lemma Unanswered(heard: Log, calls: Log, last: Input, r: Run)
    requires last.frame.Frame? && Stops(calls, last).Some? && r == Run(heard + calls, Stops(calls, last).value)
    requires |heard| == 1 && heard[0].Received?
    requires calls == [] || (|calls| == 1 && Serves(last.frame.kind, calls[0]))
    ensures Ends(r, last, false)
  {
  }

  lemma OneCall(hasPrepare: bool, s: Status, kind: Kind, works: bool)
    ensures var calls := Handle(hasPrepare, s, kind, works).calls; calls == [] || (|calls| == 1 && Serves(kind, calls[0]))
  {
  }

  /** A request that ends the run. */
  lemma LastAnswer(hasPrepare: bool, s: Status, inputs: seq<Input>)
    requires inputs != [] && inputs[0].frame.Frame?
    requires var h := Handle(hasPrepare, s, inputs[0].frame.kind, inputs[0].effect.Works?);
             Stops(h.calls, inputs[0]).Some? || (inputs[0].frame.kind == Unload && h.verdict == Granted)
    ensures var r, h := Requests(hasPrepare, s, inputs), Handle(hasPrepare, s, inputs[0].frame.kind, inputs[0].effect.Works?);
            && Answers(r.log) == (if Stops(h.calls, inputs[0]).None? then [RequestId(inputs[0].frame.id)] else [])
            && Ends(r, inputs[0], Stops(h.calls, inputs[0]).None?)
  {
    var kind, id := inputs[0].frame.kind, RequestId(inputs[0].frame.id);
    var h := Handle(hasPrepare, s, kind, inputs[0].effect.Works?);
    OneAnswer([Received(kind, id)] + h.calls, id, h.verdict);
    OneCall(hasPrepare, s, kind, inputs[0].effect.Works?);
    if Stops(h.calls, inputs[0]).Some? {
      Unanswered([Received(kind, id)], h.calls, inputs[0], Requests(hasPrepare, s, inputs));
    }
  }

  /** A request after which the run goes on. */
  lemma NextAnswer(hasPrepare: bool, s: Status, inputs: seq<Input>) returns (done: Log)
    requires inputs != [] && inputs[0].frame.Frame?
    requires var h := Handle(hasPrepare, s, inputs[0].frame.kind, inputs[0].effect.Works?);
             Stops(h.calls, inputs[0]).None? && !(inputs[0].frame.kind == Unload && h.verdict == Granted)
    ensures done != [] && done[|done| - 1].Replied? && Answers(done) == [RequestId(inputs[0].frame.id)]
    ensures var h := Handle(hasPrepare, s, inputs[0].frame.kind, inputs[0].effect.Works?);
            Requests(hasPrepare, s, inputs) == Prepend(done, Requests(hasPrepare, h.status, inputs[1..]))
  {
    var kind, id := inputs[0].frame.kind, RequestId(inputs[0].frame.id);
    var h := Handle(hasPrepare, s, kind, inputs[0].effect.Works?);
    OneAnswer([Received(kind, id)] + h.calls, id, h.verdict);
    done := [Received(kind, id)] + h.calls + [Replied(id, h.verdict)];
  }

  /** Of the requests after the handshake, the first `n` are answered, in order, each once and
      with its own id. */
  lemma {:induction false} AnsweredInOrder(hasPrepare: bool, s: Status, inputs: seq<Input>) returns (n: nat)
    ensures n <= |inputs| && Answers(Requests(hasPrepare, s, inputs).log) == Ids(inputs[..n])
    ensures Finishes(Requests(hasPrepare, s, inputs), inputs, n, 0)
    decreases inputs
  {
    n := 0;
    if inputs != [] && inputs[0].frame.Frame? {
      var h := Handle(hasPrepare, s, inputs[0].frame.kind, inputs[0].effect.Works?);
      IdsNext(inputs, 0);
      if Stops(h.calls, inputs[0]).Some? || (inputs[0].frame.kind == Unload && h.verdict == Granted) {
        LastAnswer(hasPrepare, s, inputs);
        n := if Stops(h.calls, inputs[0]).None? then 1 else 0;
      } else {
        var done := NextAnswer(hasPrepare, s, inputs);
        var rest := Requests(hasPrepare, h.status, inputs[1..]);
        n := AnsweredInOrder(hasPrepare, h.status, inputs[1..]);
        AnswersConcat(done, rest.log);
        FinishesLater(done, rest, inputs, n);
        IdsNext(inputs, n);
        n := n + 1;
      }
    }
  }

  /** The first frame of a run is answered with an error. */
  ghost predicate HandshakeRefused(first: Input) {
    && first.frame.Frame?
    && var g := Greeting(first.frame.kind, first.effect.Works?);
       Stops(g.0, first).None? && g.1 != Granted
  }

  /** The same for whole runs. The first frame decides: if it is missing, or answered with an
      error, the exit code is 1. Otherwise the worker outlives every exception of the
      implementation and stops only at end of input or for a successful unload (exit code 0),
      at bytes that are no frame (2), when an answer cannot be written (3), or when the
      implementation quits the process, with the code that it chose. */
  lemma EveryRequestIsAnswered(hasPrepare: bool, inputs: seq<Input>) returns (n: nat)
    ensures n <= |inputs| && Answers(Session(hasPrepare, inputs).log) == Ids(inputs[..n])
    ensures var r := Session(hasPrepare, inputs);
            if inputs == [] || HandshakeRefused(inputs[0])
            then r.code == EXIT_HANDSHAKE_FAILED && n == Min(1, |inputs|)
            else Finishes(r, inputs, n, 1)
  {
    n := 0;
    if inputs != [] && inputs[0].frame.Frame? {
      var input := inputs[0];
      var id := RequestId(input.frame.id);
      var g := Greeting(input.frame.kind, input.effect.Works?);
      var heard := [Received(input.frame.kind, id)] + g.0;
      var done := heard + [Replied(id, g.1)];
      OneAnswer(heard, id, g.1);
      if Stops(g.0, input).None? {
        if g.1 == Granted {
          var rest := Requests(hasPrepare, Initial(), inputs[1..]);
          n := AnsweredInOrder(hasPrepare, Initial(), inputs[1..]);
          AnswersConcat(done, rest.log);
          FinishesLater(done, rest, inputs, n);
        }
        IdsNext(inputs, n);
        n := n + 1;
      }
    }
  }

  // --- what is done is done for the request at hand ---

  /** How many requests have been received. */
  function Turns(log: Log): nat {
    if log == [] then 0 else Turns(log[..|log| - 1]) + if log[|log| - 1].Received? then 1 else 0
  }

  lemma {:induction false} TurnsConcat(a: Log, b: Log)
    ensures Turns(a + b) == Turns(a) + Turns(b)
  {
    if b == [] {
      assert a + b == a;
    } else {
      assert (a + b)[..|a + b| - 1] == a + b[..|b| - 1];
      TurnsConcat(a, b[..|b| - 1]);
    }
  }

  predicate IsCall(a: Act) {
    !a.Received? && !a.Replied?
  }

  /** What the worker may do about a request: take it in, make the call it asks for, which ends
      as it ends, and answer it, if the answer can be written. */
  predicate DoneFor(a: Act, i: Input) {
    && i.frame.Frame?
    && match a
       case Received(kind, id) => kind == i.frame.kind && id == RequestId(i.frame.id)
       case Replied(id, _) => id == RequestId(i.frame.id) && i.writable
       case _ => Serves(i.frame.kind, a) && a.ok == i.effect.Works?
  }

  /** A call that quits is the last thing done, and so is the answer that grants an unload. */
  predicate MayGoOn(a: Act, i: Input) {
    && (IsCall(a) ==> !i.effect.Quits?)
    && !(a.Replied? && a.verdict == Granted && i.frame.Frame? && i.frame.kind == Unload)
  }

  predicate FollowsAt(log: Log, inputs: seq<Input>, j: nat)
    requires j < |log|
  {
    var k := Turns(log[..j + 1]);
    0 < k <= |inputs| && DoneFor(log[j], inputs[k - 1]) && (j < |log| - 1 ==> MayGoOn(log[j], inputs[k - 1]))
  }

  /** Everything in the log is done for the request received last. */
  ghost predicate Follows(log: Log, inputs: seq<Input>) {
    forall j: nat :: j < |log| ==> FollowsAt(log, inputs, j)
  }

  lemma {:induction false} FirstTurn(log: Log, j: nat)
    requires j < |log| && log[0].Received? && (forall i :: 1 <= i < |log| ==> !log[i].Received?)
    ensures Turns(log[..j + 1]) == 1
  {
    if j == 0 {
      assert log[..1][..0] == [];
    } else {
      assert log[..j + 1][..j] == log[..j];
      FirstTurn(log, j - 1);
    }
  }

  /** The log of one request. */
  lemma OneTurn(log: Log, input: Input)
    requires log != [] && log[0].Received? && (forall j :: 1 <= j < |log| ==> !log[j].Received?)
    requires forall j :: 0 <= j < |log| ==> DoneFor(log[j], input) && (j < |log| - 1 ==> MayGoOn(log[j], input))
    ensures Follows(log, [input]) && Turns(log) == 1
  {
    forall j: nat | j < |log| ensures FollowsAt(log, [input], j) { FirstTurn(log, j); }
    FirstTurn(log, |log| - 1);
    assert log[..|log|] == log;
  }

  lemma FollowsAhead(log: Log, rest: Log, inputs: seq<Input>, i: nat)
    requires inputs != [] && Turns(log) == 1 && i < |rest| && FollowsAt(rest, inputs[1..], i)
    ensures FollowsAt(log + rest, inputs, |log| + i)
  {
    var j := |log| + i;
    var k := Turns(rest[..i + 1]);
    assert (log + rest)[..j + 1] == log + rest[..i + 1];
    TurnsConcat(log, rest[..i + 1]);
    assert inputs[1..][k - 1] == inputs[k] && (log + rest)[j] == rest[i];
  }

  lemma FollowsStill(log: Log, rest: Log, inputs: seq<Input>, j: nat)
    requires inputs != [] && Turns(log) == 1 && j < |log| && FollowsAt(log, inputs[..1], j)
    requires MayGoOn(log[|log| - 1], inputs[0])
    ensures FollowsAt(log + rest, inputs, j)
  {
    assert (log + rest)[..j + 1] == log[..j + 1] && (log + rest)[j] == log[j];
    assert inputs[..1][0] == inputs[0];
  }

  lemma TurnsAhead(log: Log, rest: Log, inputs: seq<Input>)
    requires inputs != [] && Follows(log, inputs[..1]) && Turns(log) == 1 && Follows(rest, inputs[1..])
    requires log != [] && MayGoOn(log[|log| - 1], inputs[0])
    ensures Follows(log + rest, inputs)
  {
    forall j: nat | j < |log + rest| ensures FollowsAt(log + rest, inputs, j) {
      if j < |log| {
        FollowsStill(log, rest, inputs, j);
      } else {
        FollowsAhead(log, rest, inputs, j - |log|);
      }
    }
  }

  /** What is logged for one request. */
  lemma HandledTurn(input: Input, calls: Log, v: Verdict)
    requires input.frame.Frame?
    requires calls == [] || (|calls| == 1 && Serves(input.frame.kind, calls[0]) && IsCall(calls[0]) && calls[0].ok == input.effect.Works?)
    ensures var heard := [Received(input.frame.kind, RequestId(input.frame.id))] + calls;
            var done := heard + [Replied(RequestId(input.frame.id), v)];
            && Follows(heard, [input]) && Turns(heard) == 1
            && (Stops(calls, input).None? ==> Follows(done, [input]) && Turns(done) == 1)
  {
    var heard := [Received(input.frame.kind, RequestId(input.frame.id))] + calls;
    OneTurn(heard, input);
    if Stops(calls, input).None? { OneTurn(heard + [Replied(RequestId(input.frame.id), v)], input); }
  }

  lemma CallWorks(hasPrepare: bool, s: Status, kind: Kind, works: bool)
    ensures var calls := Handle(hasPrepare, s, kind, works).calls;
            calls == [] || (|calls| == 1 && Serves(kind, calls[0]) && IsCall(calls[0]) && calls[0].ok == works)
  {
  }

  lemma {:induction false} RequestsFollow(hasPrepare: bool, s: Status, inputs: seq<Input>)
    ensures Follows(Requests(hasPrepare, s, inputs).log, inputs)
    decreases inputs
  {
    if inputs != [] && inputs[0].frame.Frame? {
      var input := inputs[0];
      var h := Handle(hasPrepare, s, input.frame.kind, input.effect.Works?);
      CallWorks(hasPrepare, s, input.frame.kind, input.effect.Works?);
      HandledTurn(input, h.calls, h.verdict);
      assert inputs[..1] == [input];
      var heard := [Received(input.frame.kind, RequestId(input.frame.id))] + h.calls;
      var done := heard + [Replied(RequestId(input.frame.id), h.verdict)];
      if Stops(h.calls, input).Some? {
        FollowsLonger(heard, [input], inputs);
      } else if input.frame.kind == Unload && h.verdict == Granted {
        FollowsLonger(done, [input], inputs);
      } else {
        RequestsFollow(hasPrepare, h.status, inputs[1..]);
        TurnsAhead(done, Requests(hasPrepare, h.status, inputs[1..]).log, inputs);
      }
    }
  }

  lemma FollowsLonger(log: Log, a: seq<Input>, inputs: seq<Input>)
    requires a <= inputs && Follows(log, a)
    ensures Follows(log, inputs)
  {
    forall j: nat | j < |log| ensures FollowsAt(log, inputs, j) { assert FollowsAt(log, a, j); }
  }

  /** Whatever comes in, everything the worker does is done for the request received last: the
      call it asks for, with the outcome it has, and an answer under its id. Nothing is answered
      that cannot be, and nothing follows a call that quits or a granted unload. */
  lemma EveryActIsForItsRequest(hasPrepare: bool, inputs: seq<Input>)
    ensures Follows(Session(hasPrepare, inputs).log, inputs)
  {
    if inputs != [] && inputs[0].frame.Frame? {
      var input := inputs[0];
      var g := Greeting(input.frame.kind, input.effect.Works?);
      HandledTurn(input, g.0, g.1);
      assert inputs[..1] == [input];
      var heard := [Received(input.frame.kind, RequestId(input.frame.id))] + g.0;
      var done := heard + [Replied(RequestId(input.frame.id), g.1)];
      if Stops(g.0, input).Some? {
        FollowsLonger(heard, [input], inputs);
      } else if g.1 != Granted {
        FollowsLonger(done, [input], inputs);
      } else {
        RequestsFollow(hasPrepare, Initial(), inputs[1..]);
        TurnsAhead(done, Requests(hasPrepare, Initial(), inputs[1..]).log, inputs);
      }
    }
  }

  // --- which handshakes are accepted ---

  /** The class is looked for exactly when the first frame is a handshake of version 2. Any other
      frame is refused, for the reason it gives, and ends the run with code 1. A handshake of
      version 2 is granted, and requests are read, exactly when the class is found. */
  lemma HandshakeDecides(hasPrepare: bool, inputs: seq<Input>)
    requires inputs != [] && inputs[0].frame.Frame?
    ensures var r, i := Session(hasPrepare, inputs), inputs[0];
            var got := Received(i.frame.kind, RequestId(i.frame.id));
            if i.frame.kind != Handshake(2) then
              if i.writable
              then r == Run([got, Replied(got.id, Refused(if i.frame.kind.Handshake? then WrongVersion else NotAHandshake))], 1)
              else r == Run([got], 3)
            else match i.effect
              case Quits(code) => r == Run([got, Located(false)], code)
              case Raises =>
                r == if i.writable then Run([got, Located(false), Replied(got.id, Refused(Raised))], 1)
                     else Run([got, Located(false)], 3)
              case Works =>
                if i.writable then [got, Located(true), Replied(got.id, Granted)] <= r.log else r == Run([got, Located(true)], 3)
    ensures HandshakeRefused(inputs[0]) <==>
              inputs[0].writable && (inputs[0].frame.kind != Handshake(2) || inputs[0].effect.Raises?)
  {
  }

  /** Only such a handshake is followed by a look for the class, and nothing else ever is. */
  lemma LocatedOnce(hasPrepare: bool, inputs: seq<Input>, j: nat)
    requires j < |Session(hasPrepare, inputs).log| && Session(hasPrepare, inputs).log[j].Located?
    ensures j == 1 && inputs != [] && inputs[0].frame.Frame? && inputs[0].frame.kind == Handshake(2)
  {
    var log := Session(hasPrepare, inputs).log;
    EveryRunIsInOrder(hasPrepare, inputs);
    assert Allowed(hasPrepare, log[..j], log[j]);
    HandshakeDecides(hasPrepare, inputs);
  }
}
