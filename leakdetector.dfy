/** hpy/debug/leakdetector.py: the debug-mode leak detector session and the
    error it raises.

    A `LeakDetector` is idle until `Start` takes a fresh generation from the
    native `_debug` module; `Stop` then asks that module for the handles still
    open since that generation and raises `HPyLeakError` when there are any.
    `HPyLeakError.Str` renders the report: a count line with the plural `s`
    dropped for exactly one leak, then one indented line per leak. */
module HPyDebug {
  import opened PyText
  import opened NativeDebug

  // ---------------------------------------------------------------------------
  // The report text of HPyLeakError
  // ---------------------------------------------------------------------------

  const Indent := "    "

  /** The first line of the report for n leaks: "<n> unclosed handle<s>:". */
  function Header(n: nat): string
  {
    NatToString(n) + " unclosed handle" + (if n != 1 then "s" else "") + ":"
  }

  /** The report line of one leak: its repr, indented by four spaces. */
  function LeakLine<L>(leak: L, repr: L -> string): string
  {
    Indent + repr(leak)
  }

  /** The report lines of the leaks, in the order the loop appends them. */
  function LeakLines<L>(leaks: seq<L>, repr: L -> string): seq<string>
    decreases |leaks|
  {
    if leaks == [] then []
    else LeakLines(leaks[..|leaks| - 1], repr) + [LeakLine(leaks[|leaks| - 1], repr)]
  }

  /** The whole report: the header and the leak lines joined by newlines. */
  function Message<L>(leaks: seq<L>, repr: L -> string): string
  {
    Join([Header(|leaks|)] + LeakLines(leaks, repr), "\n")
  }

  /** The header starts with the decimal count, which reads back as n, and
      ends in "handle:" for exactly one leak and "handles:" otherwise; it is a
      single line. */
  lemma HeaderShape(n: nat)
    ensures var h, k := Header(n), |NatToString(n)|;
      && k < |h|
      && AllDigits(h[..k])
      && ParseDecimal(h[..k]) == n
      && (n == 1 ==> h[k..] == " unclosed handle:")
      && (n != 1 ==> h[k..] == " unclosed handles:")
      && '\n' !in h
  {
    var h, d := Header(n), NatToString(n);
    assert h[..|d|] == d;
    ParseNatToString(n);
    assert forall i :: 0 <= i < |d| ==> h[i] == d[i];
  }

  /** There is one leak line per leak, and line i belongs to leak i. */
  lemma {:induction false} LeakLinesAt<L>(leaks: seq<L>, repr: L -> string)
    ensures |LeakLines(leaks, repr)| == |leaks|
    ensures forall i :: 0 <= i < |leaks| ==> LeakLines(leaks, repr)[i] == Indent + repr(leaks[i])
    decreases |leaks|
  {
    if leaks != [] {
      var init := leaks[..|leaks| - 1];
      LeakLinesAt(init, repr);
      assert forall i :: 0 <= i < |init| ==> init[i] == leaks[i];
    }
  }

  /** Read line by line, the report has n + 1 lines: the header, then each
      leak's indented repr in list order. This needs each repr to be a single
      line. */
  lemma MessageLines<L>(leaks: seq<L>, repr: L -> string)
    requires forall i :: 0 <= i < |leaks| ==> '\n' !in repr(leaks[i])
    ensures var lines := Split(Message(leaks, repr), '\n');
      && |lines| == |leaks| + 1
      && lines[0] == Header(|leaks|)
      && forall i :: 0 <= i < |leaks| ==> lines[i + 1] == Indent + repr(leaks[i])
  {
    var parts := [Header(|leaks|)] + LeakLines(leaks, repr);
    LeakLinesAt(leaks, repr);
    HeaderShape(|leaks|);
    assert forall i :: 0 <= i < |parts| ==> '\n' !in parts[i] by {
      forall i | 0 <= i < |parts| ensures '\n' !in parts[i] {
        if i > 0 {
          assert parts[i] == Indent + repr(leaks[i - 1]);
        }
      }
    }
    SplitJoin(parts, '\n');
  }

  /** With no leaks the report is just the count line. */
  lemma EmptyMessage<L>(repr: L -> string)
    ensures Message([], repr) == "0 unclosed handles:"
  {
  }

  // ---------------------------------------------------------------------------
  // HPyLeakError
  // ---------------------------------------------------------------------------

  /** The exception raised by `LeakDetector.Stop`, carrying the leaked handles. */
  class HPyLeakError<L> {
    const leaks: seq<L>

    constructor (leaks: seq<L>)
      ensures this.leaks == leaks
    {
      this.leaks := leaks;
    }

    /** `__str__`: builds the list of lines with a loop and joins it. */
    method Str(repr: L -> string) returns (s: string)
      ensures s == Message(leaks, repr)
    {
      var lines: seq<string> := [];
      var n := |leaks|;
      var plural := if n != 1 then "s" else "";
      lines := lines + [NatToString(n) + " unclosed handle" + plural + ":"];
      for i := 0 to |leaks|
        invariant lines == [Header(n)] + LeakLines(leaks[..i], repr)
      {
        assert leaks[..i + 1][..i] == leaks[..i];
        lines := lines + [Indent + repr(leaks[i])];
      }
      assert leaks[..|leaks|] == leaks;
      s := Join(lines, "\n");
    }
  }

  // ---------------------------------------------------------------------------
  // LeakDetector
  // ---------------------------------------------------------------------------

  const AlreadyStartedMessage := "LeakDetector already started"
  const NotStartedMessage := "LeakDetector not started yet"

  /** How a detector operation ends: normally, or by raising. */
  datatype Raised<L> =
    | Ok
    | ValueError(message: string)
    | LeakError(error: HPyLeakError<L>)

  /** What `stop()` does with the handles the query returned: nothing when
      there are none, otherwise raise `HPyLeakError` carrying exactly them. */
  ghost predicate Reports<L>(r: Raised<L>, leaks: seq<L>)
  {
    if leaks == [] then r == Ok else r.LeakError? && r.error.leaks == leaks
  }

  /** The detector's field together with the calls made to the native module. */
  datatype Snapshot<L> = Snapshot(generation: Option<int>, log: seq<Call<L>>)

  datatype Option<T> = None | Some(value: T)

  /** `start()` from s to s' with outcome r. */
  ghost predicate StartStep<L>(s: Snapshot<L>, s': Snapshot<L>, r: Raised<L>)
  {
    match s.generation
    case Some(_) =>
      r == ValueError(AlreadyStartedMessage) && s' == s
    case None =>
      && r == Ok
      && s'.generation.Some?
      && s'.log == s.log + [NewGenerationCall(s'.generation.value)]
  }

  /** `stop()` from s to s' with outcome r. */
  ghost predicate StopStep<L>(s: Snapshot<L>, s': Snapshot<L>, r: Raised<L>)
  {
    && s'.generation == s.generation
    && match s.generation
       case None =>
         r == ValueError(NotStartedMessage) && s'.log == s.log
       case Some(g) =>
         && |s'.log| == |s.log| + 1
         && s'.log[|s.log|].GetOpenHandlesCall?
         && s'.log == s.log + [GetOpenHandlesCall(g, s'.log[|s.log|].leaks)]
         && Reports(r, s'.log[|s.log|].leaks)
  }

  class LeakDetector {
    /** `None` while idle, the generation of the session once started. */
    var generation: Option<int>

    /** `__init__`: a new detector is idle. */
    constructor ()
      ensures generation == None
    {
      generation := None;
    }

    /** `start()`. */
    method Start<L>(debug: DebugModule<L>) returns (r: Raised<L>)
      requires debug.Valid()
      modifies this, debug
      ensures debug.Valid()
      ensures StartStep(Snapshot(old(generation), old(debug.log)), Snapshot(generation, debug.log), r)
    {
      if generation.Some? {
        return ValueError(AlreadyStartedMessage);
      }
      var g := debug.NewGeneration();
      generation := Some(g);
      r := Ok;
    }

    /** `stop()`. */
    method Stop<L>(debug: DebugModule<L>) returns (r: Raised<L>)
      requires debug.Valid()
      modifies debug
      ensures debug.Valid()
      ensures StopStep(Snapshot(old(generation), old(debug.log)), Snapshot(generation, debug.log), r)
      ensures r.LeakError? ==> fresh(r.error)
    {
      if generation.None? {
        return ValueError(NotStartedMessage);
      }
      var leaks := debug.GetOpenHandles(generation.value);
      if |leaks| != 0 {
        var error := new HPyLeakError(leaks);
        return LeakError(error);
      }
      r := Ok;
    }

    /** `__enter__`: starts the session and hands back this same detector. */
    method Enter<L>(debug: DebugModule<L>) returns (r: Raised<L>, self: LeakDetector)
      requires debug.Valid()
      modifies this, debug
      ensures debug.Valid()
      ensures self == this
      ensures StartStep(Snapshot(old(generation), old(debug.log)), Snapshot(generation, debug.log), r)
    {
      r := Start(debug);
      self := this;
    }

    /** `__exit__`: stops the session whatever exception information it is
        given, and never suppresses the exception (it returns a false value). */
    method Exit<L, T, V, B>(debug: DebugModule<L>, etype: T, evalue: V, tb: B)
      returns (r: Raised<L>, suppress: bool)
      requires debug.Valid()
      modifies debug
      ensures debug.Valid()
      ensures StopStep(Snapshot(old(generation), old(debug.log)), Snapshot(generation, debug.log), r)
      ensures r.LeakError? ==> fresh(r.error)
      ensures !suppress
    {
      r := Stop(debug);
      suppress := false;
    }
  }

  // ---------------------------------------------------------------------------
  // Sessions: any sequence of start() and stop() calls on one detector
  // ---------------------------------------------------------------------------

  datatype Op = Start | Stop

  ghost predicate Steps<L>(op: Op, s: Snapshot<L>, s': Snapshot<L>, r: Raised<L>)
  {
    match op
    case Start => StartStep(s, s', r)
    case Stop => StopStep(s, s', r)
  }

  /** states[i] is the snapshot before ops[i], states[i + 1] the one after it,
      and results[i] its outcome. */
  ghost predicate IsSession<L>(ops: seq<Op>, states: seq<Snapshot<L>>, results: seq<Raised<L>>)
  {
    && |states| == |ops| + 1
    && |results| == |ops|
    && forall i :: 0 <= i < |ops| ==> Steps(ops[i], states[i], states[i + 1], results[i])
  }

  /** Once started, a detector keeps its generation for good: stop() never
      resets it, every later start() raises "already started", and every later
      stop() queries the open handles of that same generation and never raises
      ValueError. */
  lemma {:induction false} StartedSession<L>(ops: seq<Op>, states: seq<Snapshot<L>>, results: seq<Raised<L>>)
    requires IsSession(ops, states, results)
    requires states[0].generation.Some?
    ensures forall i :: 0 <= i < |states| ==> states[i].generation == states[0].generation
    ensures forall i :: 0 <= i < |ops| && ops[i] == Start ==> results[i] == ValueError(AlreadyStartedMessage)
    ensures forall i :: 0 <= i < |ops| && ops[i] == Stop ==>
      && !results[i].ValueError?
      && |states[i + 1].log| == |states[i].log| + 1
      && states[i + 1].log[|states[i].log|].GetOpenHandlesCall?
      && states[i + 1].log[|states[i].log|].generation == states[0].generation.value
    decreases |ops|
  {
    if |ops| > 0 {
      var k := |ops| - 1;
      StartedSession(ops[..k], states[..k + 1], results[..k]);
      assert Steps(ops[k], states[k], states[k + 1], results[k]);
    }
  }

  /** A detector that is only ever stopped and never started stays idle,
      raises "not started yet" each time and never queries the native module. */
  lemma {:induction false} NeverStartedSession<L>(ops: seq<Op>, states: seq<Snapshot<L>>, results: seq<Raised<L>>)
    requires IsSession(ops, states, results)
    requires states[0].generation.None?
    requires forall i :: 0 <= i < |ops| ==> ops[i] == Stop
    ensures forall i :: 0 <= i < |states| ==> states[i] == states[0]
    ensures forall i :: 0 <= i < |results| ==> results[i] == ValueError(NotStartedMessage)
    decreases |ops|
  {
    if |ops| > 0 {
      var k := |ops| - 1;
      NeverStartedSession(ops[..k], states[..k + 1], results[..k]);
      assert Steps(ops[k], states[k], states[k + 1], results[k]);
    }
  }

  // ---------------------------------------------------------------------------
  // Client scenarios: what a caller can conclude from the contracts alone
  // ---------------------------------------------------------------------------

  /** Starting twice in a row: the second start raises "already started". */
  method StartTwice<L>(generationOracle: seq<Call<L>> -> int, handlesOracle: (seq<Call<L>>, int) -> seq<L>)
    returns (first: Raised<L>, second: Raised<L>)
    ensures first == Ok
    ensures second == ValueError(AlreadyStartedMessage)
  {
    var debug := new DebugModule(generationOracle, handlesOracle);
    var detector := new LeakDetector();
    first := detector.Start(debug);
    second := detector.Start(debug);
  }

  /** Stopping a detector that was never started raises "not started yet". */
  method StopUnstarted<L>(generationOracle: seq<Call<L>> -> int, handlesOracle: (seq<Call<L>>, int) -> seq<L>)
    returns (r: Raised<L>)
    ensures r == ValueError(NotStartedMessage)
  {
    var debug := new DebugModule(generationOracle, handlesOracle);
    var detector := new LeakDetector();
    r := detector.Stop(debug);
  }

  /** A session in which one handle stays open: leaving the scope raises
      HPyLeakError listing exactly that handle, reported as
      "1 unclosed handle:" followed by its indented repr. */
  method OneLeakSession<L>(generationOracle: seq<Call<L>> -> int, leak: L, repr: L -> string)
    returns (r: Raised<L>, report: string)
    ensures r.LeakError? && r.error.leaks == [leak]
    ensures report == "1 unclosed handle:\n    " + repr(leak)
  {
    var debug := new DebugModule(generationOracle, (calls: seq<Call<L>>, g: int) => [leak]);
    var detector := new LeakDetector();
    var entered, self := detector.Enter(debug);
    var suppress;
    r, suppress := self.Exit(debug, (), (), ());
    report := r.error.Str(repr);
    assert NatToString(1) == "1";
    assert LeakLines([leak], repr) == [Indent + repr(leak)];
  }

  /** A clean session returns normally and may be stopped again; a later
      start still raises "already started". */
  method CleanSession<L>(generationOracle: seq<Call<L>> -> int)
    returns (stop1: Raised<L>, stop2: Raised<L>, restart: Raised<L>)
    ensures stop1 == Ok && stop2 == Ok
    ensures restart == ValueError(AlreadyStartedMessage)
  {
    var debug := new DebugModule(generationOracle, (calls: seq<Call<L>>, g: int) => []);
    var detector := new LeakDetector();
    var started := detector.Start(debug);
    stop1 := detector.Stop(debug);
    stop2 := detector.Stop(debug);
    restart := detector.Start(debug);
  }
}
