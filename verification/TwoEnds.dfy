/**
 * The startup handshake between two ends on reliable channels, in every interleaving of their steps. What an end
 * does with a handshake is OnStartupHandshake, Confirm and OnRestart of Session.
 */
module TwoEnds {
  import opened Bytes
  import opened Frames
  import opened Session

  /** How far a call of secil_startup has come; Running means that secil_receive is being called. */
  datatype Phase =
    | Idle
    | Waiting
    | Answering(answers: seq<Handshake>)
    | Confirming
    | Running
    | Failed(error: Error)

  /**
   * One end: the arguments of its startup, its state, all handshakes it has sent, and how many of those that the
   * other end sent it has taken. The rest of what the other end sent is in the channel.
   */
  datatype Node = Node(mode: nat, version: bytes, strict: bool, phase: Phase, e: End, sent: seq<Handshake>, got: nat)

  datatype System = System(a: Node, b: Node)

  function Request(x: Node): Handshake {
    Handshake(x.mode, true, x.version)
  }

  function Ack(x: Node): Handshake {
    Handshake(x.mode, false, x.version)
  }

  // ---- steps -----------------------------------------------------------------------------

  /** secil_startup sends its request. */
  predicate Start(x: Node, x': Node) {
    x.phase.Idle? && x' == x.(phase := Waiting, sent := x.sent + [Request(x)])
  }

  /** secil_receive_handshake takes the next handshake. */
  predicate Take(x: Node, y: Node, x': Node) {
    && x.phase.Waiting? && x.got < |y.sent|
    && var r := OnStartupHandshake(x.e, x.version, x.mode, y.sent[x.got]);
      x' == x.(e := r.e, got := x.got + 1, phase := if r.error == OK then Answering(r.answers) else Failed(r.error))
  }

  /** It sends the answer, if one was asked for. */
  predicate Answer(x: Node, x': Node) {
    x.phase.Answering? && x' == x.(phase := Confirming, sent := x.sent + x.phase.answers)
  }

  /** secil_startup compares the versions, confirms the mode and notifies the application. */
  predicate Finish(x: Node, x': Node) {
    && x.phase.Confirming?
    && var (error, e) := Confirm(x.e, x.version, x.mode, x.strict);
      x' == x.(e := e, phase := if error == OK then Running else Failed(error))
  }

  /** secil_receive takes a handshake while the end is up. */
  predicate Restarted(x: Node, y: Node, x': Node) {
    && x.phase.Running? && x.got < |y.sent|
    && var r := OnRestart(x.e, x.version, y.sent[x.got]);
      x' == x.(e := r.e, got := x.got + 1, sent := x.sent + r.answers)
  }

  predicate NodeStep(x: Node, y: Node, x': Node) {
    Start(x, x') || Take(x, y, x') || Answer(x, x') || Finish(x, x') || Restarted(x, y, x')
  }

  predicate Step(s: System, s': System) {
    || (NodeStep(s.a, s.b, s'.a) && s'.b == s.b)
    || (NodeStep(s.b, s.a, s'.b) && s'.a == s.a)
  }

  /** The end can take a step. */
  predicate Enabled(x: Node, y: Node) {
    x.phase.Idle? || x.phase.Answering? || x.phase.Confirming? || ((x.phase.Waiting? || x.phase.Running?) && x.got < |y.sent|)
  }

  lemma EnabledIff(x: Node, y: Node)
    ensures Enabled(x, y) <==> exists x' :: NodeStep(x, y, x')
  {
    if Enabled(x, y) {
      var r := if x.got < |y.sent| then OnStartupHandshake(x.e, x.version, x.mode, y.sent[x.got]) else Reaction(OK, x.e, []);
      var q := if x.got < |y.sent| then OnRestart(x.e, x.version, y.sent[x.got]) else Reaction(OK, x.e, []);
      var c := Confirm(x.e, x.version, x.mode, x.strict);
      var x' := match x.phase
        case Idle => x.(phase := Waiting, sent := x.sent + [Request(x)])
        case Waiting => x.(e := r.e, got := x.got + 1, phase := if r.error == OK then Answering(r.answers) else Failed(r.error))
        case Answering(answers) => x.(phase := Confirming, sent := x.sent + answers)
        case Confirming => x.(e := c.1, phase := if c.0 == OK then Running else Failed(c.0))
        case Running => x.(e := q.e, got := x.got + 1, sent := x.sent + q.answers)
        case Failed(_) => x;
      assert NodeStep(x, y, x');
    }
  }

  predicate Fresh(x: Node) {
    && (x.mode == CLIENT || x.mode == SERVER) && IsVersion(x.version)
    && x.phase.Idle? && x.e == End(UNINITIALIZED, [], []) && x.sent == [] && x.got == 0
  }

  /** A run: both ends fresh, then any steps in any order. */
  predicate IsRun(run: seq<System>) {
    && |run| > 0 && Fresh(run[0].a) && Fresh(run[0].b)
    && forall i :: 0 <= i < |run| - 1 ==> Step(run[i], run[i + 1])
  }

  // ---- opposite modes ---------------------------------------------------------------------

  /** The version check refuses the other end. */
  predicate Mismatch(x: Node, y: Node) {
    x.strict && x.version != y.version
  }

  /** Where x is, what it has sent and taken, and what it knows of y. */
  predicate NodeInvariant(x: Node, y: Node) {
    && (x.mode == CLIENT || x.mode == SERVER) && IsVersion(x.version) && y.mode == OtherMode(x.mode)
    && x.got <= |y.sent|
    && match x.phase
       case Idle => x.sent == [] && x.got == 0 && x.e == End(UNINITIALIZED, [], [])
       case Waiting => x.sent == [Request(x)] && x.got == 0 && x.e == End(UNINITIALIZED, [], [])
       case Answering(answers) =>
         x.sent == [Request(x)] && answers == [Ack(x)] && x.got == 1 && x.e == End(UNINITIALIZED, y.version, [])
       case Confirming => x.sent == [Request(x), Ack(x)] && x.got == 1 && x.e == End(UNINITIALIZED, y.version, [])
       case Running =>
         && x.sent == [Request(x), Ack(x)] && 1 <= x.got <= 2 && !Mismatch(x, y)
         && x.e == End(x.mode, y.version, [Connection(y.mode, y.version)])
       case Failed(error) =>
         && error == VERSION_MISMATCH && Mismatch(x, y)
         && x.sent == [Request(x), Ack(x)] && x.got == 1 && x.e == End(UNINITIALIZED, y.version, [])
  }

  predicate Invariant(s: System) {
    NodeInvariant(s.a, s.b) && NodeInvariant(s.b, s.a)
  }

  lemma StepKeepsNode(x: Node, y: Node, x': Node)
    requires NodeInvariant(x, y) && NodeInvariant(y, x) && NodeStep(x, y, x')
    ensures NodeInvariant(x', y) && NodeInvariant(y, x')
    ensures x'.mode == x.mode && x'.version == x.version && x'.strict == x.strict
    ensures Left(x') < Left(x)
  {
  }

  /** How many steps an end can still take, at most. */
  function Left(x: Node): nat {
    match x.phase
    case Idle => 5
    case Waiting => 4
    case Answering(_) => 3
    case Confirming => 2
    case Running => if x.got <= 1 then 1 else 0
    case Failed(_) => 0
  }

  lemma FreshInvariant(x: Node, y: Node)
    requires Fresh(x) && Fresh(y) && y.mode == OtherMode(x.mode)
    ensures NodeInvariant(x, y) && Left(x) == 5
  {
  }

  lemma {:induction false} RunsKeepInvariant(run: seq<System>, i: nat)
    requires IsRun(run) && i < |run| && run[0].b.mode == OtherMode(run[0].a.mode)
    ensures Invariant(run[i]) && Left(run[i].a) + Left(run[i].b) + i <= 10
    ensures run[i].a.mode == run[0].a.mode && run[i].a.version == run[0].a.version && run[i].a.strict == run[0].a.strict
    ensures run[i].b.mode == run[0].b.mode && run[i].b.version == run[0].b.version && run[i].b.strict == run[0].b.strict
    decreases i
  {
    hide NodeInvariant, NodeStep, Left;
    if i == 0 {
      FreshInvariant(run[0].a, run[0].b);
      FreshInvariant(run[0].b, run[0].a);
    } else {
      RunsKeepInvariant(run, i - 1);
      var s, s' := run[i - 1], run[i - 1 + 1];
      assert Step(s, s');
      if s'.b == s.b && NodeStep(s.a, s.b, s'.a) {
        StepKeepsNode(s.a, s.b, s'.a);
      } else {
        StepKeepsNode(s.b, s.a, s'.b);
      }
    }
  }

  /** The end is up, knows the version of the other, has told the application once and has nothing left to read. */
  predicate Up(x: Node, y: Node) {
    && x.phase.Running? && x.got == |y.sent|
    && x.e == End(x.mode, y.version, [Connection(y.mode, y.version)])
  }

  /**
   * Two ends started in opposite modes with the same version: no run has more than ten steps, none fails, and when
   * no step is left, exactly four handshakes have been sent, both ends are up and both channels are empty.
   */
  lemma OppositeModesConnect(run: seq<System>)
    requires IsRun(run)
    requires run[0].b.mode == OtherMode(run[0].a.mode) && run[0].a.version == run[0].b.version
    ensures |run| <= 11
    ensures forall i :: 0 <= i < |run| ==> !run[i].a.phase.Failed? && !run[i].b.phase.Failed? && |run[i].a.sent| + |run[i].b.sent| <= 4
    ensures var s := run[|run| - 1];
      (!Enabled(s.a, s.b) && !Enabled(s.b, s.a)) <==> (Up(s.a, s.b) && Up(s.b, s.a) && |s.a.sent| + |s.b.sent| == 4)
  {
    forall i | 0 <= i < |run|
      ensures Invariant(run[i]) && run[i].a.version == run[i].b.version && i <= 10
    {
      RunsKeepInvariant(run, i);
    }
    assert Invariant(run[|run| - 1]);
  }

  /** With different versions, an end goes up exactly if it was told to ignore that; otherwise it reports a mismatch. */
  lemma DifferentVersions(run: seq<System>)
    requires IsRun(run) && run[0].b.mode == OtherMode(run[0].a.mode) && run[0].a.version != run[0].b.version
    ensures |run| <= 11
    ensures var s := run[|run| - 1]; !Enabled(s.a, s.b) && !Enabled(s.b, s.a) ==>
      && (if run[0].a.strict then s.a.phase == Failed(VERSION_MISMATCH) && s.a.e.mode == UNINITIALIZED else Up(s.a, s.b))
      && (if run[0].b.strict then s.b.phase == Failed(VERSION_MISMATCH) && s.b.e.mode == UNINITIALIZED else Up(s.b, s.a))
      && |s.a.sent| + |s.b.sent| == 4
  {
    RunsKeepInvariant(run, |run| - 1);
  }

  // ---- equal modes -----------------------------------------------------------------------------

  /** An end whose other end has the same mode: it never learns anything. */
  predicate Alone(x: Node, y: Node) {
    && y.mode == x.mode && (x.mode == CLIENT || x.mode == SERVER)
    && x.e == End(UNINITIALIZED, [], [])
    && match x.phase
       case Idle => x.sent == [] && x.got == 0
       case Waiting => x.sent == [Request(x)] && x.got == 0
       case Failed(error) => error == STARTUP_FAILED && x.sent == [Request(x)] && x.got == 1
       case _ => false
  }

  lemma {:induction false} RunsStayAlone(run: seq<System>, i: nat)
    requires IsRun(run) && i < |run| && run[0].a.mode == run[0].b.mode
    ensures Alone(run[i].a, run[i].b) && Alone(run[i].b, run[i].a)
    ensures Left(run[i].a) + Left(run[i].b) + i <= 10
    decreases i
  {
    if i > 0 {
      RunsStayAlone(run, i - 1);
      var s, s' := run[i - 1], run[i - 1 + 1];
      assert Step(s, s');
      if s'.b == s.b && NodeStep(s.a, s.b, s'.a) {
        StepStaysAlone(s.a, s.b, s'.a);
      } else {
        StepStaysAlone(s.b, s.a, s'.b);
      }
    }
  }

  lemma StepStaysAlone(x: Node, y: Node, x': Node)
    requires Alone(x, y) && Alone(y, x) && NodeStep(x, y, x')
    ensures Alone(x', y) && Alone(y, x') && Left(x') < Left(x)
  {
  }

  /** Two ends started in the same mode never set a mode or a remote version, never notify, and both end in STARTUP_FAILED. */
  lemma SameModeNeverConnects(run: seq<System>)
    requires IsRun(run) && run[0].a.mode == run[0].b.mode
    ensures |run| <= 11
    ensures forall i :: 0 <= i < |run| ==> run[i].a.e == End(UNINITIALIZED, [], []) && run[i].b.e == End(UNINITIALIZED, [], [])
    ensures var s := run[|run| - 1];
      (!Enabled(s.a, s.b) && !Enabled(s.b, s.a)) <==> (s.a.phase == s.b.phase == Failed(STARTUP_FAILED))
  {
    forall i | 0 <= i < |run|
      ensures Alone(run[i].a, run[i].b) && Alone(run[i].b, run[i].a) && i <= 10
    {
      RunsStayAlone(run, i);
    }
    assert Alone(run[|run| - 1].a, run[|run| - 1].b);
  }
}
