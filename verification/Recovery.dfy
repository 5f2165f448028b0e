/**
 * How the two ends find together again after one of them was reset or a startup was begun anew, whatever was still
 * under way: the runs of TwoEnds, from states that a disturbance leaves behind.
 */
module Recovery {
  import opened Frames
  import opened Session
  import opened TwoEnds

  /** Steps in any order, from any state. */
  predicate IsSteps(run: seq<System>) {
    |run| > 0 && forall i :: 0 <= i < |run| - 1 ==> Step(run[i], run[i + 1])
  }

  // ---- one end is reset while the other is up -------------------------------------------

  /** a is up and b was reset and is about to start in the opposite mode; nothing is in the channels. */
  predicate PeerReset(s: System) {
    && (s.a.mode == CLIENT || s.a.mode == SERVER) && s.b.mode == OtherMode(s.a.mode) && IsVersion(s.b.version) && IsVersion(s.a.version)
    && s.a.phase.Running? && s.a.e.mode == s.a.mode && s.a.got == |s.b.sent|
    && s.b.phase.Idle? && s.b.e.mode == UNINITIALIZED && s.b.got == |s.a.sent|
  }

  /** The end and what it is told: one more notification, with the mode and the version of the other end. */
  function Connected(x: Node, y: Node): End {
    End(x.mode, y.version, x.e.connections + [Connection(y.mode, y.version)])
  }

  /** b asks, a takes that as a restart and answers, and b takes the answer, checks it and confirms. */
  function Stage(s: System, n: nat): System {
    var b1 := s.b.(phase := Waiting, sent := s.b.sent + [Request(s.b)]);
    var a2 := s.a.(e := Connected(s.a, s.b), got := s.a.got + 1, sent := s.a.sent + [Ack(s.a)]);
    var b3 := b1.(e := b1.e.(remoteVersion := s.a.version), got := s.b.got + 1, phase := Answering([]));
    if n == 0 then s
    else if n == 1 then System(s.a, b1)
    else if n == 2 then System(a2, b1)
    else if n == 3 then System(a2, b3)
    else if n == 4 then System(a2, b3.(phase := Confirming))
    else if Mismatch(s.b, s.a) then System(a2, b3.(phase := Failed(VERSION_MISMATCH)))
    else System(a2, b3.(e := Connected(s.b, s.a), phase := Running))
  }

  /** There is one step at a time, and none after the fifth. */
  lemma StageSteps(s: System, n: nat, s': System)
    requires PeerReset(s) && n <= 5 && Step(Stage(s, n), s')
    ensures n < 5 && s' == Stage(s, n + 1)
  {
    assert s.a.sent + [] == s.a.sent && s.b.sent + [Request(s.b)] + [] == s.b.sent + [Request(s.b)];
  }

  lemma {:induction false} StageAt(run: seq<System>, i: nat)
    requires IsSteps(run) && PeerReset(run[0]) && i < |run|
    ensures i <= 5 && run[i] == Stage(run[0], i)
    decreases i
  {
    hide Step, Stage, PeerReset;
    if i > 0 {
      StageAt(run, i - 1);
      assert Step(run[i - 1], run[i - 1 + 1]);
      StageSteps(run[0], i - 1, run[i]);
    } else {
      StageNone(run[0]);
    }
  }

  lemma StageNone(s: System)
    ensures Stage(s, 0) == s
  {
  }

  /**
   * Whatever the history of both, when one end is reset and started again: no run has more than five steps, and when
   * none is left, each end has sent one more handshake, the channels are empty, and each end has been notified once
   * more, with the other's mode and version; unless the new one insists on a version that the other does not have.
   */
  lemma PeerComesBack(run: seq<System>)
    requires IsSteps(run) && PeerReset(run[0])
    ensures |run| <= 6
    ensures var s, t := run[0], run[|run| - 1];
      !Enabled(t.a, t.b) && !Enabled(t.b, t.a) ==>
        && t.a.sent == s.a.sent + [Ack(s.a)] && t.b.sent == s.b.sent + [Request(s.b)]
        && t.a.got == |t.b.sent| && t.b.got == |t.a.sent|
        && t.a.phase == Running && t.a.e == Connected(s.a, s.b)
        && (if Mismatch(s.b, s.a) then t.b.phase == Failed(VERSION_MISMATCH) && t.b.e.mode == UNINITIALIZED && t.b.e.connections == s.b.e.connections
            else t.b.phase == Running && t.b.e == Connected(s.b, s.a))
    ensures var t := run[|run| - 1]; !Enabled(t.a, t.b) && !Enabled(t.b, t.a) <==> |run| == 6
  {
    StageAt(run, |run| - 1);
  }

  /** The two ends can be exchanged in every step, so it does not matter which of them was reset. */
  lemma Mirrored(s: System, s': System)
    ensures Step(s, s') <==> Step(System(s.b, s.a), System(s'.b, s'.a))
  {
    hide NodeStep;
  }

  // ---- any handshakes still under way ----------------------------------------------------

  /** What is still to be taken by x are handshakes that y wrote. */
  predicate Genuine(x: Node, y: Node) {
    x.got <= |y.sent| && forall k :: x.got <= k < |y.sent| ==> y.sent[k] == Request(y) || y.sent[k] == Ack(y)
  }

  /** A request of x that y has not taken yet. */
  predicate Asking(x: Node, y: Node) {
    exists k :: y.got <= k < |x.sent| && x.sent[k] == Request(x)
  }

  predicate Unread(x: Node, y: Node) {
    x.got < |y.sent|
  }

  /**
   * x may be anywhere in its startup or up, with any history and anything left over in its channel; but if it waits,
   * then for something that is there or will come, and what it was told of an earlier y is about to be replaced.
   */
  predicate Placed(x: Node, y: Node) {
    && (x.mode == CLIENT || x.mode == SERVER) && y.mode == OtherMode(x.mode) && IsVersion(x.version) && !Mismatch(x, y)
    && Genuine(x, y)
    && match x.phase
       case Idle => true
       case Waiting => Unread(x, y) || y.phase == Idle || y.phase == Answering([Ack(y)]) || Asking(x, y)
       case Answering(answers) => (answers == [] || answers == [Ack(x)]) && x.e.remoteVersion == y.version
       case Confirming => x.e.remoteVersion == y.version
       case Running => x.e.mode == x.mode && (x.e.remoteVersion == y.version || Unread(x, y) || y.phase == Idle)
       case Failed(_) => false
  }

  predicate BothPlaced(s: System) {
    Placed(s.a, s.b) && Placed(s.b, s.a)
  }

  /** How many of the handshakes from number k on ask for an answer. */
  function Requests(hs: seq<Handshake>, k: nat): nat
    requires k <= |hs|
    decreases |hs| - k
  {
    if k == |hs| then 0 else (if hs[k].needsAck then 1 else 0) + Requests(hs, k + 1)
  }

  lemma {:induction false} RequestsSnoc(hs: seq<Handshake>, k: nat, h: Handshake)
    requires k <= |hs|
    ensures Requests(hs + [h], k) == Requests(hs, k) + if h.needsAck then 1 else 0
    decreases |hs| - k
  {
    if k < |hs| {
      RequestsSnoc(hs, k + 1, h);
    } else {
      assert Requests(hs + [h], k + 1) == 0;
    }
  }

  /** What is left for x to do on its own account. */
  function Ahead(p: Phase): nat {
    match p
    case Idle => 5
    case Waiting => 2
    case Answering(answers) => 2 + |answers|
    case Confirming => 1
    case Running => 0
    case Failed(_) => 0
  }

  /** The steps that x will take, and those that taking its messages will cost. */
  function Effort(x: Node, y: Node): nat
    requires x.got <= |y.sent|
  {
    Ahead(x.phase) + (|y.sent| - x.got) + Requests(y.sent, x.got)
  }

  function TotalEffort(s: System): nat
    requires s.a.got <= |s.b.sent| && s.b.got <= |s.a.sent|
  {
    Effort(s.a, s.b) + Effort(s.b, s.a)
  }

  /** The handshakes that x is still going to send: its own request, and one answer for every request of y. */
  function Due(x: Node, y: Node): nat
    requires x.got <= |y.sent|
  {
    (if x.phase.Idle? then 1 else if x.phase.Answering? then |x.phase.answers| else 0)
    + Requests(y.sent, x.got) + if y.phase.Idle? then 1 else 0
  }

  /** Steps that read nothing. */
  lemma OwnStep(x: Node, y: Node, x': Node)
    requires Placed(x, y) && Placed(y, x) && (Start(x, x') || Answer(x, x') || Finish(x, x'))
    ensures Placed(x', y) && Placed(y, x')
    ensures Effort(x', y) + Effort(y, x') + 1 == Effort(x, y) + Effort(y, x)
    ensures |x'.sent| + Due(x', y) == |x.sent| + Due(x, y) && Due(y, x') == Due(y, x)
  {
    RequestsSnoc(x.sent, y.got, Request(x));
    RequestsSnoc(x.sent, y.got, Ack(x));
    assert x.sent + [] == x.sent;
    if Start(x, x') {
      assert x'.sent[|x.sent|] == Request(x);
    }
  }

  /** Steps that take a handshake. */
  lemma ReadingStep(x: Node, y: Node, x': Node)
    requires Placed(x, y) && Placed(y, x) && (Take(x, y, x') || Restarted(x, y, x'))
    ensures Placed(x', y) && Placed(y, x')
    ensures Effort(x', y) + Effort(y, x') + 1 == Effort(x, y) + Effort(y, x)
    ensures |x'.sent| + Due(x', y) == |x.sent| + Due(x, y) && Due(y, x') == Due(y, x)
  {
    var h := y.sent[x.got];
    assert h == Request(y) || h == Ack(y);
    RequestsSnoc(x.sent, y.got, Ack(x));
    assert x.sent + [] == x.sent;
  }

  lemma EndStep(x: Node, y: Node, x': Node)
    requires Placed(x, y) && Placed(y, x) && NodeStep(x, y, x')
    ensures Placed(x', y) && Placed(y, x')
    ensures Effort(x', y) + Effort(y, x') + 1 == Effort(x, y) + Effort(y, x)
    ensures |x'.sent| + Due(x', y) == |x.sent| + Due(x, y) && Due(y, x') == Due(y, x)
    ensures x'.version == x.version && x'.mode == x.mode
  {
    SameArguments(x, y, x');
    hide Start, Take, Answer, Finish, Restarted, Effort, Due, Placed;
    if Take(x, y, x') || Restarted(x, y, x') {
      ReadingStep(x, y, x');
    } else {
      OwnStep(x, y, x');
    }
  }

  lemma SameArguments(x: Node, y: Node, x': Node)
    requires NodeStep(x, y, x')
    ensures x'.version == x.version && x'.mode == x.mode
  {
  }

  /** Every step is one of those that are left, and every handshake that is sent was due. */
  lemma StepKeepsPlaced(s: System, s': System)
    requires BothPlaced(s) && Step(s, s')
    ensures BothPlaced(s') && TotalEffort(s') + 1 == TotalEffort(s)
    ensures |s'.a.sent| + Due(s'.a, s'.b) == |s.a.sent| + Due(s.a, s.b)
    ensures |s'.b.sent| + Due(s'.b, s'.a) == |s.b.sent| + Due(s.b, s.a)
    ensures s'.a.version == s.a.version && s'.b.version == s.b.version && s'.a.mode == s.a.mode && s'.b.mode == s.b.mode
  {
    hide NodeStep, Placed, Effort, Due;
    if NodeStep(s.a, s.b, s'.a) && s'.b == s.b {
      EndStep(s.a, s.b, s'.a);
    } else {
      EndStep(s.b, s.a, s'.b);
    }
  }

  /** Up, with the other end's version, and nothing left to read. */
  predicate Settled(x: Node, y: Node) {
    x.phase == Running && x.e.mode == x.mode && x.e.remoteVersion == y.version && x.got == |y.sent|
  }

  lemma {:induction false} RunsStayPlaced(run: seq<System>, i: nat)
    requires IsSteps(run) && BothPlaced(run[0]) && i < |run|
    ensures BothPlaced(run[i]) && TotalEffort(run[i]) + i == TotalEffort(run[0])
    ensures |run[i].a.sent| + Due(run[i].a, run[i].b) == |run[0].a.sent| + Due(run[0].a, run[0].b)
    ensures |run[i].b.sent| + Due(run[i].b, run[i].a) == |run[0].b.sent| + Due(run[0].b, run[0].a)
    ensures run[i].a.version == run[0].a.version && run[i].b.version == run[0].b.version
    ensures run[i].a.mode == run[0].a.mode && run[i].b.mode == run[0].b.mode
    decreases i
  {
    hide Placed, Effort, Due, Step;
    if i > 0 {
      RunsStayPlaced(run, i - 1);
      assert Step(run[i - 1], run[i - 1 + 1]);
      StepKeepsPlaced(run[i - 1], run[i]);
    }
  }

  /** Nobody waits for something that will not come: when no step is left, both ends have settled, and conversely. */
  lemma StillMeansSettled(x: Node, y: Node)
    requires Placed(x, y) && Placed(y, x)
    ensures !Enabled(x, y) && !Enabled(y, x) <==> Settled(x, y) && Settled(y, x)
    ensures !Enabled(x, y) && !Enabled(y, x) <==> Effort(x, y) + Effort(y, x) == 0
    ensures !Enabled(x, y) && !Enabled(y, x) ==> Due(x, y) == 0 && Due(y, x) == 0
  {
  }

  /**
   * From whatever was left over, the ends find together in every interleaving: each run can be continued until exactly
   * TotalEffort(run[0]) steps were taken, and not further; then both are up, know each other's version and have read
   * everything, and every request was answered once.
   */
  lemma EndsFindTogether(run: seq<System>)
    requires IsSteps(run) && BothPlaced(run[0])
    ensures |run| <= TotalEffort(run[0]) + 1
    ensures var s, t := run[0], run[|run| - 1];
      !Enabled(t.a, t.b) && !Enabled(t.b, t.a) <==> |run| == TotalEffort(s) + 1
    ensures var s, t := run[0], run[|run| - 1];
      |run| == TotalEffort(s) + 1 ==>
        && Settled(t.a, t.b) && Settled(t.b, t.a)
        && t.a.mode == s.a.mode && t.a.version == s.a.version && t.b.mode == s.b.mode && t.b.version == s.b.version
        && |t.a.sent| == |s.a.sent| + Due(s.a, s.b) && |t.b.sent| == |s.b.sent| + Due(s.b, s.a)
  {
    var s, t := run[0], run[|run| - 1];
    RunsStayPlaced(run, |run| - 1);
    StillMeansSettled(t.a, t.b);
    hide Placed, Effort, Due, Step;
  }

  /** Two fresh ends need ten steps and two handshakes each, as in TwoEnds. */
  lemma FreshArePlaced(s: System)
    requires Fresh(s.a) && Fresh(s.b) && s.b.mode == OtherMode(s.a.mode) && !Mismatch(s.a, s.b) && !Mismatch(s.b, s.a)
    ensures BothPlaced(s) && TotalEffort(s) == 10 && Due(s.a, s.b) == 2 && Due(s.b, s.a) == 2
  {
    assert Requests([], 0) == 0;
  }

  /** With nothing under way, an end that comes back needs five steps and one handshake from each side. */
  lemma PeerResetIsPlaced(s: System)
    requires PeerReset(s) && !Mismatch(s.a, s.b) && !Mismatch(s.b, s.a)
    ensures BothPlaced(s) && TotalEffort(s) == 5 && Due(s.a, s.b) == 1 && Due(s.b, s.a) == 1
  {
    assert Requests(s.b.sent, s.a.got) == 0 && Requests(s.a.sent, s.b.got) == 0;
  }

  // ---- runs with disturbances --------------------------------------------------------------

  /**
   * x starts over: it was reset, or its startup timed out or could not write, and is begun again. Any number of the
   * messages in its channel are lost, the oldest first, and nothing is said about what it remembers.
   */
  predicate StartsOver(x: Node, y: Node, x': Node) {
    && x' == x.(phase := Idle, e := x'.e, got := x'.got)
    && x.got <= x'.got <= |y.sent|
  }

  predicate Disturbance(s: System, s': System) {
    || (StartsOver(s.a, s.b, s'.a) && s'.b == s.b)
    || (StartsOver(s.b, s.a, s'.b) && s'.a == s.a)
  }

  /** Fresh ends in opposite modes, neither of which insists on a version that the other does not have; then anything. */
  predicate IsTroubled(run: seq<System>) {
    && |run| > 0 && Fresh(run[0].a) && Fresh(run[0].b) && run[0].b.mode == OtherMode(run[0].a.mode)
    && !Mismatch(run[0].a, run[0].b) && !Mismatch(run[0].b, run[0].a)
    && forall i :: 0 <= i < |run| - 1 ==> Step(run[i], run[i + 1]) || Disturbance(run[i], run[i + 1])
  }

  /** Whenever an end starts over, both are where they can find together. */
  lemma StartingOverIsPlaced(x: Node, y: Node, x': Node)
    requires Placed(x, y) && Placed(y, x) && StartsOver(x, y, x')
    ensures Placed(x', y) && Placed(y, x')
  {
  }

  lemma {:induction false} TroubleStaysPlaced(run: seq<System>, i: nat)
    requires IsTroubled(run) && i < |run|
    ensures BothPlaced(run[i])
    decreases i
  {
    if i > 0 {
      TroubleStaysPlaced(run, i - 1);
      var s, s' := run[i - 1], run[i - 1 + 1];
      assert Step(s, s') || Disturbance(s, s');
      hide Placed, Step, StartsOver;
      if Step(s, s') {
        StepKeepsPlaced(s, s');
      } else if StartsOver(s.a, s.b, s'.a) && s'.b == s.b {
        StartingOverIsPlaced(s.a, s.b, s'.a);
      } else {
        StartingOverIsPlaced(s.b, s.a, s'.b);
      }
    }
  }

  /**
   * However often and whenever either end starts over: once that is over, both ends go up within a number of steps
   * that depends only on what is then under way, with each other's version and nothing left to read.
   */
  lemma TroubleEnds(run: seq<System>, last: nat)
    requires IsTroubled(run) && last < |run|
    requires forall i :: last <= i < |run| - 1 ==> Step(run[i], run[i + 1])
    ensures BothPlaced(run[last]) && |run| - last <= TotalEffort(run[last]) + 1
    ensures var t := run[|run| - 1];
      !Enabled(t.a, t.b) && !Enabled(t.b, t.a) <==> Settled(t.a, t.b) && Settled(t.b, t.a)
    ensures var t := run[|run| - 1];
      !Enabled(t.a, t.b) && !Enabled(t.b, t.a) <==> |run| - last == TotalEffort(run[last]) + 1
  {
    TroubleStaysPlaced(run, last);
    var tail, t := run[last..], run[|run| - 1];
    forall i | 0 <= i < |tail| - 1 ensures Step(tail[i], tail[i + 1]) {
      assert Step(run[last + i], run[last + i + 1]);
    }
    EndsFindTogether(tail);
    RunsStayPlaced(tail, |tail| - 1);
    assert tail[|tail| - 1] == t && tail[0] == run[last];
    StillMeansSettled(t.a, t.b);
    hide Placed, Effort, Step, Enabled, Settled, IsSteps, IsTroubled;
  }
}
