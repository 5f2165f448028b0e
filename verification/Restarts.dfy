/**
 * Two ends that may be reset and started again at any time, with other traffic, failing writes and timeouts, on
 * channels that keep the order and may lose messages, but do not make any up.
 */
module Restarts {
  import opened Bytes
  import opened Frames
  import opened Session

  datatype Item = Data | Shake(h: Handshake)

  /** Between calls, or inside a secil_startup that waits for the other end. */
  datatype Phase = Ready | Waiting(mode: nat)

  /** One end, with the number of calls of secil_startup and of the handshakes it has written. */
  datatype Station = Station(version: bytes, phase: Phase, e: End, startups: nat, requests: nat, acks: nat)

  datatype Net = Net(a: Station, b: Station, toA: seq<Item>, toB: seq<Item>)

  /** An end and the two channels as the end sees them. */
  datatype Side = Side(x: Station, inbox: seq<Item>, outbox: seq<Item>)

  function Items(hs: seq<Handshake>): seq<Item> {
    if hs == [] then [] else [Shake(hs[0])] + Items(hs[1..])
  }

  // ---- steps ---------------------------------------------------------------------------

  /** secil_startup: nothing is written for an invalid mode, or if writing fails. */
  predicate StartUp(s: Side, s': Side, mode: nat, written: bool) {
    && s.x.phase.Ready? && s'.inbox == s.inbox
    && var counted := s.x.(startups := s.x.startups + 1);
      if mode == UNINITIALIZED || !written then s'.x == counted && s'.outbox == s.outbox
      else
        && s'.x == counted.(phase := Waiting(mode), requests := s.x.requests + 1)
        && s'.outbox == s.outbox + [Shake(Handshake(mode, true, s.x.version))]
  }

  /** secil_deinit and secil_init, or power loss: the state is gone, a waiting startup with it. */
  predicate Reset(s: Side, s': Side) {
    s' == s.(x := s.x.(phase := Ready, e := End(UNINITIALIZED, [], [])))
  }

  /** The wait of secil_startup times out. */
  predicate TimeOut(s: Side, s': Side) {
    s.x.phase.Waiting? && s' == s.(x := s.x.(phase := Ready))
  }

  /** Any other message is written. */
  predicate SendData(s: Side, s': Side) {
    s' == s.(outbox := s.outbox + [Data])
  }

  /** The answers of a reaction are written, or writing fails. */
  predicate Written(s: Side, s': Side, x: Station, answers: seq<Handshake>) {
    || (s'.x == x && s'.outbox == s.outbox)
    || (s'.x == x.(acks := x.acks + |answers|) && s'.outbox == s.outbox + Items(answers))
  }

  /** secil_receive_handshake; the end is between calls again, whatever came. */
  predicate TakeInStartup(s: Side, s': Side, strict: bool) {
    && s.x.phase.Waiting? && s.inbox != [] && s'.inbox == s.inbox[1..]
    && match s.inbox[0]
       case Data => s'.x == s.x.(phase := Ready) && s'.outbox == s.outbox
       case Shake(h) =>
         var r := OnStartupHandshake(s.x.e, s.x.version, s.x.phase.mode, h);
         var done := s.x.(phase := Ready, e := if r.error == OK then Confirm(r.e, s.x.version, s.x.phase.mode, strict).1 else r.e);
         var cut := s.x.(phase := Ready, e := r.e);
         Written(s, s', done, r.answers) || (s'.x == cut && s'.outbox == s.outbox)
  }

  /** secil_receive; other messages are handed to the application or echoed. */
  predicate TakeInReceive(s: Side, s': Side) {
    && s.x.phase.Ready? && s.inbox != [] && s'.inbox == s.inbox[1..]
    && match s.inbox[0]
       case Data => s'.x == s.x && (s'.outbox == s.outbox || s'.outbox == s.outbox + [Data])
       case Shake(h) => var r := OnRestart(s.x.e, s.x.version, h); Written(s, s', s.x.(e := r.e), r.answers)
  }

  ghost predicate SideStep(s: Side, s': Side) {
    || (exists mode, written :: StartUp(s, s', mode, written))
    || Reset(s, s') || TimeOut(s, s') || SendData(s, s') || TakeInReceive(s, s')
    || (exists strict :: TakeInStartup(s, s', strict))
  }

  /** One message is lost. */
  predicate Loses(c: seq<Item>, c': seq<Item>, k: nat) {
    k < |c| && c' == c[..k] + c[k + 1..]
  }

  ghost predicate Step(n: Net, n': Net) {
    || (SideStep(Side(n.a, n.toA, n.toB), Side(n'.a, n'.toA, n'.toB)) && n'.b == n.b)
    || (SideStep(Side(n.b, n.toB, n.toA), Side(n'.b, n'.toB, n'.toA)) && n'.a == n.a)
    || (n'.a == n.a && n'.b == n.b && n'.toB == n.toB && exists k :: Loses(n.toA, n'.toA, k))
    || (n'.a == n.a && n'.b == n.b && n'.toA == n.toA && exists k :: Loses(n.toB, n'.toB, k))
  }

  predicate FreshStation(x: Station) {
    x.phase.Ready? && x.e == End(UNINITIALIZED, [], []) && x.startups == x.requests == x.acks == 0
  }

  ghost predicate IsRun(run: seq<Net>) {
    && |run| > 0 && FreshStation(run[0].a) && FreshStation(run[0].b) && run[0].toA == run[0].toB == []
    && forall i :: 0 <= i < |run| - 1 ==> Step(run[i], run[i + 1])
  }

  // ---- counting ---------------------------------------------------------------------------------

  /** The handshakes in a channel that ask for an answer. */
  function Asking(c: seq<Item>): nat {
    if c == [] then 0 else (if c[0].Shake? && c[0].h.needsAck then 1 else 0) + Asking(c[1..])
  }

  lemma {:induction false} AskingOfTwo(c: seq<Item>, d: seq<Item>)
    ensures Asking(c + d) == Asking(c) + Asking(d)
    decreases |c|
  {
    if c == [] {
      assert c + d == d;
    } else {
      assert (c + d)[1..] == c[1..] + d;
      AskingOfTwo(c[1..], d);
    }
  }

  lemma LossAsksLess(c: seq<Item>, c': seq<Item>, k: nat)
    requires Loses(c, c', k)
    ensures Asking(c') <= Asking(c)
    ensures forall i :: 0 <= i < |c'| ==> c'[i] in c
  {
    AskingOfTwo(c[..k], c[k + 1..]);
    assert c == c[..k] + c[k..] && c[k..] == [c[k]] + c[k + 1..];
    AskingOfTwo(c[..k], c[k..]);
    AskingOfTwo([c[k]], c[k + 1..]);
  }

  /** All handshakes in a channel name a mode. */
  predicate ModesSet(c: seq<Item>) {
    forall i :: 0 <= i < |c| && c[i].Shake? ==> c[i].h.mode != UNINITIALIZED
  }

  /** The end and the channel to it: no more answers than requests, no more requests than startups. */
  predicate Bounded(x: Station, y: Station, toX: seq<Item>) {
    && x.acks + Asking(toX) <= y.requests
    && x.requests <= x.startups
    && (x.phase.Waiting? ==> x.phase.mode != UNINITIALIZED)
    && ModesSet(toX)
  }

  predicate Invariant(n: Net) {
    Bounded(n.a, n.b, n.toA) && Bounded(n.b, n.a, n.toB)
  }

  // ---- what a step of an end can do to the channels ---------------------------------------------

  /** It answers: the message it takes asked for that, and the answer does not. */
  predicate Answers(s: Side, s': Side) {
    && s.inbox != [] && s.inbox[0].Shake? && s.inbox[0].h.needsAck && s'.inbox == s.inbox[1..]
    && s'.x.acks == s.x.acks + 1 && s'.x.requests == s.x.requests && s'.x.startups == s.x.startups
    && |s'.outbox| == |s.outbox| + 1 && s'.outbox[..|s.outbox|] == s.outbox
    && var last := s'.outbox[|s.outbox|];
      last.Shake? && !last.h.needsAck && last.h.mode != UNINITIALIZED
  }

  /** It asks: a startup has written its request. */
  predicate Asks(s: Side, s': Side) {
    && s'.inbox == s.inbox && s'.x.acks == s.x.acks
    && s'.x.requests == s.x.requests + 1 && s'.x.startups == s.x.startups + 1
    && |s'.outbox| == |s.outbox| + 1 && s'.outbox[..|s.outbox|] == s.outbox
    && var last := s'.outbox[|s.outbox|];
      last.Shake? && last.h.needsAck && last.h.mode != UNINITIALIZED
  }

  /** It writes no handshake. */
  predicate WritesNone(s: Side, s': Side) {
    && (s'.inbox == s.inbox || (s.inbox != [] && s'.inbox == s.inbox[1..]))
    && s'.x.acks == s.x.acks && s'.x.requests == s.x.requests && s'.x.startups >= s.x.startups
    && (s'.outbox == s.outbox || s'.outbox == s.outbox + [Data])
  }

  lemma OneItem(h: Handshake)
    ensures Items([h]) == [Shake(h)] && Items([]) == []
  {
    assert [h][1..] == [];
  }

  /** A handshake is written in two ways only: to ask, and to answer a handshake that asked. */
  lemma StepKinds(s: Side, s': Side)
    requires SideStep(s, s') && (s.x.phase.Waiting? ==> s.x.phase.mode != UNINITIALIZED)
    ensures Answers(s, s') || Asks(s, s') || WritesNone(s, s')
    ensures s'.x.phase.Waiting? ==> s'.x.phase.mode != UNINITIALIZED
  {
    if s.inbox != [] && s.inbox[0].Shake? {
      var h := s.inbox[0].h;
      OneItem(Handshake(s.x.e.mode, false, s.x.version));
      if s.x.phase.Waiting? {
        OneItem(Handshake(s.x.phase.mode, false, s.x.version));
      }
    }
  }

  // ---- every run --------------------------------------------------------------------------------------

  lemma SideKeeps(s: Side, s': Side, y: Station)
    requires SideStep(s, s') && Bounded(s.x, y, s.inbox) && Bounded(y, s.x, s.outbox)
    ensures Bounded(s'.x, y, s'.inbox) && Bounded(y, s'.x, s'.outbox)
  {
    StepKinds(s, s');
    hide SideStep;
    var n := |s.outbox|;
    if |s'.outbox| == n + 1 {
      assert s'.outbox == s'.outbox[..n] + [s'.outbox[n]];
      AskingOfTwo(s.outbox, [s'.outbox[n]]);
      assert [s'.outbox[n]][1..] == [];
    }
    assert s.inbox != [] ==> Asking(s.inbox) == Asking(s.inbox[1..]) + if s.inbox[0].Shake? && s.inbox[0].h.needsAck then 1 else 0;
  }

  lemma LossKeeps(x: Station, y: Station, c: seq<Item>, c': seq<Item>, k: nat)
    requires Bounded(x, y, c) && Loses(c, c', k)
    ensures Bounded(x, y, c')
  {
    LossAsksLess(c, c', k);
    forall i | 0 <= i < |c'| && c'[i].Shake? ensures c'[i].h.mode != UNINITIALIZED {
      var j :| 0 <= j < |c| && c[j] == c'[i];
    }
  }

  lemma StepKeeps(n: Net, n': Net)
    requires Invariant(n) && Step(n, n')
    ensures Invariant(n')
  {
    hide SideStep, Bounded;
    if SideStep(Side(n.a, n.toA, n.toB), Side(n'.a, n'.toA, n'.toB)) && n'.b == n.b {
      SideKeeps(Side(n.a, n.toA, n.toB), Side(n'.a, n'.toA, n'.toB), n.b);
    } else if SideStep(Side(n.b, n.toB, n.toA), Side(n'.b, n'.toB, n'.toA)) && n'.a == n.a {
      SideKeeps(Side(n.b, n.toB, n.toA), Side(n'.b, n'.toB, n'.toA), n.a);
    } else if n'.toB == n.toB {
      var k :| Loses(n.toA, n'.toA, k);
      LossKeeps(n.a, n.b, n.toA, n'.toA, k);
    } else {
      var k :| Loses(n.toB, n'.toB, k);
      LossKeeps(n.b, n.a, n.toB, n'.toB, k);
    }
  }

  /**
   * Whatever is restarted, lost or sent besides: at every point of a run neither end has answered more handshakes
   * than the other has sent requests, no more than two handshakes have been written for each startup, and every
   * handshake on the wire names a mode.
   */
  lemma {:induction false} HandshakesAreBounded(run: seq<Net>, i: nat)
    requires IsRun(run) && i < |run|
    ensures var n := run[i];
      && n.a.acks <= n.b.requests && n.b.acks <= n.a.requests
      && n.a.requests + n.a.acks + n.b.requests + n.b.acks <= 2 * (n.a.startups + n.b.startups)
      && ModesSet(n.toA) && ModesSet(n.toB)
    ensures Invariant(run[i])
    decreases i
  {
    if i > 0 {
      HandshakesAreBounded(run, i - 1);
      assert Step(run[i - 1], run[i - 1 + 1]);
      hide Step, Bounded;
      StepKeeps(run[i - 1], run[i]);
    }
  }

  /** In every step of every run, an end that answers has just taken a handshake that asked for it. */
  lemma OnlyRequestsAreAnswered(run: seq<Net>, i: nat)
    requires IsRun(run) && i + 1 < |run|
    ensures var n, n' := run[i], run[i + 1];
      n'.a.acks > n.a.acks ==> Answers(Side(n.a, n.toA, n.toB), Side(n'.a, n'.toA, n'.toB))
    ensures var n, n' := run[i], run[i + 1];
      n'.b.acks > n.b.acks ==> Answers(Side(n.b, n.toB, n.toA), Side(n'.b, n'.toB, n'.toA))
  {
    HandshakesAreBounded(run, i);
    var n, n' := run[i], run[i + 1];
    assert Step(n, n');
    hide SideStep, Answers, Asks;
    if SideStep(Side(n.a, n.toA, n.toB), Side(n'.a, n'.toA, n'.toB)) {
      StepKinds(Side(n.a, n.toA, n.toB), Side(n'.a, n'.toA, n'.toB));
    }
    if SideStep(Side(n.b, n.toB, n.toA), Side(n'.b, n'.toB, n'.toA)) {
      StepKinds(Side(n.b, n.toB, n.toA), Side(n'.b, n'.toB, n'.toA));
    }
  }

}
