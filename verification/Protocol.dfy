/**
 * The test server: for each worker, a parent that takes the snapshot, the worker that serves one client, and the child
 * it forks for each library path; and the client that sends a path to every worker and collects their answers.
 * Any interleaving of their steps is allowed.
 */
module Protocol {
  datatype Msg = Path(test: nat) | Kill

  /** An answer names its worker and the path it answers, and says whether the child or the worker itself wrote it. */
  datatype Resp = Resp(worker: nat, test: nat, byChild: bool)

  datatype Phase = Asleep | Listening | Ready | Waiting | Dead

  /** The forked child: at work, done answering, or gone with exit code zero or not. */
  datatype Child = NoChild | Running(test: nat) | Answered(test: nat) | Gone(test: nat, ok: bool)

  /**
   * copied counts the parent's steps: target run, stack, heap and registers copied; posted says the semaphore was
   * raised.
   */
  datatype Worker = Worker(copied: nat, posted: bool, sem: nat, phase: Phase, child: Child, connected: bool,
                           inbox: seq<Msg>, outbox: seq<Resp>, written: seq<Resp>, exits: seq<bool>)

  datatype Client =
    | Connecting(next: nat)
    | Sending(test: nat, next: nat)
    | Receiving(test: nat, got: seq<Resp>)
    | Killing(next: nat)
    | Done

  /** results holds what each completed call of runAllTests returned. */
  datatype State = State(workers: seq<Worker>, client: Client, results: seq<seq<Resp>>)

  const SNAPSHOT: nat := 4

  /** What a rewrite is compared with: the target's registers, stack and heap, once the target has run. */
  datatype Part = TargetRun | StackCopy | HeapCopy | RegisterCopy

  predicate InPlace(x: Worker, p: Part) {
    x.copied >= match p
                case TargetRun => 1
                case StackCopy => 2
                case HeapCopy => 3
                case RegisterCopy => 4
  }

  predicate Init(s: State) {
    && s.client == Connecting(0) && s.results == []
    && forall w :: 0 <= w < |s.workers| ==> s.workers[w] == Worker(0, false, 0, Asleep, NoChild, false, [], [], [], [])
  }

  datatype Event =
    | ParentCopies(w: nat) | ParentPosts(w: nat) | WorkerWakes(w: nat) | WorkerAccepts(w: nat)
    | WorkerForks(w: nat) | ChildAnswers(w: nat) | ChildExits(w: nat) | ChildCrashes(w: nat)
    | WorkerReaps(w: nat) | WorkerDies(w: nat)
    | Connects | Sends | AllSent | Receives | AllReceived | Quits | SendsKill | AllKilled

  /** The steps of one worker, its parent and its child. */
  function Local(x: Worker, w: nat, e: Event): (r: Worker)
    requires Enabled(x, e)
  {
    match e
    case ParentCopies(_) => x.(copied := x.copied + 1)
    case ParentPosts(_) => x.(posted := true, sem := x.sem + 1)
    case WorkerWakes(_) => x.(sem := x.sem - 1, phase := Listening)
    case WorkerAccepts(_) => x.(phase := Ready)
    case WorkerForks(_) => x.(phase := Waiting, child := Running(x.inbox[0].test), inbox := x.inbox[1..])
    case ChildAnswers(_) =>
      var r := Resp(w, x.child.test, true);
      x.(child := Answered(x.child.test), outbox := x.outbox + [r], written := x.written + [r])
    case ChildExits(_) => x.(child := Gone(x.child.test, true), exits := x.exits + [true])
    case ChildCrashes(_) => x.(child := Gone(x.child.test, false), exits := x.exits + [false])
    case WorkerReaps(_) =>
      var r := Resp(w, x.child.test, false);
      if x.child.ok then x.(phase := Ready, child := NoChild)
      else x.(phase := Ready, child := NoChild, outbox := x.outbox + [r], written := x.written + [r])
    case WorkerDies(_) => x.(phase := Dead, inbox := x.inbox[1..])
    case _ => x
  }

  predicate Enabled(x: Worker, e: Event) {
    match e
    case ParentCopies(_) => x.copied < SNAPSHOT
    case ParentPosts(_) => x.copied == SNAPSHOT && !x.posted
    case WorkerWakes(_) => x.phase.Asleep? && x.sem > 0
    case WorkerAccepts(_) => x.phase.Listening? && x.connected
    case WorkerForks(_) => x.phase.Ready? && x.inbox != [] && x.inbox[0].Path?
    case ChildAnswers(_) => x.child.Running?
    case ChildExits(_) => x.child.Answered?
    case ChildCrashes(_) => x.child.Running?
    case WorkerReaps(_) => x.phase.Waiting? && x.child.Gone?
    case WorkerDies(_) => x.phase.Ready? && x.inbox != [] && x.inbox[0].Kill?
    case _ => false
  }

  /** One step of the whole system. */
  predicate Next(s: State, s': State, e: Event) {
    match e
    case Connects =>
      s.client.Connecting? && s.client.next < |s.workers| && s.workers[s.client.next].phase.Listening?
      && s' == s.(workers := s.workers[s.client.next := s.workers[s.client.next].(connected := true)],
                  client := if s.client.next + 1 < |s.workers| then Connecting(s.client.next + 1) else Sending(0, 0))
    case Sends =>
      s.client.Sending? && s.client.next < |s.workers|
      && s' == s.(workers := s.workers[s.client.next := Deliver(s.workers[s.client.next], Path(s.client.test))],
                  client := Sending(s.client.test, s.client.next + 1))
    case AllSent =>
      s.client.Sending? && s.client.next == |s.workers| && s' == s.(client := Receiving(s.client.test, []))
    case Receives =>
      s.client.Receiving? && |s.client.got| < |s.workers| && s.workers[|s.client.got|].outbox != []
      && (var x := s.workers[|s.client.got|];
          s' == s.(workers := s.workers[|s.client.got| := x.(outbox := x.outbox[1..])],
                   client := Receiving(s.client.test, s.client.got + [x.outbox[0]])))
    case AllReceived =>
      s.client.Receiving? && |s.client.got| == |s.workers|
      && s' == s.(client := Sending(s.client.test + 1, 0), results := s.results + [s.client.got])
    case Quits =>
      s.client.Sending? && s.client.next == 0 && |s.workers| > 0 && s' == s.(client := Killing(0))
    case SendsKill =>
      s.client.Killing? && s.client.next < |s.workers|
      && s' == s.(workers := s.workers[s.client.next := Deliver(s.workers[s.client.next], Kill)],
                  client := Killing(s.client.next + 1))
    case AllKilled =>
      s.client.Killing? && s.client.next == |s.workers| && s' == s.(client := Done)
    case _ =>
      e.w < |s.workers| && Enabled(s.workers[e.w], e)
      && s' == s.(workers := s.workers[e.w := Local(s.workers[e.w], e.w, e)])
  }

  function Deliver(x: Worker, m: Msg): Worker {
    x.(inbox := x.inbox + [m])
  }

  // ---- what always holds of a worker ----

  /** No child is ever at work, and nothing is compared, before the snapshot is complete. */
  predicate SnapshotFirst(x: Worker) {
    && x.copied <= SNAPSHOT && (x.posted ==> x.copied == SNAPSHOT)
    && (x.sem > 0 ==> x.posted) && (!x.phase.Asleep? ==> x.posted)
    && (!x.child.NoChild? <==> x.phase.Waiting?)
    && (x.posted && x.phase.Asleep? ==> x.sem > 0)
  }

  predicate Live(x: Worker) {
    !x.phase.Asleep? && x.connected && !x.phase.Dead?
  }

  /** Nothing outstanding: every path so far was answered once. */
  predicate Idle(x: Worker, w: nat, t: nat) {
    x.inbox == [] && x.outbox == [] && (x.child.NoChild? || x.child.Answered? || (x.child.Gone? && x.child.ok))
    && Wrote(x, w, t) && Exited(x, t)
  }

  /** The path t is outstanding: queued, at work, or answered and not yet received. */
  predicate Busy(x: Worker, w: nat, t: nat) {
    || (x.inbox == [Path(t)] && x.outbox == [] && (x.child.NoChild? || x.child.Answered?
                                                   || (x.child.Gone? && x.child.ok))
        && Wrote(x, w, t) && Exited(x, t))
    || (x.inbox == [] && x.outbox == [] && (x.child == Running(t) || x.child == Gone(t, false)) && Wrote(x, w, t)
        && (if x.child.Running? then |x.exits| == t else |x.exits| == t + 1 && !x.exits[t]))
    || (x.inbox == [] && |x.outbox| == 1 && (x.child.NoChild? || x.child.Answered? || (x.child.Gone? && x.child.ok))
        && Wrote(x, w, t + 1) && Exited(x, t + 1) && x.outbox[0] == x.written[t])
  }

  /**
   * One answer was written for each path below t, in order, by the child when it exited normally and else by the
   * worker.
   */
  predicate Wrote(x: Worker, w: nat, t: nat) {
    && |x.written| == t
    && (forall k :: 0 <= k < t ==> x.written[k].worker == w && x.written[k].test == k)
    && (forall k :: 0 <= k < t && k < |x.exits| ==> x.written[k].byChild == x.exits[k])
  }

  /** The children of all paths below t are gone, but perhaps the last, which has answered. */
  predicate Exited(x: Worker, t: nat) {
    if x.child.Answered? then t > 0 && |x.exits| == t - 1 && x.child.test == t - 1 && |x.written| == t
                              && x.written[t - 1].byChild
    else |x.exits| == t
  }

  /** Before the client connects nothing is in the queues. */
  predicate Fresh(x: Worker) {
    x.inbox == [] && x.outbox == [] && x.child.NoChild? && x.written == [] && x.exits == [] && !x.phase.Dead?
        && !x.phase.Ready?
  }

  /** The kill message is on its way, or has ended the worker. */
  predicate Killed(x: Worker, w: nat, t: nat) {
    && x.connected && x.outbox == [] && (x.child.NoChild? || x.child.Answered? || (x.child.Gone? && x.child.ok))
    && Wrote(x, w, t) && Exited(x, t) && !x.phase.Asleep?
    && (if x.phase.Dead? then x.inbox == [] else x.inbox == [Kill])
  }

  predicate WorkerOK(x: Worker, w: nat, c: Client, tests: nat) {
    SnapshotFirst(x) &&
    match c
    case Connecting(i) => if w < i then Live(x) && Idle(x, w, 0) else Fresh(x) && !x.connected
    case Sending(t, i) => Live(x) && if w < i then Busy(x, w, t) else Idle(x, w, t)
    case Receiving(t, got) => Live(x) && if w < |got| then Idle(x, w, t + 1) else Busy(x, w, t)
    case Killing(i) => if w < i then Killed(x, w, tests) else Live(x) && Idle(x, w, tests)
    case Done => Killed(x, w, tests)
  }

  /** Entry i of a call's result is worker i's answer to the path of that call. */
  predicate InOrder(rs: seq<Resp>, t: nat) {
    forall j :: 0 <= j < |rs| ==> rs[j].worker == j && rs[j].test == t
  }

  predicate ClientOK(s: State) {
    && (match s.client
        case Connecting(i) => (i < |s.workers| || i == 0) && s.results == []
        case Sending(t, i) => i <= |s.workers| && t == |s.results| && |s.workers| > 0
        case Receiving(t, got) => |got| <= |s.workers| && t == |s.results| && InOrder(got, t) && |s.workers| > 0
        case Killing(i) => i <= |s.workers|
        case Done => true)
    && forall t :: 0 <= t < |s.results| ==> |s.results[t]| == |s.workers| && InOrder(s.results[t], t)
  }

  predicate Inv(s: State) {
    ClientOK(s) && forall w :: 0 <= w < |s.workers| ==> WorkerOK(s.workers[w], w, s.client, |s.results|)
  }

  lemma InitInv(s: State)
    requires Init(s)
    ensures Inv(s)
  {
  }

  // ---- every step keeps it ----

  lemma IdleStays(x: Worker, w: nat, t: nat, e: Event)
    requires SnapshotFirst(x) && Live(x) && Idle(x, w, t) && Enabled(x, e)
    ensures var y := Local(x, w, e); SnapshotFirst(y) && Live(y) && Idle(y, w, t)
  {
  }

  lemma FreshStays(x: Worker, w: nat, e: Event)
    requires SnapshotFirst(x) && Fresh(x) && !x.connected && Enabled(x, e)
    ensures var y := Local(x, w, e); SnapshotFirst(y) && Fresh(y) && !y.connected
  {
  }

  lemma BusyStays(x: Worker, w: nat, t: nat, e: Event)
    requires SnapshotFirst(x) && Live(x) && Busy(x, w, t) && Enabled(x, e)
    ensures var y := Local(x, w, e); SnapshotFirst(y) && Live(y) && Busy(y, w, t)
  {
    match e
    case WorkerForks(_) => assert x.inbox[1..] == [];
    case ChildAnswers(_) =>
    case ChildCrashes(_) =>
    case ChildExits(_) =>
    case WorkerReaps(_) =>
    case _ =>
  }

  lemma KilledStays(x: Worker, w: nat, t: nat, e: Event)
    requires SnapshotFirst(x) && Killed(x, w, t) && Enabled(x, e)
    ensures var y := Local(x, w, e); SnapshotFirst(y) && Killed(y, w, t)
  {
    if e.WorkerDies? { assert x.inbox[1..] == []; }
  }

  lemma LocalStays(x: Worker, w: nat, c: Client, tests: nat, e: Event)
    requires WorkerOK(x, w, c, tests) && Enabled(x, e)
    ensures WorkerOK(Local(x, w, e), w, c, tests)
  {
    hide Local, Enabled, Idle, Busy, Fresh, Killed, SnapshotFirst, Live;
    match c
    case Connecting(i) => if w < i { IdleStays(x, w, 0, e); } else { FreshStays(x, w, e); }
    case Sending(t, i) => if w < i { BusyStays(x, w, t, e); } else { IdleStays(x, w, t, e); }
    case Receiving(t, got) => if w < |got| { IdleStays(x, w, t + 1, e); } else { BusyStays(x, w, t, e); }
    case Killing(i) => if w < i { KilledStays(x, w, tests, e); } else { IdleStays(x, w, tests, e); }
    case Done => KilledStays(x, w, tests, e);
  }

  /** The client's effects on the worker it deals with. */
  lemma ConnectMakesIdle(x: Worker, w: nat)
    requires SnapshotFirst(x) && Fresh(x) && x.phase.Listening?
    ensures var y := x.(connected := true); SnapshotFirst(y) && Live(y) && Idle(y, w, 0)
  {
  }

  lemma SendMakesBusy(x: Worker, w: nat, t: nat)
    requires SnapshotFirst(x) && Live(x) && Idle(x, w, t)
    ensures var y := Deliver(x, Path(t)); SnapshotFirst(y) && Live(y) && Busy(y, w, t)
  {
  }

  lemma ReceiveMakesIdle(x: Worker, w: nat, t: nat)
    requires SnapshotFirst(x) && Live(x) && Busy(x, w, t) && x.outbox != []
    ensures var y := x.(outbox := x.outbox[1..]); SnapshotFirst(y) && Live(y) && Idle(y, w, t + 1)
    ensures x.outbox[0].worker == w && x.outbox[0].test == t
  {
    assert x.outbox[1..] == [];
  }

  lemma KillMakesKilled(x: Worker, w: nat, t: nat)
    requires SnapshotFirst(x) && Live(x) && Idle(x, w, t)
    ensures var y := Deliver(x, Kill); SnapshotFirst(y) && Killed(y, w, t)
  {
  }

  lemma WorkerKeeps(s: State, s': State, e: Event, w: nat)
    requires Inv(s) && Next(s, s', e) && w < |s.workers|
    ensures |s'.workers| == |s.workers| && WorkerOK(s'.workers[w], w, s'.client, |s'.results|)
  {
    hide Local, Enabled, Idle, Busy, Fresh, Killed, SnapshotFirst, Live, Deliver, InOrder;
    var x := s.workers[w];
    assert WorkerOK(x, w, s.client, |s.results|);
    match e
    case Connects => if w == s.client.next { ConnectMakesIdle(x, w); }
    case Sends => if w == s.client.next { SendMakesBusy(x, w, s.client.test); }
    case AllSent =>
    case Receives => if w == |s.client.got| { ReceiveMakesIdle(x, w, s.client.test); }
    case AllReceived =>
    case Quits =>
    case SendsKill => if w == s.client.next { KillMakesKilled(x, w, |s.results|); }
    case AllKilled =>
    case _ => if w == e.w { LocalStays(x, w, s.client, |s.results|, e); }
  }

  lemma ClientKeeps(s: State, s': State, e: Event)
    requires Inv(s) && Next(s, s', e)
    ensures ClientOK(s')
  {
    hide Local, Enabled, Idle, Busy, Fresh, Killed, SnapshotFirst, Live, Deliver;
    if e.Receives? {
      var w := |s.client.got|;
      assert WorkerOK(s.workers[w], w, s.client, |s.results|);
      ReceiveMakesIdle(s.workers[w], w, s.client.test);
    }
  }

  lemma StepKeepsInv(s: State, s': State, e: Event)
    requires Inv(s) && Next(s, s', e)
    ensures Inv(s')
  {
    hide Next, WorkerOK, ClientOK;
    ClientKeeps(s, s', e);
    SameWorkers(s, s', e);
    forall w: nat | w < |s'.workers| ensures WorkerOK(s'.workers[w], w, s'.client, |s'.results|) {
      WorkerKeeps(s, s', e, w);
    }
  }

  lemma SameWorkers(s: State, s': State, e: Event)
    requires Next(s, s', e)
    ensures |s'.workers| == |s.workers|
  {
  }

  // ---- runs ----

  /** A run: the states it passes through and the steps between them. */
  ghost predicate IsRun(ss: seq<State>, es: seq<Event>) {
    && |ss| == |es| + 1 && Init(ss[0])
    && forall i :: 0 <= i < |es| ==> Next(ss[i], ss[i + 1], es[i])
  }

  lemma {:induction false} RunInv(ss: seq<State>, es: seq<Event>, i: nat)
    requires IsRun(ss, es) && i < |ss|
    ensures Inv(ss[i]) && |ss[i].workers| == |ss[0].workers|
  {
    if i == 0 {
      InitInv(ss[0]);
    } else {
      RunInv(ss, es, i - 1);
      StepKeepsInv(ss[i - 1], ss[i], es[i - 1]);
      SameWorkers(ss[i - 1], ss[i], es[i - 1]);
    }
  }

  /** While a child is at work the snapshot its worker compares with is complete. */
  lemma ComparesAfterSnapshot(ss: seq<State>, es: seq<Event>, i: nat, w: nat)
    requires IsRun(ss, es) && i < |ss| && w < |ss[i].workers| && !ss[i].workers[w].child.NoChild?
    ensures (forall p: Part :: InPlace(ss[i].workers[w], p)) && ss[i].workers[w].posted
  {
    RunInv(ss, es, i);
    assert WorkerOK(ss[i].workers[w], w, ss[i].client, |ss[i].results|);
  }

  /**
   * Of each worker, at any time: its answers are to the paths 0, 1, 2 and so on, one each, written by the child when it
   * exited with zero and by the worker otherwise; and they are as many as the results the client has, or one more.
   */
  lemma OneAnswerEach(ss: seq<State>, es: seq<Event>, i: nat, w: nat)
    requires IsRun(ss, es) && i < |ss| && w < |ss[i].workers|
    ensures var x, s := ss[i].workers[w], ss[i];
            Wrote(x, w, |x.written|) && |s.results| <= |x.written| <= |s.results| + 1
            && (s.client.Sending? && s.client.next == 0 ==> |x.written| == |s.results|)
  {
    hide Idle, Busy, Killed;
    RunInv(ss, es, i);
    var s := ss[i];
    var x := s.workers[w];
    assert WorkerOK(x, w, s.client, |s.results|);
    if s.client.Sending? { AnswersSoFar(x, w, s.client.test); }
    if s.client.Receiving? { AnswersSoFar(x, w, s.client.test); AnswersSoFar(x, w, s.client.test + 1); }
    AnswersSoFar(x, w, |s.results|);
    AnswersSoFar(x, w, 0);
  }

  lemma AnswersSoFar(x: Worker, w: nat, t: nat)
    ensures Idle(x, w, t) || Killed(x, w, t) ==> Wrote(x, w, t) && |x.written| == t
    ensures Busy(x, w, t) ==> t <= |x.written| <= t + 1 && Wrote(x, w, |x.written|)
    ensures Fresh(x) ==> Wrote(x, w, 0) && |x.written| == 0
  {
  }

  /** What a call of runAllTests returned: entry j is the answer of worker j to the path of that call. */
  lemma ResultsInOrder(ss: seq<State>, es: seq<Event>, i: nat, t: nat, j: nat)
    requires IsRun(ss, es) && i < |ss| && t < |ss[i].results| && j < |ss[i].workers|
    ensures |ss[i].results[t]| == |ss[i].workers| && ss[i].results[t][j].worker == j && ss[i].results[t][j].test == t
  {
    RunInv(ss, es, i);
  }

  // ---- a call comes to its end ----

  /** The steps that a worker and its child can still take before they need another message. */
  function Steps(x: Worker): nat {
    (if x.phase.Listening? then 1 else 0) + 4 * |x.inbox|
    + match x.child case Running(_) => 3 case Answered(_) => 2 case Gone(_, _) => 1 case NoChild => 0
  }

  function TotalSteps(ws: seq<Worker>): nat {
    if ws == [] then 0 else TotalSteps(ws[..|ws| - 1]) + Steps(ws[|ws| - 1])
  }

  lemma {:induction false} StepsAfter(ws: seq<Worker>, w: nat, y: Worker)
    requires w < |ws|
    ensures TotalSteps(ws[w := y]) == TotalSteps(ws) - Steps(ws[w]) + Steps(y)
  {
    var n := |ws| - 1;
    if w < n {
      assert ws[w := y][..n] == ws[..n][w := y];
      StepsAfter(ws[..n], w, y);
    } else {
      assert ws[w := y][..n] == ws[..n];
    }
  }

  /** A call of runAllTests is under way. */
  predicate Calling(s: State) {
    s.client.Sending? || s.client.Receiving?
  }

  /** What is left to do for the call: messages to send and answers to receive, and the steps of the workers. */
  function CallLeft(s: State): int
    requires Calling(s)
  {
    (match s.client
     case Sending(_, i) => 6 * (|s.workers| - i) + |s.workers| + 2
     case Receiving(_, got) => |s.workers| - |got| + 1)
    + TotalSteps(s.workers)
  }

  /** A connected worker's own steps bring it nearer to rest. */
  lemma LiveNearsRest(x: Worker, w: nat, e: Event)
    requires SnapshotFirst(x) && Live(x) && Enabled(x, e)
    ensures Steps(Local(x, w, e)) < Steps(x)
  {
  }

  /** A worker with a path outstanding has its answer ready or can take a step of its own. */
  lemma BusyMoves(x: Worker, w: nat, t: nat) returns (e: Event)
    requires SnapshotFirst(x) && Live(x) && Busy(x, w, t) && x.outbox == []
    ensures Enabled(x, e) && e.w == w
    ensures e.WorkerAccepts? || e.WorkerForks? || e.ChildAnswers? || e.ChildExits? || e.WorkerReaps?
  {
    e := if x.phase.Listening? then WorkerAccepts(w)
    else if x.phase.Ready? then WorkerForks(w)
    else if x.child.Running? then ChildAnswers(w)
    else if x.child.Answered? then ChildExits(w)
    else WorkerReaps(w);
  }

  lemma AllLive(s: State, w: nat)
    requires Inv(s) && Calling(s) && w < |s.workers|
    ensures SnapshotFirst(s.workers[w]) && Live(s.workers[w])
    ensures s.client.Receiving? && w == |s.client.got| ==> Busy(s.workers[w], w, s.client.test)
  {
    hide Idle, Busy, SnapshotFirst, Live, Fresh, Killed;
    assert WorkerOK(s.workers[w], w, s.client, |s.results|);
  }

  lemma CountsFit(s: State)
    requires Inv(s) && Calling(s)
    ensures CallLeft(s) > 0
  {
  }

  /** While a call is under way every step but its end brings that end nearer. */
  lemma CallNearsEnd(s: State, s': State, e: Event)
    requires Inv(s) && Calling(s) && Next(s, s', e) && !e.AllReceived? && !e.Quits?
    ensures Calling(s') && s'.client.test == s.client.test && CallLeft(s') < CallLeft(s)
  {
    hide Local, Enabled, Inv, SnapshotFirst, Live, Idle, Busy, Steps;
    if e.Sends? {
      DeliverSteps(s.workers[s.client.next], Path(s.client.test));
      StepsAfter(s.workers, s.client.next, Deliver(s.workers[s.client.next], Path(s.client.test)));
    } else if e.Receives? {
      var x := s.workers[|s.client.got|];
      ReceiveSteps(x);
      StepsAfter(s.workers, |s.client.got|, x.(outbox := x.outbox[1..]));
    } else if OwnStep(e) {
      AllLive(s, e.w);
      LiveNearsRest(s.workers[e.w], e.w, e);
      StepsAfter(s.workers, e.w, Local(s.workers[e.w], e.w, e));
    }
  }

  /** A step of a worker, its parent or its child. */
  predicate OwnStep(e: Event) {
    e.ParentCopies? || e.ParentPosts? || e.WorkerWakes? || e.WorkerAccepts? || e.WorkerForks? || e.ChildAnswers?
    || e.ChildExits? || e.ChildCrashes? || e.WorkerReaps? || e.WorkerDies?
  }

  lemma DeliverSteps(x: Worker, m: Msg)
    ensures Steps(Deliver(x, m)) == Steps(x) + 4
  {
  }

  lemma ReceiveSteps(x: Worker)
    requires x.outbox != []
    ensures Steps(x.(outbox := x.outbox[1..])) == Steps(x)
  {
  }

  /** And there is always a step to take towards it. */
  lemma CallGoesOn(s: State) returns (e: Event, s': State)
    requires Inv(s) && Calling(s)
    ensures Next(s, s', e) && !e.Quits?
    ensures !e.AllReceived? ==> Calling(s') && CallLeft(s') < CallLeft(s)
    ensures e.AllReceived? ==> s'.results == s.results + [s.client.got]
  {
    hide Local, Enabled, SnapshotFirst, Live, Idle, Busy;
    if s.client.Sending? {
      if s.client.next < |s.workers| {
        e := Sends;
        s' := s.(workers := s.workers[s.client.next := Deliver(s.workers[s.client.next], Path(s.client.test))],
                 client := Sending(s.client.test, s.client.next + 1));
      } else {
        e := AllSent;
        s' := s.(client := Receiving(s.client.test, []));
      }
    } else if |s.client.got| == |s.workers| {
      e := AllReceived;
      s' := s.(client := Sending(s.client.test + 1, 0), results := s.results + [s.client.got]);
    } else {
      var w := |s.client.got|;
      var x := s.workers[w];
      AllLive(s, w);
      if x.outbox != [] {
        e := Receives;
        s' := s.(workers := s.workers[w := x.(outbox := x.outbox[1..])],
                 client := Receiving(s.client.test, s.client.got + [x.outbox[0]]));
      } else {
        e := BusyMoves(x, w, s.client.test);
        s' := s.(workers := s.workers[w := Local(x, w, e)]);
      }
    }
    if !e.AllReceived? { CallNearsEnd(s, s', e); }
  }

  /** So every path that is sent is answered: a run that goes on long enough has the result of the call. */
  lemma {:induction false} CallEnds(ss: seq<State>, es: seq<Event>, i: nat, n: nat)
    requires IsRun(ss, es) && i + n <= |es| && Calling(ss[i]) && n >= CallLeft(ss[i])
    ensures exists j :: i <= j < i + n && (es[j].AllReceived? || es[j].Quits?)
    decreases n
  {
    hide Next, Inv, Calling, CallLeft;
    RunInv(ss, es, i);
    CountsFit(ss[i]);
    assert Next(ss[i], ss[i + 1], es[i]);
    if !es[i].AllReceived? && !es[i].Quits? {
      CallNearsEnd(ss[i], ss[i + 1], es[i]);
      CallEnds(ss, es, i + 1, n - 1);
    }
  }

  // ---- the kill message ----

  /** What is left to do for a worker once the kill message is on its way. */
  function Left(x: Worker): nat {
    if x.phase.Dead? then 0
    else (match x.phase case Asleep => 6 case Listening => 5 case Waiting => 3 case _ => 1)
         + (match x.child case Answered(_) => 1 case _ => 0)
  }

  /** A killed worker that is not dead can take a step of its own. */
  lemma KilledMoves(x: Worker, w: nat, t: nat) returns (e: Event)
    requires SnapshotFirst(x) && Killed(x, w, t) && !x.phase.Dead?
    ensures Enabled(x, e) && (e.WorkerAccepts? || e.ChildExits? || e.WorkerReaps? || e.WorkerDies?) && e.w == w
  {
    e := if x.phase.Listening? then WorkerAccepts(w)
    else if x.phase.Ready? then WorkerDies(w)
    else if x.child.Answered? then ChildExits(w)
    else WorkerReaps(w);
  }

  /** And every step it can take brings its end nearer. */
  lemma KilledNearsEnd(x: Worker, w: nat, t: nat, e: Event)
    requires SnapshotFirst(x) && Killed(x, w, t) && Enabled(x, e)
    ensures Left(Local(x, w, e)) < Left(x)
  {
  }

  function TotalLeft(ws: seq<Worker>): nat {
    if ws == [] then 0 else TotalLeft(ws[..|ws| - 1]) + Left(ws[|ws| - 1])
  }

  lemma {:induction false} TotalAfter(ws: seq<Worker>, w: nat, y: Worker)
    requires w < |ws|
    ensures TotalLeft(ws[w := y]) == TotalLeft(ws) - Left(ws[w]) + Left(y)
  {
    var n := |ws| - 1;
    if w < n {
      assert ws[w := y][..n] == ws[..n][w := y];
      TotalAfter(ws[..n], w, y);
    } else {
      assert ws[w := y][..n] == ws[..n];
    }
  }

  /** Once the client is done every step, whichever it is, leaves less to do. */
  lemma EveryStepNearsEnd(ss: seq<State>, es: seq<Event>, i: nat)
    requires IsRun(ss, es) && i < |es| && ss[i].client.Done?
    ensures ss[i + 1].client.Done? && TotalLeft(ss[i + 1].workers) < TotalLeft(ss[i].workers)
  {
    hide Local, Enabled, Killed, SnapshotFirst, Left;
    RunInv(ss, es, i);
    var s, e := ss[i], es[i];
    assert Next(s, ss[i + 1], e);
    OnlyLocal(s, ss[i + 1], e);
    var x := s.workers[e.w];
    assert WorkerOK(x, e.w, s.client, |s.results|);
    KilledNearsEnd(x, e.w, |s.results|, e);
    TotalAfter(s.workers, e.w, Local(x, e.w, e));
  }

  lemma OnlyLocal(s: State, s': State, e: Event)
    requires Next(s, s', e) && s.client.Done?
    ensures OwnStep(e)
    ensures e.w < |s.workers| && Enabled(s.workers[e.w], e)
      && s' == s.(workers := s.workers[e.w := Local(s.workers[e.w], e.w, e)])
  {
  }

  /** And as long as a worker lives there is a step to take: the kill message ends every worker. */
  lemma KillEndsWorkers(ss: seq<State>, es: seq<Event>, i: nat, w: nat) returns (e: Event, s': State)
    requires IsRun(ss, es) && i < |ss| && ss[i].client.Done? && w < |ss[i].workers| && !ss[i].workers[w].phase.Dead?
    ensures Next(ss[i], s', e) && TotalLeft(s'.workers) < TotalLeft(ss[i].workers)
  {
    hide Local, Enabled, Killed, SnapshotFirst, Left;
    RunInv(ss, es, i);
    var s := ss[i];
    var x := s.workers[w];
    assert WorkerOK(x, w, s.client, |s.results|);
    e := KilledMoves(x, w, |s.results|);
    s' := s.(workers := s.workers[w := Local(x, w, e)]);
    KilledNearsEnd(x, w, |s.results|, e);
    TotalAfter(s.workers, w, Local(x, w, e));
  }
}
