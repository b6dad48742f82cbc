/**
 The cancellation watcher (dm/m.go:498-511, 765-857). A caller announces a
 context before each operation and withdraws it afterwards; a watcher goroutine
 closes the connection if that context is cancelled in between. They share a
 one-slot channel, a rendezvous channel, a close channel and an atomic flag.

 Each step below is one atomic action of one goroutine, so a run is any
 interleaving. A watch is numbered: announcing the same context twice gives two
 watches.
 */
module Watcher {

  type Ctx = nat
  type Watch = nat

  /** The watcher goroutine: at the outer select, at the inner select, inside
      `cancel` before TrySet, inside `close` after winning TrySet, returned. */
  datatype WatcherPc = NotStarted | Idle | Watching(w: Watch) | Cancelling(w: Watch) | Closing(w: Watch) | Exited

  /** The goroutine using the connection: between calls, about to send on the
      watcher channel, at the select of `finish`, inside `close` after TrySet. */
  datatype CallerPc = Ready | Sending(w: Watch) | Finishing | CallerClosing

  datatype Cause = ByWatcher(w: Watch) | ByOther

  datatype State = State(
    watching: bool,
    slot: seq<Watch>,
    watcher: WatcherPc,
    caller: CallerPc,
    closed: bool,
    others: nat,
    closechClosed: bool,
    closes: nat,
    cause: seq<Cause>,
    contexts: seq<Ctx>,
    cancelled: set<Ctx>,
    finished: set<Watch>)

  const Initial := State(false, [], NotStarted, Ready, false, 0, false, 0, [], [], {}, {})

  datatype Step =
    | StartWatcher
    | WatchCancel(ctx: Ctx, done: bool)
    | Send
    | FinishEnter
    | HandOver
    | FinishClosed
    | CallerClose
    | CallerCloseChannel
    | Take
    | Fire
    | CancelTrySet
    | WatcherCloseChannel
    | Exit
    | OtherTrySet
    | OtherCloseChannel
    | CancelContext(ctx: Ctx)

  /** `close(closech)`: a second close of the channel would panic. */
  function CloseChannel(s: State, cause: Cause): State {
    s.(closechClosed := true, closes := s.closes + 1, cause := s.cause + [cause])
  }

  /** When a step can be taken; the rest of the guard of a blocking operation. */
  predicate Enabled(s: State, step: Step) {
    match step
    case StartWatcher => s.watcher.NotStarted? && s.caller.Ready?
    case WatchCancel(_, _) => s.caller.Ready?
    case Send => s.caller.Sending? && |s.slot| < 1
    case FinishEnter => s.caller.Ready?
    case HandOver => s.caller.Finishing? && s.watcher.Watching?
    case FinishClosed => s.caller.Finishing? && s.closechClosed
    case CallerClose => s.caller.Ready?
    case CallerCloseChannel => s.caller.CallerClosing?
    case Take => s.watcher.Idle? && s.slot != []
    case Fire => s.watcher.Watching? && s.watcher.w < |s.contexts| && s.contexts[s.watcher.w] in s.cancelled
    case CancelTrySet => s.watcher.Cancelling?
    case WatcherCloseChannel => s.watcher.Closing?
    case Exit => (s.watcher.Idle? || s.watcher.Watching?) && s.closechClosed
    case OtherTrySet => true
    case OtherCloseChannel => s.others > 0
    case CancelContext(_) => true
  }

  function Apply(s: State, step: Step): State
    requires Enabled(s, step)
  {
    match step
    case StartWatcher => s.(watcher := Idle)
    case WatchCancel(ctx, done) =>
      if s.watching then
        // cleanup: close the connection
        if s.closed then s else s.(closed := true, caller := CallerClosing)
      else if ctx in s.cancelled || !done || s.watcher.NotStarted? then s
      else s.(watching := true, contexts := s.contexts + [ctx], caller := Sending(|s.contexts|))
    case Send => s.(slot := s.slot + [s.caller.w], caller := Ready)
    case FinishEnter => if !s.watching || s.watcher.NotStarted? then s else s.(caller := Finishing)
    case HandOver => s.(watching := false, caller := Ready, watcher := Idle, finished := s.finished + {s.watcher.w})
    case FinishClosed => s.(caller := Ready)
    case CallerClose => if s.closed then s else s.(closed := true, caller := CallerClosing)
    case CallerCloseChannel => CloseChannel(s, ByOther).(caller := Ready)
    case Take => s.(watcher := Watching(s.slot[0]), slot := s.slot[1..])
    case Fire => s.(watcher := Cancelling(s.watcher.w))
    case CancelTrySet => if s.closed then s.(watcher := Idle) else s.(closed := true, watcher := Closing(s.watcher.w))
    case WatcherCloseChannel => CloseChannel(s, ByWatcher(s.watcher.w)).(watcher := Idle)
    case Exit => s.(watcher := Exited)
    case OtherTrySet => if s.closed then s else s.(closed := true, others := s.others + 1)
    case OtherCloseChannel => CloseChannel(s, ByOther).(others := s.others - 1)
    case CancelContext(ctx) => s.(cancelled := s.cancelled + {ctx})
  }

  // ---------- runs ----------

  /** The steps can be taken one after another from s. */
  predicate Runs(s: State, steps: seq<Step>)
    decreases |steps|
  {
    steps == [] || (Enabled(s, steps[0]) && Runs(Apply(s, steps[0]), steps[1..]))
  }

  function After(s: State, steps: seq<Step>): State
    requires Runs(s, steps)
    decreases |steps|
  {
    if steps == [] then s else After(Apply(s, steps[0]), steps[1..])
  }

  // ---------- the invariant ----------

  /** The watcher goroutine has taken a watch and not yet let go of it. */
  predicate Busy(s: State) { s.watcher.Watching? || s.watcher.Cancelling? || s.watcher.Closing? }

  /** How many watches are announced and not yet withdrawn or acted upon. */
  function Outstanding(s: State): nat {
    (if s.caller.Sending? then 1 else 0) + |s.slot| + (if Busy(s) then 1 else 0)
  }

  /** Goroutines that have won TrySet and not yet closed the channel. */
  function Pending(s: State): nat {
    s.others + (if s.caller.CallerClosing? then 1 else 0) + (if s.watcher.Closing? then 1 else 0)
  }

  /** The protocol's own state. */
  ghost predicate Shape(s: State) {
    && Outstanding(s) <= 1
    && (Outstanding(s) == 1 ==> s.watching)
    && (s.watching && Outstanding(s) == 0 ==> s.closed)
    && (s.watching ==> !s.watcher.NotStarted?)
    && (s.caller.Finishing? ==> s.watching)
    && s.closes + Pending(s) == (if s.closed then 1 else 0)
    && (s.closechClosed <==> s.closes == 1)
    && (s.watcher.Exited? ==> s.closechClosed)
  }

  /** Whatever is outstanding is the watch announced last, and was not withdrawn. */
  ghost predicate Current(s: State) {
    && (s.caller.Sending? ==> s.caller.w == |s.contexts| - 1)
    && (s.slot != [] ==> s.slot[0] == |s.contexts| - 1)
    && (Busy(s) ==> s.watcher.w == |s.contexts| - 1)
    && (Outstanding(s) == 1 ==> |s.contexts| >= 1 && |s.contexts| - 1 !in s.finished)
    && (forall w :: w in s.finished ==> w < |s.contexts|)
    && (s.watcher.Cancelling? || s.watcher.Closing? ==> s.contexts[s.watcher.w] in s.cancelled)
  }

  /** Why the connection was closed. */
  ghost predicate Blame(s: State) {
    && |s.cause| == s.closes
    && (forall i :: 0 <= i < |s.cause| && s.cause[i].ByWatcher? ==> FairlyClosed(s, s.cause[i].w))
  }

  ghost predicate FairlyClosed(s: State, w: Watch) {
    w !in s.finished && w < |s.contexts| && s.contexts[w] in s.cancelled && s.watching && Outstanding(s) == 0
  }

  ghost predicate Inv(s: State) { Shape(s) && Current(s) && Blame(s) }

  lemma InvInitial()
    ensures Inv(Initial)
  {}

  lemma ShapeStep(s: State, step: Step)
    requires Shape(s) && Enabled(s, step)
    ensures Shape(Apply(s, step))
  {}

  lemma CurrentStep(s: State, step: Step)
    requires Shape(s) && Current(s) && Enabled(s, step)
    ensures Current(Apply(s, step))
  {}

  lemma BlameStep(s: State, step: Step)
    requires Inv(s) && Enabled(s, step)
    ensures Blame(Apply(s, step))
  {
    var t := Apply(s, step);
    forall i | 0 <= i < |t.cause| && t.cause[i].ByWatcher? ensures FairlyClosed(t, t.cause[i].w) {
      if i < |s.cause| {
        assert t.cause[i] == s.cause[i];
        assert FairlyClosed(s, s.cause[i].w);
      }
    }
  }

  lemma InvStep(s: State, step: Step)
    requires Inv(s) && Enabled(s, step)
    ensures Inv(Apply(s, step))
  {
    ShapeStep(s, step);
    CurrentStep(s, step);
    BlameStep(s, step);
  }

  lemma {:induction false} InvRuns(s: State, steps: seq<Step>)
    requires Inv(s) && Runs(s, steps)
    ensures Inv(After(s, steps))
    decreases |steps|
  {
    if steps != [] {
      InvStep(s, steps[0]);
      InvRuns(Apply(s, steps[0]), steps[1..]);
    }
  }

  // ---------- safety over every run ----------

  ghost predicate Reachable(s: State) {
    exists steps :: Runs(Initial, steps) && After(Initial, steps) == s
  }

  lemma ReachableInv(s: State)
    requires Reachable(s)
    ensures Inv(s)
  {
    var steps :| Runs(Initial, steps) && After(Initial, steps) == s;
    InvInitial();
    InvRuns(Initial, steps);
  }

  /** In every interleaving: at most one watch is outstanding, announcing it never
      blocks, and the close channel is closed at most once, by the one goroutine
      that won TrySet. */
  lemma Safety(s: State)
    requires Reachable(s)
    ensures Outstanding(s) <= 1
    ensures s.caller.Sending? ==> Enabled(s, Send)
    ensures s.closes <= 1 && Pending(s) <= 1
    ensures s.closes + Pending(s) == 1 <==> s.closed
    ensures s.caller.CallerClosing? || s.watcher.Closing? || s.others > 0 ==> !s.closechClosed
  {
    ReachableInv(s);
  }

  /** A watch that was withdrawn never closes the connection: the watcher closes
      it only for a cancelled context whose watch was not handed over, and then
      only while the caller still counts as watching. */
  lemma OnlyLiveWatchCloses(s: State)
    requires Reachable(s)
    ensures forall i :: 0 <= i < |s.cause| && s.cause[i].ByWatcher? ==>
      s.cause[i].w !in s.finished && s.cause[i].w < |s.contexts| && s.contexts[s.cause[i].w] in s.cancelled
    ensures (s.watcher.Cancelling? || s.watcher.Closing?) ==> s.watcher.w !in s.finished
  {
    ReachableInv(s);
    forall i | 0 <= i < |s.cause| && s.cause[i].ByWatcher? ensures FairlyClosed(s, s.cause[i].w) {}
  }

  /** Steps that belong to the caller between and inside its own calls. */
  predicate CallerStep(step: Step) {
    step.StartWatcher? || step.WatchCancel? || step.Send? || step.FinishEnter? || step.HandOver?
    || step.FinishClosed? || step.CallerClose? || step.CallerCloseChannel?
  }

  /** After a hand-over, and until the caller announces another context, whatever
      contexts are cancelled and however the goroutines interleave, the watcher
      does not close the connection. */
  lemma {:induction false} LateCancelIsHarmless(s: State, steps: seq<Step>)
    requires Inv(s) && !s.watching
    requires Runs(s, steps)
    requires forall i :: 0 <= i < |steps| ==> !steps[i].WatchCancel?
    ensures var t := After(s, steps);
      !t.watching && s.cause <= t.cause && forall i :: |s.cause| <= i < |t.cause| ==> t.cause[i] == ByOther
    decreases |steps|
  {
    if steps != [] {
      InvStep(s, steps[0]);
      var s' := Apply(s, steps[0]);
      assert !s'.watching;
      assert Outstanding(s) == 0;
      assert s'.cause == s.cause || s'.cause == s.cause + [ByOther];
      LateCancelIsHarmless(s', steps[1..]);
    }
  }

  // ---------- finish never hangs ----------

  /** How many steps of the others can still come before `finish` must find the
      close channel closed. */
  function Distance(s: State): nat {
    (match s.watcher
     case Idle => if s.slot != [] then 6 else 0
     case Watching(_) => 5
     case Cancelling(_) => 4
     case Closing(_) => 2
     case NotStarted => 0
     case Exited => 0)
    + s.others + (if s.closed then 0 else 2)
  }

  /** At the select of `finish`: a hand-over or a closed channel lets it go on, or
      else another goroutine can take a step that brings it closer. */
  lemma FinishProgress(s: State)
    requires Inv(s) && s.caller.Finishing?
    ensures Enabled(s, HandOver) || Enabled(s, FinishClosed)
      || (exists step :: !CallerStep(step) && Enabled(s, step) && Distance(Apply(s, step)) < Distance(s))
  {
    if !Enabled(s, HandOver) && !Enabled(s, FinishClosed) {
      var step := if s.watcher.Idle? && s.slot != [] then Take
                  else if s.watcher.Cancelling? then CancelTrySet
                  else if s.watcher.Closing? then WatcherCloseChannel
                  else OtherCloseChannel;
      assert !CallerStep(step) && Enabled(s, step) && Distance(Apply(s, step)) < Distance(s);
    }
  }

  /** While the caller waits there, every step of another goroutine brings the end
      closer, except cancelling a context, a TrySet that is lost, and the watcher
      leaving through the closed channel that lets `finish` go on as well. So
      `finish` cannot be kept waiting for ever. */
  lemma FinishNotStarved(s: State, step: Step)
    requires Inv(s) && s.caller.Finishing? && Enabled(s, step) && !CallerStep(step)
    ensures var t := Apply(s, step);
      && t.caller.Finishing?
      && (Distance(t) < Distance(s) || t == s || step.CancelContext? || (step.Exit? && Enabled(t, FinishClosed)))
  {}

  /** From every reachable wait, a few steps of the others let `finish` return. */
  lemma {:induction false} FinishReturns(s: State) returns (steps: seq<Step>)
    requires Inv(s) && s.caller.Finishing?
    ensures Runs(s, steps) && After(s, steps).caller.Ready?
    ensures forall i :: 0 <= i < |steps| - 1 ==> !CallerStep(steps[i])
    decreases Distance(s)
  {
    if Enabled(s, HandOver) {
      steps := [HandOver];
      assert steps[1..] == [];
    } else if Enabled(s, FinishClosed) {
      steps := [FinishClosed];
      assert steps[1..] == [];
    } else {
      FinishProgress(s);
      var step :| !CallerStep(step) && Enabled(s, step) && Distance(Apply(s, step)) < Distance(s);
      InvStep(s, step);
      var rest := FinishReturns(Apply(s, step));
      steps := [step] + rest;
      assert steps[1..] == rest;
      assert rest != [];
      forall i | 0 <= i < |steps| - 1 ensures !CallerStep(steps[i]) {
        if i > 0 { assert steps[i] == rest[i - 1]; }
      }
    }
  }

  // ---------- cancelling has an effect ----------

  /** Between calls of a live connection: nothing is watched and the watcher waits. */
  ghost predicate Resting(s: State) {
    Inv(s) && s.caller.Ready? && s.watcher.Idle? && !s.watching && !s.closed
  }

  lemma RunStep(s: State, step: Step, rest: seq<Step>)
    requires Enabled(s, step) && Runs(Apply(s, step), rest)
    ensures Runs(s, [step] + rest) && After(s, [step] + rest) == After(Apply(s, step), rest)
  {
    assert ([step] + rest)[1..] == rest;
  }

  /** Steps of the caller's send and of the watcher goroutine. */
  predicate WatchStep(step: Step) {
    step.Send? || step.Take? || step.Fire? || step.CancelTrySet? || step.WatcherCloseChannel?
  }

  /** Wherever an announced watch is - about to be sent, in the channel, or taken by
      the watcher - once its context is cancelled, a few steps close the connection
      on its account, if nobody else has. */
  lemma {:induction false} CancelledWatchCloses(s: State) returns (steps: seq<Step>)
    requires Inv(s) && !s.closed && Outstanding(s) == 1 && s.contexts[|s.contexts| - 1] in s.cancelled
    ensures Runs(s, steps) && forall i :: 0 <= i < |steps| ==> WatchStep(steps[i])
    ensures var t := After(s, steps);
      t.closechClosed && t.cause == s.cause + [ByWatcher(|s.contexts| - 1)] && t.contexts == s.contexts
    decreases if s.caller.Sending? then 4 else if s.slot != [] then 3 else if s.watcher.Watching? then 2
              else if s.watcher.Cancelling? then 1 else 0
  {
    var step := if s.caller.Sending? then Send
                else if s.slot != [] then Take
                else if s.watcher.Watching? then Fire
                else CancelTrySet;
    InvStep(s, step);
    var t := Apply(s, step);
    var rest: seq<Step>;
    if step == CancelTrySet {
      rest := [WatcherCloseChannel];
      assert rest[1..] == [];
      assert Runs(t, rest);
    } else {
      rest := CancelledWatchCloses(t);
    }
    RunStep(s, step, rest);
    steps := [step] + rest;
  }

  /** Announcing a live context between calls puts it on the way to the watcher. */
  lemma LiveContextIsWatched(s: State, ctx: Ctx)
    requires Resting(s) && ctx !in s.cancelled
    ensures Enabled(s, WatchCancel(ctx, true))
    ensures var t := Apply(s, WatchCancel(ctx, true));
      && Inv(t) && !t.closed && t.watching && Outstanding(t) == 1
      && t.contexts == s.contexts + [ctx] && t.cancelled == s.cancelled && t.cause == s.cause
  {
    InvStep(s, WatchCancel(ctx, true));
  }

  /** So a context cancelled while its call is running closes the connection, and the
      close is put down to the watch of that call. */
  lemma CancelCloses(s: State, ctx: Ctx) returns (steps: seq<Step>)
    requires Resting(s) && ctx !in s.cancelled
    ensures var run := [WatchCancel(ctx, true), CancelContext(ctx)] + steps;
      && Runs(s, run) && (forall i :: 0 <= i < |steps| ==> WatchStep(steps[i]))
      && After(s, run).closechClosed && After(s, run).cause == s.cause + [ByWatcher(|s.contexts|)]
  {
    LiveContextIsWatched(s, ctx);
    var t := Apply(s, WatchCancel(ctx, true));
    InvStep(t, CancelContext(ctx));
    var u := Apply(t, CancelContext(ctx));
    steps := CancelledWatchCloses(u);
    RunStep(t, CancelContext(ctx), steps);
    RunStep(s, WatchCancel(ctx, true), [CancelContext(ctx)] + steps);
    assert [WatchCancel(ctx, true)] + ([CancelContext(ctx)] + steps) == [WatchCancel(ctx, true), CancelContext(ctx)] + steps;
  }

  /** A watch in the channel, with its context cancelled. */
  lemma SentWatchCloses(s: State)
    requires Inv(s) && !s.closed && s.watcher.Idle? && s.slot != [] && s.contexts[|s.contexts| - 1] in s.cancelled
    ensures var run := [Take, Fire, CancelTrySet, WatcherCloseChannel];
      && Runs(s, run) && After(s, run).closechClosed
      && After(s, run).cause == s.cause + [ByWatcher(|s.contexts| - 1)]
  {
    var s1 := Apply(s, Take);
    var s2 := Apply(s1, Fire);
    var s3 := Apply(s2, CancelTrySet);
    RunStep(s3, WatcherCloseChannel, []);
    RunStep(s2, CancelTrySet, [WatcherCloseChannel]);
    RunStep(s1, Fire, [CancelTrySet, WatcherCloseChannel]);
    RunStep(s, Take, [Fire, CancelTrySet, WatcherCloseChannel]);
  }

  lemma RestingSlot(s: State)
    requires Resting(s)
    ensures s.slot == []
  {}

  /** The same with the watch sent before its context is cancelled, step by step. */
  lemma CancelDuringCall(s: State, ctx: Ctx)
    requires Resting(s) && ctx !in s.cancelled
    ensures var run := [WatchCancel(ctx, true), Send, CancelContext(ctx), Take, Fire, CancelTrySet, WatcherCloseChannel];
      && Runs(s, run) && After(s, run).closechClosed
      && After(s, run).cause == s.cause + [ByWatcher(|s.contexts|)]
  {
    RestingSlot(s);
    hide Runs, After, Inv;
    var s1 := Apply(s, WatchCancel(ctx, true));
    var s2 := Apply(s1, Send);
    var s3 := Apply(s2, CancelContext(ctx));
    InvStep(s, WatchCancel(ctx, true));
    InvStep(s1, Send);
    InvStep(s2, CancelContext(ctx));
    SentWatchCloses(s3);
    var rest := [Take, Fire, CancelTrySet, WatcherCloseChannel];
    RunStep(s2, CancelContext(ctx), rest);
    RunStep(s1, Send, [CancelContext(ctx)] + rest);
    RunStep(s, WatchCancel(ctx, true), [Send] + ([CancelContext(ctx)] + rest));
    assert [WatchCancel(ctx, true)] + ([Send] + ([CancelContext(ctx)] + rest))
      == [WatchCancel(ctx, true), Send, CancelContext(ctx), Take, Fire, CancelTrySet, WatcherCloseChannel];
  }

  /** A call whose context stays live ends as it began: after the hand-over nothing is
      watched, nothing was closed, and the next call can be watched. */
  lemma LiveCallLeavesNothing(s: State, ctx: Ctx)
    requires Resting(s) && ctx !in s.cancelled
    ensures var run := [WatchCancel(ctx, true), Send, Take, FinishEnter, HandOver];
      && Runs(s, run) && Resting(After(s, run))
      && After(s, run) == s.(contexts := s.contexts + [ctx], finished := s.finished + {|s.contexts|})
  {
    var s1 := Apply(s, WatchCancel(ctx, true));
    var s2 := Apply(s1, Send);
    var s3 := Apply(s2, Take);
    var s4 := Apply(s3, FinishEnter);
    RunStep(s4, HandOver, []);
    RunStep(s3, FinishEnter, [HandOver]);
    RunStep(s2, Take, [FinishEnter, HandOver]);
    RunStep(s1, Send, [Take, FinishEnter, HandOver]);
    RunStep(s, WatchCancel(ctx, true), [Send, Take, FinishEnter, HandOver]);
    InvRuns(s, [WatchCancel(ctx, true), Send, Take, FinishEnter, HandOver]);
  }

  /** A context that is already cancelled, or cannot be, is not watched; nor is any
      before the watcher goroutine is started. */
  lemma NothingToWatch(s: State, ctx: Ctx, done: bool)
    requires Inv(s) && s.caller.Ready? && !s.watching
    requires ctx in s.cancelled || !done || s.watcher.NotStarted?
    ensures Apply(s, WatchCancel(ctx, done)) == s
  {}

  /** Announcing while a watch is still on closes the connection instead. */
  lemma SecondWatchCloses(s: State, ctx: Ctx, done: bool)
    requires Inv(s) && s.caller.Ready? && s.watching && !s.closed
    ensures var run := [WatchCancel(ctx, done), CallerCloseChannel];
      && Runs(s, run) && After(s, run).closechClosed
      && After(s, run).cause == s.cause + [ByOther] && After(s, run).contexts == s.contexts
  {
    var s1 := Apply(s, WatchCancel(ctx, done));
    RunStep(s1, CallerCloseChannel, []);
    RunStep(s, WatchCancel(ctx, done), [CallerCloseChannel]);
  }

  /** Whoever closes an open connection, the close takes effect, and once it has, the
      watcher goroutine can leave and `finish` can return. */
  lemma CloseReachesAll(s: State)
    requires Inv(s) && !s.closed
    ensures s.caller.Ready? ==>
      Runs(s, [CallerClose, CallerCloseChannel]) && After(s, [CallerClose, CallerCloseChannel]).closechClosed
    ensures Runs(s, [OtherTrySet, OtherCloseChannel]) && After(s, [OtherTrySet, OtherCloseChannel]).closechClosed
  {
    if s.caller.Ready? {
      RunStep(Apply(s, CallerClose), CallerCloseChannel, []);
      RunStep(s, CallerClose, [CallerCloseChannel]);
    }
    RunStep(Apply(s, OtherTrySet), OtherCloseChannel, []);
    RunStep(s, OtherTrySet, [OtherCloseChannel]);
  }

  lemma ClosedLetsGo(s: State)
    requires Inv(s) && s.closechClosed
    ensures s.watcher.Idle? || s.watcher.Watching? ==> Enabled(s, Exit) && Apply(s, Exit).watcher == Exited
    ensures s.caller.Finishing? ==> Enabled(s, FinishClosed) && Apply(s, FinishClosed).caller == Ready
  {}
}
