/** How the pipe's errors are reported: on whose account, too early, and too late. */
module PipeErrors {
  import opened PipeModel

  // ---------------------------------------------------------------- on whose account

  /** A completion adds one entry to the history. */
  predicate Completes(p: Pipe, q: Pipe) {
    |q.done| == |p.done| + 1 && q.done[..|p.done|] == p.done
  }

  /** An adder event that completes the pipe does so on the adder's account exactly if it carries
      no error of its own; its own error is put down to the consumer. */
  lemma AdderErrorIsConsumers(p: Pipe, error: int, replies: seq<AddReply>, sent: bool)
    requires |replies| >= p.maxLoops
    ensures var q := OnAdderEvent(p, error, replies, sent);
            q.done != p.done ==> Completes(p, q) && (q.done[|p.done|].source == Adder <==> error == 0)
    ensures error != 0 ==>
              OnAdderEvent(p, error, replies, sent).done
              == p.done + [Completion(error, Consumer, p.buffer, p.consumerError == ENODATA, p.waitForEmpty)]
  {
    hide AddLoop;
    AddKeepsHistory(p.(waitingForAdder := false), replies, 0);
  }

  /** A consumer event completes it on the consumer's account only. */
  lemma ConsumerErrorIsConsumers(p: Pipe, error: int, replies: seq<ConsumeReply>, sent: bool)
    requires |replies| >= p.maxLoops
    ensures var q := OnConsumerEvent(p, error, replies, sent);
            q.done != p.done ==> Completes(p, q) && q.done[|p.done|].source == Consumer
  {
    hide ConsumeLoop;
    ConsumeKeepsHistory(p.(waitingForConsumer := false), replies, 0);
  }

  // ---------------------------------------------------------------- too early

  /** Reported without an error although there are bytes left that were to be consumed first. */
  predicate Unflushed(c: Completion) {
    Reported(c.error) == 0 && c.waited && c.leftover != [] && !c.starving
  }

  /** What decides an adder event is -ESHUTDOWN: its own error, an error left from before, or the
      first answer of the adder; and there are bytes to be flushed. */
  predicate ShutdownStrikes(p: Pipe, error: int, replies: seq<AddReply>)
    requires |replies| >= p.maxLoops
  {
    if error != 0 || p.adderError != 0 then
      && (if error != 0 then error else p.adderError) == -ESHUTDOWN
      && p.buffer != [] && p.waitForEmpty && p.consumerError != ENODATA
    else
      && p.maxLoops > 0 && Attached(p) && p.consumerError != ENODATA
      && replies[0].error == -ESHUTDOWN && !replies[0].dropConsumer
      && p.buffer + replies[0].bytes != [] && (p.waitForEmpty || replies[0].dropAdder)
  }

  /** After the first round of the loop a shutdown is deferred. */
  lemma {:induction false} LaterShutdownWaits(p: Pipe, replies: seq<AddReply>, loop: nat)
    requires |replies| >= p.maxLoops && loop > 0
    ensures var r := AddLoop(p, replies, loop);
            !r.goOn ==> r.pipe.adderError != -ESHUTDOWN
    decreases p.maxLoops - loop
  {
    hide Added;
    if p.hasAdder && loop < p.maxLoops && Added(p, replies[loop]).adderError == 0 {
      OneAdd(p, replies[loop], loop);
      LaterShutdownWaits(Added(p, replies[loop]), replies, loop + 1);
    }
  }

  /** The first round, when it is not followed by another one. */
  lemma FirstRound(p: Pipe, replies: seq<AddReply>)
    requires |replies| >= p.maxLoops && p.adderError == 0
    requires p.hasAdder && p.maxLoops > 0
    requires var p1 := Added(p, replies[0]); !p1.hasConsumer || p1.adderError != 0
    ensures var r := AddLoop(p, replies, 0);
            ShutdownStrikes(p, 0, replies) <==>
              && !r.goOn && r.pipe.adderError == -ESHUTDOWN
              && r.pipe.buffer != [] && r.pipe.waitForEmpty && r.pipe.consumerError != ENODATA
  {
    var p1 := Added(p, replies[0]);
    assert p1.hasConsumer == (p.hasConsumer && !replies[0].dropConsumer);
  }

  lemma ShutdownEndsAdding(p: Pipe, replies: seq<AddReply>)
    requires |replies| >= p.maxLoops && p.adderError == 0
    ensures var r := AddLoop(p, replies, 0);
            ShutdownStrikes(p, 0, replies) <==>
              && !r.goOn && Reported(r.pipe.adderError) == 0
              && r.pipe.buffer != [] && r.pipe.waitForEmpty && r.pipe.consumerError != ENODATA
  {
    EndOfFile(p, replies, 0);
    if p.hasAdder && p.maxLoops > 0 {
      var p1 := Added(p, replies[0]);
      if p1.hasConsumer && p1.adderError == 0 {
        OneAdd(p, replies[0], 0);
        LaterShutdownWaits(p1, replies, 1);
      } else {
        FirstRound(p, replies);
      }
    }
  }

  /** Exactly then an adder event completes the pipe without a reported error over bytes that
      were to be flushed. */
  lemma ShutdownSkipsFlush(p: Pipe, error: int, replies: seq<AddReply>, sent: bool)
    requires |replies| >= p.maxLoops
    ensures var q := OnAdderEvent(p, error, replies, sent);
            (Completes(p, q) && Unflushed(q.done[|p.done|])) <==> ShutdownStrikes(p, error, replies)
  {
    hide AddLoop;
    var p1 := p.(waitingForAdder := false);
    AddKeepsHistory(p1, replies, 0);
    if error == 0 && p.adderError == 0 {
      ShutdownEndsAdding(p1, replies);
      assert ShutdownStrikes(p1, 0, replies) == ShutdownStrikes(p, 0, replies);
    }
  }

  /** An event whose own error and whose answers by the adder are no shutdowns. */
  predicate Quiet(e: Event) {
    e.AdderEvent? ==> e.error != -ESHUTDOWN && forall r :: r in e.adds ==> r.error != -ESHUTDOWN
  }

  lemma {:induction false} AddingStaysQuiet(p: Pipe, replies: seq<AddReply>, loop: nat)
    requires |replies| >= p.maxLoops && p.adderError != -ESHUTDOWN
    requires forall r :: r in replies ==> r.error != -ESHUTDOWN
    ensures AddLoop(p, replies, loop).pipe.adderError != -ESHUTDOWN
    decreases p.maxLoops - loop
  {
    hide Dropping;
    if p.hasAdder && loop < p.maxLoops {
      assert replies[loop] in replies;
      OneAdd(p, replies[loop], loop);
      AddingStaysQuiet(Added(p, replies[loop]), replies, loop + 1);
    }
  }

  lemma {:induction false} ConsumingStaysQuiet(p: Pipe, replies: seq<ConsumeReply>, loop: nat)
    requires |replies| >= p.maxLoops && p.adderError != -ESHUTDOWN
    ensures ConsumeLoop(p, replies, loop).pipe.adderError != -ESHUTDOWN
    decreases p.maxLoops - loop
  {
    hide Consumed, ConsumeVerdict;
    if p.hasConsumer && p.buffer != [] && loop < p.maxLoops {
      OneConsumeKeeps(p, replies[loop]);
      OneConsumeKeeps(Consumed(p, replies[loop]), replies[loop]);
      ConsumingStaysQuiet(Consumed(p, replies[loop]), replies, loop + 1);
    }
  }

  predicate QuietHistory(p: Pipe) {
    && p.adderError != -ESHUTDOWN
    && forall i :: 0 <= i < |p.done| && p.done[i].source == Adder ==> !Unflushed(p.done[i])
  }

  lemma DoneStaysQuiet(p: Pipe, error: int, source: Source)
    requires QuietHistory(p)
    requires source == Consumer || !Unflushed(Completion(error, source, p.buffer, p.consumerError == ENODATA, p.waitForEmpty))
    ensures QuietHistory(Done(p, error, source))
  {
  }

  lemma AdderEventStaysQuiet(p: Pipe, error: int, adds: seq<AddReply>, sent: bool)
    requires |adds| >= p.maxLoops && QuietHistory(p)
    requires error != -ESHUTDOWN && forall r :: r in adds ==> r.error != -ESHUTDOWN
    ensures QuietHistory(OnAdderEvent(p, error, adds, sent))
  {
    hide AddLoop, Done;
    var p1 := p.(waitingForAdder := false);
    if error != 0 {
      DoneStaysQuiet(p, error, Consumer);
    } else {
      AddKeepsHistory(p1, adds, 0);
      AddingStaysQuiet(p1, adds, 0);
      EndOfFile(p1, adds, 0);
      var r := AddToBuffer(p1, adds);
      if !r.goOn {
        DoneStaysQuiet(r.pipe, r.pipe.adderError, Adder);
      }
    }
  }

  lemma ConsumerEventStaysQuiet(p: Pipe, error: int, consumes: seq<ConsumeReply>, sent: bool)
    requires |consumes| >= p.maxLoops && QuietHistory(p)
    ensures QuietHistory(OnConsumerEvent(p, error, consumes, sent))
  {
    hide ConsumeLoop, Done;
    var p1 := p.(waitingForConsumer := false);
    if error != 0 {
      DoneStaysQuiet(p, error, Consumer);
    } else {
      ConsumeKeepsHistory(p1, consumes, 0);
      ConsumingStaysQuiet(p1, consumes, 0);
      var q := ConsumeLoop(p1, consumes, 0).pipe;
      DoneStaysQuiet(q, q.consumerError, Consumer);
    }
  }

  /** Over every run without shutdowns, what the adder is reported to have ended without an error
      has been flushed, if it was to be, and if the consumer could use it. */
  lemma {:induction false} QuietRunFlushes(maxLoops: nat, events: seq<Event>)
    requires forall e :: e in events ==> Enabled(maxLoops, e) && Quiet(e)
    ensures QuietHistory(Run(maxLoops, events))
    decreases |events|
  {
    hide OnAdderEvent, OnConsumerEvent, QuietHistory;
    if events == [] {
      NewIsQuiet(maxLoops);
    } else {
      var e := events[|events| - 1];
      assert e in events;
      QuietRunFlushes(maxLoops, events[..|events| - 1]);
      var p := Run(maxLoops, events[..|events| - 1]);
      match e
      case AdderEvent(error, adds, sent) => AdderEventStaysQuiet(p, error, adds, sent);
      case ConsumerEvent(error, consumes, sent) => ConsumerEventStaysQuiet(p, error, consumes, sent);
      case ChangeAdder(who, wait) => ChangeStaysQuiet(p, who, wait);
      case ChangeConsumer(who, sent) => ChangeStaysQuiet(p, who, sent);
    }
  }

  lemma NewIsQuiet(maxLoops: nat)
    ensures QuietHistory(NewPipe(maxLoops))
  {
  }

  lemma ChangeStaysQuiet(p: Pipe, who: Who, b: bool)
    requires QuietHistory(p)
    ensures QuietHistory(SetAdder(p, who, b)) && QuietHistory(SetConsumer(p, who, b))
  {
  }

  // ---------------------------------------------------------------- too late

  /** Answers that the adder's loop deals with. */
  predicate IsSignal(e: int) {
    e == 0 || e == EAGAIN || e == ENODATA || e == ENOBUFS
  }

  /** The adder adds something, or says that it did, and leaves both ends attached. */
  predicate GoesWell(r: AddReply) {
    r.error == 0 && !r.dropAdder && !r.dropConsumer
  }

  /** The first answer since `from` that does not go well is the `n`-th one, and it is `e`. */
  predicate FailsAt(replies: seq<AddReply>, from: nat, n: nat, e: int)
    requires n < |replies|
  {
    && (forall i :: from <= i < n ==> GoesWell(replies[i]))
    && replies[n].error == e && !replies[n].dropConsumer
  }

  /** That answer comes before the loop ends, and not in its first round. */
  predicate FailsLate(replies: seq<AddReply>, from: nat, max: nat, e: int)
    requires max <= |replies|
  {
    exists n :: from <= n < max && n > 0 && FailsAt(replies, from, n, e)
  }

  /** An error is deferred if it is none of those, comes after a round that went well, and leaves
      the consumer attached. */
  predicate Defers(p: Pipe, error: int, replies: seq<AddReply>, e: int)
    requires |replies| >= p.maxLoops
  {
    error == 0 && p.adderError == 0 && Attached(p) && !IsSignal(e) && FailsLate(replies, 0, p.maxLoops, e)
  }

  lemma {:induction false} DeferringLoop(p: Pipe, replies: seq<AddReply>, loop: nat, e: int)
    requires |replies| >= p.maxLoops && e != 0 && p.adderError == 0 && Attached(p)
    ensures var r := AddLoop(p, replies, loop);
            r.goOn && r.pipe.adderError == e <==> !IsSignal(e) && FailsLate(replies, loop, p.maxLoops, e)
    decreases p.maxLoops - loop
  {
    hide AddVerdict, FailsLate;
    if loop < p.maxLoops {
      var p1 := Added(p, replies[loop]);
      OneAdd(p, replies[loop], loop);
      FailsStep(replies, loop, p.maxLoops, e);
      if GoesWell(replies[loop]) {
        DeferringLoop(p1, replies, loop + 1, e);
      } else if !p1.hasConsumer || p1.adderError != 0 {
        VerdictDefers(p1, loop, e);
      }
    } else {
      FailsNever(replies, loop, p.maxLoops, e);
    }
  }

  lemma FailsStep(replies: seq<AddReply>, loop: nat, max: nat, e: int)
    requires loop < max <= |replies| && e != 0
    ensures FailsLate(replies, loop, max, e) <==>
              if GoesWell(replies[loop]) then FailsLate(replies, loop + 1, max, e)
              else loop > 0 && replies[loop].error == e && !replies[loop].dropConsumer
  {
    if GoesWell(replies[loop]) {
      if FailsLate(replies, loop, max, e) {
        var n :| loop <= n < max && n > 0 && FailsAt(replies, loop, n, e);
        assert FailsAt(replies, loop + 1, n, e);
      } else if FailsLate(replies, loop + 1, max, e) {
        var n :| loop + 1 <= n < max && n > 0 && FailsAt(replies, loop + 1, n, e);
        assert FailsAt(replies, loop, n, e);
      }
    } else if loop > 0 && replies[loop].error == e && !replies[loop].dropConsumer {
      assert FailsAt(replies, loop, loop, e);
    }
  }

  lemma FailsNever(replies: seq<AddReply>, loop: nat, max: nat, e: int)
    requires max <= |replies| && max <= loop
    ensures !FailsLate(replies, loop, max, e)
  {
  }

  lemma VerdictDefers(p: Pipe, loop: nat, e: int)
    requires e != 0 && (p.adderError != 0 || !p.hasConsumer)
    ensures var v := AddVerdict(p, loop);
            v.goOn && v.pipe.adderError == e <==> p.hasConsumer && p.adderError == e && !IsSignal(e) && loop > 0
  {
  }

  /** Exactly these errors stay in their field when the event is over. */
  lemma DeferredExactly(p: Pipe, error: int, replies: seq<AddReply>, sent: bool, e: int)
    requires |replies| >= p.maxLoops && e != 0
    ensures var q := OnAdderEvent(p, error, replies, sent);
            q.done == p.done && q.adderError == e <==> Defers(p, error, replies, e)
  {
    hide AddLoop, AddVerdict, FailsLate;
    var p1 := p.(waitingForAdder := false);
    AddKeepsHistory(p1, replies, 0);
    if error == 0 && p.adderError == 0 {
      if Attached(p) {
        DeferringLoop(p1, replies, 0, e);
      } else {
        DetachedNeverDefers(p1, replies);
      }
    }
  }

  lemma DetachedNeverDefers(p: Pipe, replies: seq<AddReply>)
    requires |replies| >= p.maxLoops && p.adderError == 0 && !Attached(p)
    ensures var r := AddLoop(p, replies, 0);
            r.goOn ==> r.pipe.adderError == 0
  {
  }

  // ---------------------------------------------------------------- what becomes of a deferred error

  /** While consuming, the adder is detached, or the consumer ends the pipe. */
  predicate ConsumeLoses(p: Pipe, replies: seq<ConsumeReply>, loop: nat)
    requires |replies| >= p.maxLoops
    decreases p.maxLoops - loop
  {
    && p.hasConsumer && p.buffer != [] && loop < p.maxLoops
    && var r := replies[loop];
       || (r.dropAdder && p.hasAdder)
       || (if r.error == 0 then ConsumeLoses(Consumed(p, r), replies, loop + 1)
           else r.error != EAGAIN && r.error != ENODATA)
  }

  /** The events that take a deferred error away without reporting it. */
  predicate Loses(p: Pipe, e: Event)
    requires Enabled(p.maxLoops, e)
  {
    match e
    case AdderEvent(error, _, _) => error != 0
    case ConsumerEvent(error, consumes, _) =>
      error != 0 || ConsumeLoses(p.(waitingForConsumer := false), consumes, 0)
    case ChangeAdder(who, _) => !Unchanged(p.hasAdder, who)
    case ChangeConsumer(_, _) => false
  }

  /** The event that reports it. */
  predicate Reports(e: Event) {
    e.AdderEvent? && e.error == 0
  }

  lemma OneConsumeKeeps(p: Pipe, r: ConsumeReply)
    ensures var q := Consumed(p, r);
            && q.adderError == (if r.dropAdder && p.hasAdder then 0 else p.adderError)
            && q.added == p.added && q.maxLoops == p.maxLoops && q.consumerError == r.error
    ensures var v := ConsumeVerdict(p);
            && v.pipe.adderError == p.adderError && v.pipe.added == p.added
            && (v.goOn <==> p.consumerError == EAGAIN || p.consumerError == ENODATA)
  {
    hide Consumed;
    ConsumedKeeps(p, r);
  }

  lemma {:induction false} ConsumeFate(p: Pipe, replies: seq<ConsumeReply>, loop: nat)
    requires |replies| >= p.maxLoops
    ensures var r := ConsumeLoop(p, replies, loop);
            && r.pipe.added == p.added
            && (p.adderError == 0 ==> r.pipe.adderError == 0)
            && if ConsumeLoses(p, replies, loop) then r.goOn ==> r.pipe.adderError == 0
               else r.goOn && r.pipe.adderError == p.adderError
    decreases p.maxLoops - loop
  {
    hide Consumed, ConsumeVerdict;
    if p.hasConsumer && p.buffer != [] && loop < p.maxLoops {
      var p1 := Consumed(p, replies[loop]);
      OneConsumeKeeps(p, replies[loop]);
      OneConsumeKeeps(p1, replies[loop]);
      if p1.consumerError == 0 {
        ConsumeFate(p1, replies, loop + 1);
      }
    }
  }

  /** What a single event makes of a deferred error: the next adder event without an error of its
      own reports it, and does not call the adder; the events above lose it, either with their
      own completion or because it is forgotten; all others keep it. */
  lemma DeferredFate(p: Pipe, e: Event)
    requires Enabled(p.maxLoops, e) && p.adderError != 0
    ensures var q := Handle(p, e);
            if Reports(e) then
              && q.done == p.done + [Completion(p.adderError, Adder, p.buffer, p.consumerError == ENODATA, p.waitForEmpty)]
              && q.added == p.added
            else if Loses(p, e) then
              if q.done == p.done then q.adderError == 0
              else Completes(p, q) && q.done[|p.done|].source == Consumer
            else
              q.done == p.done && q.adderError == p.adderError && q.added == p.added
  {
    hide Handle, Loses, Completes;
    match e
    case AdderEvent(error, adds, sent) => AdderFate(p, error, adds, sent);
    case ConsumerEvent(error, consumes, sent) => ConsumerFate(p, error, consumes, sent);
    case ChangeAdder(who, wait) => ChangeFate(p, who, wait);
    case ChangeConsumer(who, sent) => ChangeFate(p, who, sent);
  }

  lemma AdderFate(p: Pipe, error: int, adds: seq<AddReply>, sent: bool)
    requires |adds| >= p.maxLoops && p.adderError != 0
    ensures var e := AdderEvent(error, adds, sent);
            var q := Handle(p, e);
            if Reports(e) then
              && q.done == p.done + [Completion(p.adderError, Adder, p.buffer, p.consumerError == ENODATA, p.waitForEmpty)]
              && q.added == p.added
            else Loses(p, e) && q.done != p.done && Completes(p, q) && q.done[|p.done|].source == Consumer
  {
    hide AddLoop;
    AdderErrorIsConsumers(p, error, adds, sent);
  }

  lemma ChangeFate(p: Pipe, who: Who, b: bool)
    requires p.adderError != 0
    ensures var e := ChangeAdder(who, b);
            var q := Handle(p, e);
            && !Reports(e) && q.done == p.done && q.added == p.added
            && q.adderError == if Loses(p, e) then 0 else p.adderError
    ensures var e := ChangeConsumer(who, b);
            var q := Handle(p, e);
            && !Reports(e) && !Loses(p, e)
            && q.done == p.done && q.added == p.added && q.adderError == p.adderError
  {
    hide OnAdderEvent, OnConsumerEvent, ConsumeLoses;
  }

  lemma ConsumerFate(p: Pipe, error: int, consumes: seq<ConsumeReply>, sent: bool)
    requires |consumes| >= p.maxLoops && p.adderError != 0
    ensures var e := ConsumerEvent(error, consumes, sent);
            var q := Handle(p, e);
            if Loses(p, e) then
              if q.done == p.done then q.adderError == 0
              else Completes(p, q) && q.done[|p.done|].source == Consumer
            else
              q.done == p.done && q.adderError == p.adderError && q.added == p.added
    ensures !Reports(ConsumerEvent(error, consumes, sent))
  {
    hide ConsumeLoop, ConsumeLoses, SetAdder, SetConsumer;
    var p1 := p.(waitingForConsumer := false);
    ConsumeKeepsHistory(p1, consumes, 0);
    ConsumeFate(p1, consumes, 0);
  }

  /** Without a deferred error only an adder event can defer one, and completions are never taken
      back. */
  lemma NothingDeferredStays(p: Pipe, e: Event)
    requires Enabled(p.maxLoops, e) && !Reports(e)
    ensures var q := Handle(p, e);
            && (p.adderError == 0 ==> q.adderError == 0)
            && |q.done| >= |p.done|
  {
    hide AddLoop, ConsumeLoop;
    if e.ConsumerEvent? {
      var p1 := p.(waitingForConsumer := false);
      ConsumeKeepsHistory(p1, e.consumes, 0);
      ConsumeFate(p1, e.consumes, 0);
    }
  }

  function HandleAll(p: Pipe, events: seq<Event>): (q: Pipe)
    requires forall e :: e in events ==> Enabled(p.maxLoops, e)
    ensures q.maxLoops == p.maxLoops
    decreases |events|
  {
    if events == [] then p
    else
      assert events[0] in events;
      HandleKeepsLoops(p, events[0]);
      HandleAll(Handle(p, events[0]), events[1..])
  }

  /** None of the events loses what is deferred. */
  predicate AllKeep(p: Pipe, events: seq<Event>)
    requires forall e :: e in events ==> Enabled(p.maxLoops, e)
    decreases |events|
  {
    events == [] ||
      (assert events[0] in events;
       HandleKeepsLoops(p, events[0]);
       !Loses(p, events[0]) && AllKeep(Handle(p, events[0]), events[1..]))
  }

  /** As long as no event reports it, a deferred error is still there, and nothing has been added
      since or completed, exactly if no event has lost it. */
  lemma {:induction false} DeferredWaitsExactly(p: Pipe, events: seq<Event>)
    requires forall e :: e in events ==> Enabled(p.maxLoops, e) && !Reports(e)
    requires p.adderError != 0
    ensures var q := HandleAll(p, events);
            && (q.done == p.done && q.adderError == p.adderError <==> AllKeep(p, events))
            && (AllKeep(p, events) ==> q.added == p.added)
    decreases |events|
  {
    hide Handle, Loses;
    if events != [] {
      var e := events[0];
      assert e in events;
      HandleKeepsLoops(p, e);
      var q := Handle(p, e);
      DeferredFate(p, e);
      if Loses(p, e) {
        LostStaysLost(q, events[1..]);
      } else {
        DeferredWaitsExactly(q, events[1..]);
      }
    }
  }

  lemma {:induction false} LostStaysLost(p: Pipe, events: seq<Event>)
    requires forall e :: e in events ==> Enabled(p.maxLoops, e) && !Reports(e)
    ensures var q := HandleAll(p, events);
            (p.adderError == 0 ==> q.adderError == 0) && |q.done| >= |p.done|
    decreases |events|
  {
    hide Handle;
    if events != [] {
      assert events[0] in events;
      HandleKeepsLoops(p, events[0]);
      NothingDeferredStays(p, events[0]);
      LostStaysLost(Handle(p, events[0]), events[1..]);
    }
  }

  /** A deferred error over a run: the event that defers it, events that do not lose it, and the
      next adder event, which completes with just that error, on the adder's account, with
      nothing added since. */
  lemma DeferredErrorReported(p: Pipe, adds: seq<AddReply>, sent: bool, e: int, between: seq<Event>,
                              adds': seq<AddReply>, sent': bool)
    requires |adds| >= p.maxLoops && |adds'| >= p.maxLoops
    requires Defers(p, 0, adds, e)
    requires forall ev :: ev in between ==> Enabled(p.maxLoops, ev) && !Reports(ev)
    ensures var p1 := OnAdderEvent(p, 0, adds, sent);
            && p1.maxLoops == p.maxLoops && p1.done == p.done
            && (AllKeep(p1, between) ==>
                  var p2 := HandleAll(p1, between);
                  var q := OnAdderEvent(p2, 0, adds', sent');
                  && q.done == p.done + [Completion(e, Adder, p2.buffer, p2.consumerError == ENODATA, p2.waitForEmpty)]
                  && q.added == p1.added)
  {
    hide OnAdderEvent, Defers, AllKeep;
    HandleKeepsLoops(p, AdderEvent(0, adds, sent));
    DeferredIsKept(p, adds, sent, e);
    var p1 := OnAdderEvent(p, 0, adds, sent);
    DeferredWaitsExactly(p1, between);
    if AllKeep(p1, between) {
      DeferredFate(HandleAll(p1, between), AdderEvent(0, adds', sent'));
    }
  }

  lemma DeferredIsKept(p: Pipe, adds: seq<AddReply>, sent: bool, e: int)
    requires |adds| >= p.maxLoops && Defers(p, 0, adds, e)
    ensures var q := OnAdderEvent(p, 0, adds, sent);
            e != 0 && q.done == p.done && q.adderError == e
  {
    DeferredExactly(p, 0, adds, sent, e);
  }
}
