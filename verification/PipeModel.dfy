/** The pipe of pipe.cpp as a transition system: an adder fills a buffer, a consumer empties it,
    and two flags say which of them is known to come back with an event. */
module PipeModel {
  const EAGAIN := 11
  const EINVAL := 22
  const ENODATA := 61
  const ENOBUFS := 105
  const ESHUTDOWN := 108
  const ECANCELED := 125

  type Byte = bv8

  datatype Source = Consumer | Adder

  /** `error_type`: a shutdown is not reported as an error. */
  function Reported(e: int): int {
    if e == -ESHUTDOWN then 0 else e
  }

  /** A completion, with what an observer may want to know about the moment it happened: the
      raw error, the bytes then left in the buffer, whether the consumer had last asked for
      more data, and whether the buffer was to be emptied first. */
  datatype Completion = Completion(error: int, source: Source, leftover: seq<Byte>, starving: bool, waited: bool)

  /** The pipe's fields. The last four record history: the bytes that went in and came out,
      whether the buffer has been thrown away, and the completions reported. */
  datatype Pipe = Pipe(
    maxLoops: nat,
    hasAdder: bool,
    hasConsumer: bool,
    buffer: seq<Byte>,
    waitingForAdder: bool,
    waitingForConsumer: bool,
    consumerError: int,
    adderError: int,
    waitForEmpty: bool,
    added: seq<Byte>,
    consumed: seq<Byte>,
    cleared: bool,
    done: seq<Completion>)

  /** What one call of the adder or of the consumer does. Either may detach an end of the pipe
      before it returns. */
  datatype AddReply = AddReply(error: int, bytes: seq<Byte>, dropAdder: bool, dropConsumer: bool)

  datatype ConsumeReply = ConsumeReply(error: int, taken: nat, dropAdder: bool, dropConsumer: bool)

  // ---------------------------------------------------------------- attaching and detaching

  /** Who is attached to an end: nobody, the one that is there already, or somebody else. */
  datatype Who = Nobody | Same | Other

  /** Nothing is detached or attached. */
  predicate Unchanged(present: bool, who: Who) {
    who == Same || (who == Nobody && !present)
  }

  /** `set_consumer`. A new consumer gets an event at once; `sent` says whether sending it
      worked. */
  function SetConsumer(p: Pipe, who: Who, sent: bool): Pipe {
    if Unchanged(p.hasConsumer, who) then p
    else p.(hasConsumer := who == Other, consumerError := 0, waitingForConsumer := who == Other && sent)
  }

  /** `set_adder`. The end-of-file policy is set in any case. */
  function SetAdder(p: Pipe, who: Who, waitForEmpty: bool): Pipe {
    var p1 :=
      if Unchanged(p.hasAdder, who) then p
      else p.(hasAdder := who == Other, adderError := 0,
              waitingForAdder := if p.hasAdder then false else p.waitingForAdder);
    p1.(waitForEmpty := waitForEmpty)
  }

  function DropConsumer(p: Pipe): Pipe {
    SetConsumer(p, Nobody, false)
  }

  /** Detaching the adder puts the policy back to its default. */
  function DropAdder(p: Pipe): Pipe {
    SetAdder(p, Nobody, true)
  }

  function Clear(p: Pipe): Pipe {
    DropAdder(DropConsumer(p)).(buffer := [], cleared := true)
  }

  function Done(p: Pipe, error: int, source: Source): Pipe {
    Clear(p).(done := p.done + [Completion(error, source, p.buffer, p.consumerError == ENODATA, p.waitForEmpty)])
  }

  function Dropping(p: Pipe, dropAdder: bool, dropConsumer: bool): Pipe {
    var p1 := if dropConsumer then DropConsumer(p) else p;
    if dropAdder then DropAdder(p1) else p1
  }

  // ---------------------------------------------------------------- adding

  datatype Progress = Progress(pipe: Pipe, goOn: bool)

  /** The adder runs: its bytes go to the end of the buffer, its result into the error field. */
  function Added(p: Pipe, r: AddReply): Pipe {
    Dropping(p.(buffer := p.buffer + r.bytes, added := p.added + r.bytes), r.dropAdder, r.dropConsumer)
      .(adderError := r.error)
  }

  /** What the loop makes of a result that is not plain success. */
  function AddVerdict(p: Pipe, loop: nat): Progress {
    if !p.hasConsumer then
      if p.adderError == EAGAIN then Progress(p.(adderError := 0, waitingForAdder := true), true)
      else if p.adderError == ENODATA then Progress(p.(adderError := 0), true)
      else Progress(p.(adderError := EINVAL), false)
    else if p.adderError == EAGAIN then
      Progress(p.(adderError := 0, waitingForAdder := true), true)
    else if p.adderError == ENODATA then
      if !p.waitForEmpty || p.buffer == [] then Progress(p.(adderError := 0), false)
      else if p.consumerError == ENODATA then Progress(p.(adderError := 0), false)
      else Progress(p.(adderError := 0), true)
    else if p.adderError == ENOBUFS then
      if loop == 0 && p.consumerError == ENODATA then Progress(p, false)
      else Progress(p.(adderError := 0), true)
    else
      Progress(p, loop > 0)
  }

  function AddLoop(p: Pipe, replies: seq<AddReply>, loop: nat): Progress
    requires |replies| >= p.maxLoops
    decreases p.maxLoops - loop
  {
    if !p.hasAdder || loop >= p.maxLoops then Progress(p, true)
    else
      var p1 := Added(p, replies[loop]);
      if p1.hasConsumer && p1.adderError == 0 then AddLoop(p1, replies, loop + 1)
      else AddVerdict(p1, loop)
  }

  /** `add_to_buffer`: an error left from an earlier run is reported first. */
  function AddToBuffer(p: Pipe, replies: seq<AddReply>): Progress
    requires |replies| >= p.maxLoops
  {
    if p.adderError != 0 then Progress(p, false) else AddLoop(p, replies, 0)
  }

  function OnAdderEvent(p: Pipe, error: int, replies: seq<AddReply>, sent: bool): Pipe
    requires |replies| >= p.maxLoops
  {
    if error != 0 then Done(p, error, Consumer)
    else
      var r := AddToBuffer(p.(waitingForAdder := false), replies);
      if !r.goOn then Done(r.pipe, r.pipe.adderError, Adder)
      else if !r.pipe.waitingForConsumer && r.pipe.buffer != [] && r.pipe.hasConsumer then
        r.pipe.(waitingForConsumer := sent)
      else r.pipe
  }

  // ---------------------------------------------------------------- consuming

  function Min(a: nat, b: nat): nat {
    if a < b then a else b
  }

  function Consumed(p: Pipe, r: ConsumeReply): Pipe {
    var n := Min(r.taken, |p.buffer|);
    Dropping(p.(buffer := p.buffer[n..], consumed := p.consumed + p.buffer[..n]), r.dropAdder, r.dropConsumer)
      .(consumerError := r.error)
  }

  function ConsumeVerdict(p: Pipe): Progress {
    if p.consumerError == EAGAIN then Progress(p.(waitingForConsumer := true), true)
    else if p.consumerError == ENODATA then Progress(p, true)
    else if p.consumerError == ECANCELED then Progress(p.(consumerError := 0), false)
    else Progress(p, false)
  }

  function ConsumeLoop(p: Pipe, replies: seq<ConsumeReply>, loop: nat): Progress
    requires |replies| >= p.maxLoops
    decreases p.maxLoops - loop
  {
    if !p.hasConsumer || p.buffer == [] || loop >= p.maxLoops then Progress(p, true)
    else
      var p1 := Consumed(p, replies[loop]);
      if p1.consumerError == 0 then ConsumeLoop(p1, replies, loop + 1) else ConsumeVerdict(p1)
  }

  function OnConsumerEvent(p: Pipe, error: int, replies: seq<ConsumeReply>, sent: bool): Pipe
    requires |replies| >= p.maxLoops
  {
    if error != 0 then Done(p, error, Consumer)
    else
      var r := ConsumeLoop(p.(waitingForConsumer := false), replies, 0);
      var q := r.pipe;
      if !r.goOn then Done(q, q.consumerError, Consumer)
      else if !q.hasConsumer then q
      else if q.consumerError != ENODATA && q.buffer != [] then
        if q.waitingForConsumer then q else q.(waitingForConsumer := sent)
      else if !q.waitingForAdder && q.hasAdder then q.(waitingForAdder := sent)
      else q
  }

  // ---------------------------------------------------------------- no lost wakeup

  predicate Attached(p: Pipe) {
    p.hasAdder && p.hasConsumer
  }

  /** Somebody is known to come back. */
  predicate Awake(p: Pipe) {
    p.waitingForAdder || p.waitingForConsumer
  }

  /** After an adder event the consumer is known to come back if there is something to consume,
      and the adder otherwise. */
  predicate AdderServed(q: Pipe) {
    if q.buffer != [] then q.waitingForConsumer else q.waitingForAdder
  }

  /** After a consumer event the adder is known to come back if there is nothing to consume, or
      nothing that the consumer can use; otherwise the consumer is. */
  predicate ConsumerServed(q: Pipe) {
    if q.buffer == [] || q.consumerError == ENODATA then q.waitingForAdder else q.waitingForConsumer
  }

  /** A call of the adder that leaves both ends attached, and leaves something to consume
      unless it has a reason not to. */
  predicate GoodAdd(p: Pipe, r: AddReply) {
    && !r.dropAdder && !r.dropConsumer
    && (r.error == 0 || r.error == ENOBUFS ==> p.buffer + r.bytes != [])
  }

  /** All calls that one event makes of the adder are good ones. */
  predicate GoodAdds(p: Pipe, replies: seq<AddReply>, loop: nat)
    requires |replies| >= p.maxLoops
    decreases p.maxLoops - loop
  {
    p.hasAdder && loop < p.maxLoops ==>
      && GoodAdd(p, replies[loop])
      && (replies[loop].error == 0 ==> GoodAdds(Added(p, replies[loop]), replies, loop + 1))
  }

  predicate GoodConsumes(replies: seq<ConsumeReply>) {
    forall r :: r in replies ==> !r.dropAdder && !r.dropConsumer
  }

  lemma {:induction false} AddLoopLeaves(p: Pipe, replies: seq<AddReply>, loop: nat)
    requires |replies| >= p.maxLoops && Attached(p) && GoodAdds(p, replies, loop)
    requires loop > 0 ==> p.buffer != []
    requires loop < p.maxLoops || p.buffer != []
    ensures var r := AddLoop(p, replies, loop);
            && r.pipe.hasConsumer && r.pipe.waitingForConsumer == p.waitingForConsumer
            && (r.goOn ==> r.pipe.waitingForAdder || r.pipe.buffer != [])
    decreases p.maxLoops - loop
  {
    if loop < p.maxLoops {
      var p1 := Added(p, replies[loop]);
      if p1.adderError == 0 {
        AddLoopLeaves(p1, replies, loop + 1);
      }
    }
  }

  /** Every adder event ends in completion, or with the end known to come back whose turn it is. */
  lemma AdderEventStaysAwake(p: Pipe, error: int, replies: seq<AddReply>)
    requires |replies| >= p.maxLoops > 0 && Attached(p)
    requires GoodAdds(p.(waitingForAdder := false), replies, 0)
    ensures var q := OnAdderEvent(p, error, replies, true);
            |q.done| > |p.done| || (AdderServed(q) && Awake(q))
  {
    if error == 0 && p.adderError == 0 {
      AddLoopLeaves(p.(waitingForAdder := false), replies, 0);
    }
    AddKeepsHistory(p.(waitingForAdder := false), replies, 0);
  }

  /** Nothing but completion writes the history of completions. */
  predicate SameHistory(p: Pipe, q: Pipe) {
    q.done == p.done && q.cleared == p.cleared && q.maxLoops == p.maxLoops
  }

  /** What detaching leaves alone. */
  lemma DroppingKeeps(p: Pipe, dropAdder: bool, dropConsumer: bool)
    ensures var q := Dropping(p, dropAdder, dropConsumer);
            && SameHistory(p, q)
            && q.buffer == p.buffer && q.added == p.added && q.consumed == p.consumed
            && q.adderError == if dropAdder && p.hasAdder then 0 else p.adderError
  {
  }

  lemma AddedKeeps(p: Pipe, r: AddReply)
    ensures var q := Added(p, r);
            && SameHistory(p, q) && q.consumed == p.consumed && q.adderError == r.error
            && q.buffer == p.buffer + r.bytes && q.added == p.added + r.bytes
  {
    hide Dropping;
    DroppingKeeps(p.(buffer := p.buffer + r.bytes, added := p.added + r.bytes), r.dropAdder, r.dropConsumer);
  }

  lemma ConsumedKeeps(p: Pipe, r: ConsumeReply)
    ensures var q, n := Consumed(p, r), Min(r.taken, |p.buffer|);
            && SameHistory(p, q) && q.added == p.added && q.consumerError == r.error
            && q.buffer == p.buffer[n..] && q.consumed == p.consumed + p.buffer[..n]
            && q.adderError == if r.dropAdder && p.hasAdder then 0 else p.adderError
  {
    hide Dropping;
    var n := Min(r.taken, |p.buffer|);
    DroppingKeeps(p.(buffer := p.buffer[n..], consumed := p.consumed + p.buffer[..n]), r.dropAdder, r.dropConsumer);
  }

  /** The fields that verdicts leave alone. */
  predicate SameBytes(p: Pipe, q: Pipe) {
    SameHistory(p, q) && q.buffer == p.buffer && q.added == p.added && q.consumed == p.consumed
  }

  lemma AddVerdictKeeps(p: Pipe, loop: nat)
    ensures SameBytes(p, AddVerdict(p, loop).pipe)
  {
  }

  lemma ConsumeVerdictKeeps(p: Pipe)
    ensures SameBytes(p, ConsumeVerdict(p).pipe)
  {
  }

  lemma VerdictsKeep(p: Pipe, loop: nat)
    ensures SameHistory(p, AddVerdict(p, loop).pipe) && SameHistory(p, ConsumeVerdict(p).pipe)
    ensures Conserved(p) ==> Conserved(AddVerdict(p, loop).pipe) && Conserved(ConsumeVerdict(p).pipe)
  {
    hide AddVerdict, ConsumeVerdict;
    AddVerdictKeeps(p, loop);
    ConsumeVerdictKeeps(p);
  }

  lemma Regroup(a: seq<Byte>, b: seq<Byte>, c: seq<Byte>)
    ensures (a + b) + c == a + (b + c)
  {
  }

  lemma OneAdd(p: Pipe, r: AddReply, loop: nat)
    ensures SameHistory(p, Added(p, r))
    ensures SameHistory(p, AddVerdict(p, loop).pipe)
    ensures Conserved(p) ==> Conserved(Added(p, r)) && Conserved(AddVerdict(p, loop).pipe)
  {
    hide Added, AddVerdict;
    AddedKeeps(p, r);
    VerdictsKeep(p, loop);
    Regroup(p.consumed, p.buffer, r.bytes);
  }

  lemma OneConsume(p: Pipe, r: ConsumeReply)
    ensures SameHistory(p, Consumed(p, r))
    ensures SameHistory(p, ConsumeVerdict(p).pipe)
    ensures Conserved(p) ==> Conserved(Consumed(p, r)) && Conserved(ConsumeVerdict(p).pipe)
  {
    hide Consumed, ConsumeVerdict;
    ConsumedKeeps(p, r);
    VerdictsKeep(p, 0);
    var n := Min(r.taken, |p.buffer|);
    Regroup(p.consumed, p.buffer[..n], p.buffer[n..]);
    assert p.buffer[..n] + p.buffer[n..] == p.buffer;
  }

  lemma {:induction false} AddKeepsHistory(p: Pipe, replies: seq<AddReply>, loop: nat)
    requires |replies| >= p.maxLoops
    ensures SameHistory(p, AddLoop(p, replies, loop).pipe)
    decreases p.maxLoops - loop
  {
    hide Added, AddVerdict, Conserved;
    if p.hasAdder && loop < p.maxLoops {
      OneAdd(p, replies[loop], loop);
      OneAdd(Added(p, replies[loop]), replies[loop], loop);
      AddKeepsHistory(Added(p, replies[loop]), replies, loop + 1);
    }
  }

  lemma {:induction false} ConsumeKeepsHistory(p: Pipe, replies: seq<ConsumeReply>, loop: nat)
    requires |replies| >= p.maxLoops
    ensures SameHistory(p, ConsumeLoop(p, replies, loop).pipe)
    decreases p.maxLoops - loop
  {
    hide Consumed, ConsumeVerdict, Conserved;
    if p.hasConsumer && p.buffer != [] && loop < p.maxLoops {
      OneConsume(p, replies[loop]);
      OneConsume(Consumed(p, replies[loop]), replies[loop]);
      ConsumeKeepsHistory(Consumed(p, replies[loop]), replies, loop + 1);
    }
  }

  lemma {:induction false} ConsumeKeepsAttached(p: Pipe, replies: seq<ConsumeReply>, loop: nat)
    requires |replies| >= p.maxLoops && Attached(p) && GoodConsumes(replies)
    ensures Attached(ConsumeLoop(p, replies, loop).pipe)
    decreases p.maxLoops - loop
  {
    if p.buffer != [] && loop < p.maxLoops {
      assert replies[loop] in replies;
      ConsumeKeepsAttached(Consumed(p, replies[loop]), replies, loop + 1);
    }
  }

  /** So does every consumer event, whatever the consumer answers. */
  lemma ConsumerEventStaysAwake(p: Pipe, error: int, replies: seq<ConsumeReply>)
    requires |replies| >= p.maxLoops && Attached(p) && GoodConsumes(replies)
    ensures var q := OnConsumerEvent(p, error, replies, true);
            |q.done| > |p.done| || (ConsumerServed(q) && Awake(q))
  {
    ConsumeKeepsAttached(p.(waitingForConsumer := false), replies, 0);
    ConsumeKeepsHistory(p.(waitingForConsumer := false), replies, 0);
  }

  /** The condition on the adder is needed: one that reports success without adding anything
      leaves a pipe that nobody will wake up. */
  lemma IdleAdderIsLost(p: Pipe, replies: seq<AddReply>)
    requires |replies| >= p.maxLoops && Attached(p) && p.adderError == 0 && p.buffer == []
    requires !p.waitingForConsumer
    requires forall r :: r in replies ==> r == AddReply(0, [], false, false)
    ensures var q := OnAdderEvent(p, 0, replies, true);
            q.done == p.done && !Awake(q)
  {
    IdleLoop(p.(waitingForAdder := false), replies, 0);
  }

  lemma {:induction false} IdleLoop(p: Pipe, replies: seq<AddReply>, loop: nat)
    requires |replies| >= p.maxLoops && Attached(p) && p.adderError == 0 && p.buffer == []
    requires forall r :: r in replies ==> r == AddReply(0, [], false, false)
    ensures AddLoop(p, replies, loop) == Progress(p, true)
    decreases p.maxLoops - loop
  {
    if loop < p.maxLoops {
      assert replies[loop] in replies;
      assert Added(p, replies[loop]) == p;
      IdleLoop(p, replies, loop + 1);
    }
  }

  // ---------------------------------------------------------------- no lost bytes

  /** The bytes in the buffer are those that came in and have not gone out. */
  predicate Conserved(p: Pipe) {
    p.cleared || p.consumed + p.buffer == p.added
  }

  lemma {:induction false} AddConserves(p: Pipe, replies: seq<AddReply>, loop: nat)
    requires |replies| >= p.maxLoops && Conserved(p)
    ensures Conserved(AddLoop(p, replies, loop).pipe)
    decreases p.maxLoops - loop
  {
    hide Added, AddVerdict, Conserved;
    if p.hasAdder && loop < p.maxLoops {
      OneAdd(p, replies[loop], loop);
      OneAdd(Added(p, replies[loop]), replies[loop], loop);
      if Added(p, replies[loop]).adderError == 0 {
        AddConserves(Added(p, replies[loop]), replies, loop + 1);
      }
    }
  }

  lemma {:induction false} ConsumeConserves(p: Pipe, replies: seq<ConsumeReply>, loop: nat)
    requires |replies| >= p.maxLoops && Conserved(p)
    ensures Conserved(ConsumeLoop(p, replies, loop).pipe)
    decreases p.maxLoops - loop
  {
    hide Consumed, ConsumeVerdict, Conserved;
    if p.hasConsumer && p.buffer != [] && loop < p.maxLoops {
      OneConsume(p, replies[loop]);
      OneConsume(Consumed(p, replies[loop]), replies[loop]);
      ConsumeConserves(Consumed(p, replies[loop]), replies, loop + 1);
    }
  }

  // ---------------------------------------------------------------- completion

  /** Adding gives up without an error only at the adder's end of file, and then, if the buffer
      was to be emptied, it is empty or the consumer cannot use what is left. */
  lemma {:induction false} EndOfFile(p: Pipe, replies: seq<AddReply>, loop: nat)
    requires |replies| >= p.maxLoops
    ensures var r := AddLoop(p, replies, loop);
            !r.goOn && r.pipe.adderError == 0 && r.pipe.waitForEmpty ==>
              r.pipe.buffer == [] || r.pipe.consumerError == ENODATA
    decreases p.maxLoops - loop
  {
    hide Added;
    if p.hasAdder && loop < p.maxLoops && Added(p, replies[loop]).adderError == 0 {
      OneAdd(p, replies[loop], loop);
      EndOfFile(Added(p, replies[loop]), replies, loop + 1);
    }
  }

  /** So a pipe that finishes at the end of file, with the buffer to be emptied and a consumer
      that is not asking for more, has delivered every byte that was ever added. */
  lemma EofDeliversAll(p: Pipe, replies: seq<AddReply>)
    requires |replies| >= p.maxLoops && Conserved(p) && !p.cleared
    ensures var r := AddToBuffer(p, replies);
            !r.goOn && r.pipe.adderError == 0 && r.pipe.waitForEmpty && r.pipe.consumerError != ENODATA ==>
              r.pipe.consumed == r.pipe.added
  {
    hide AddLoop;
    AddConserves(p, replies, 0);
    AddKeepsHistory(p, replies, 0);
    EndOfFile(p, replies, 0);
  }

  /** A completion that reports the adder's end of file, with the buffer to be emptied first,
      leaves nothing behind that the consumer could have used. */
  predicate CompletionOk(c: Completion) {
    c.source == Adder && c.error == 0 && c.waited ==> c.leftover == [] || c.starving
  }

  // ---------------------------------------------------------------- whole runs

  datatype Event =
    | AdderEvent(error: int, adds: seq<AddReply>, sent: bool)
    | ConsumerEvent(error: int, consumes: seq<ConsumeReply>, sent: bool)
    | ChangeAdder(who: Who, waitForEmpty: bool)
    | ChangeConsumer(who: Who, sent: bool)

  /** The script of an event covers the calls that it may make. */
  predicate Enabled(maxLoops: nat, e: Event) {
    match e
    case AdderEvent(_, adds, _) => |adds| >= maxLoops
    case ConsumerEvent(_, consumes, _) => |consumes| >= maxLoops
    case _ => true
  }

  function Handle(p: Pipe, e: Event): Pipe
    requires Enabled(p.maxLoops, e)
  {
    match e
    case AdderEvent(error, adds, sent) => OnAdderEvent(p, error, adds, sent)
    case ConsumerEvent(error, consumes, sent) => OnConsumerEvent(p, error, consumes, sent)
    case ChangeAdder(who, waitForEmpty) => SetAdder(p, who, waitForEmpty)
    case ChangeConsumer(who, sent) => SetConsumer(p, who, sent)
  }

  function NewPipe(maxLoops: nat): Pipe {
    Pipe(maxLoops, false, false, [], false, false, 0, 0, true, [], [], false, [])
  }

  function Run(maxLoops: nat, events: seq<Event>): (p: Pipe)
    requires forall e :: e in events ==> Enabled(maxLoops, e)
    ensures p.maxLoops == maxLoops
    decreases |events|
  {
    if events == [] then NewPipe(maxLoops)
    else
      var p := Run(maxLoops, events[..|events| - 1]);
      assert events[|events| - 1] in events;
      HandleKeepsLoops(p, events[|events| - 1]);
      Handle(p, events[|events| - 1])
  }

  lemma DoneLoops(p: Pipe, error: int, source: Source)
    ensures Done(p, error, source).maxLoops == p.maxLoops
  {
  }

  lemma HandleKeepsLoops(p: Pipe, e: Event)
    requires Enabled(p.maxLoops, e)
    ensures Handle(p, e).maxLoops == p.maxLoops
  {
    hide AddLoop, ConsumeLoop, Done;
    match e
    case AdderEvent(error, adds, sent) => AdderEventKeepsLoops(p, error, adds, sent);
    case ConsumerEvent(error, consumes, sent) => ConsumerEventKeepsLoops(p, error, consumes, sent);
    case _ => hide OnAdderEvent, OnConsumerEvent;
  }

  lemma AdderEventKeepsLoops(p: Pipe, error: int, adds: seq<AddReply>, sent: bool)
    requires |adds| >= p.maxLoops
    ensures OnAdderEvent(p, error, adds, sent).maxLoops == p.maxLoops
  {
    hide AddLoop, Done;
    var q := AddToBuffer(p.(waitingForAdder := false), adds).pipe;
    AddKeepsHistory(p.(waitingForAdder := false), adds, 0);
    DoneLoops(p, error, Consumer);
    DoneLoops(q, q.adderError, Adder);
  }

  lemma ConsumerEventKeepsLoops(p: Pipe, error: int, consumes: seq<ConsumeReply>, sent: bool)
    requires |consumes| >= p.maxLoops
    ensures OnConsumerEvent(p, error, consumes, sent).maxLoops == p.maxLoops
  {
    hide ConsumeLoop, Done;
    var q := ConsumeLoop(p.(waitingForConsumer := false), consumes, 0).pipe;
    ConsumeKeepsHistory(p.(waitingForConsumer := false), consumes, 0);
    DoneLoops(p, error, Consumer);
    DoneLoops(q, q.consumerError, Consumer);
  }

  predicate HistoryOk(p: Pipe) {
    Conserved(p) && forall i :: 0 <= i < |p.done| ==> CompletionOk(p.done[i])
  }

  lemma DoneKeeps(p: Pipe, error: int, source: Source)
    requires HistoryOk(p)
    requires source == Adder && error == 0 && p.waitForEmpty ==> p.buffer == [] || p.consumerError == ENODATA
    ensures HistoryOk(Done(p, error, source))
  {
  }

  lemma FlagsKeep(p: Pipe, a: bool, c: bool)
    ensures HistoryOk(p) ==> HistoryOk(p.(waitingForAdder := a, waitingForConsumer := c))
  {
  }

  lemma AdderEventKeeps(p: Pipe, error: int, adds: seq<AddReply>, sent: bool)
    requires |adds| >= p.maxLoops && HistoryOk(p)
    ensures HistoryOk(OnAdderEvent(p, error, adds, sent))
  {
    hide AddLoop, Done, HistoryOk;
    var p1 := p.(waitingForAdder := false);
    if error != 0 {
      DoneKeeps(p, error, Consumer);
    } else {
      FlagsKeep(p, false, p.waitingForConsumer);
      AddingKeeps(p1, adds);
      EndOfFile(p1, adds, 0);
      var q := AddToBuffer(p1, adds).pipe;
      if !AddToBuffer(p1, adds).goOn {
        DoneKeeps(q, q.adderError, Adder);
      }
      FlagsKeep(q, q.waitingForAdder, sent);
    }
  }

  lemma AddingKeeps(p: Pipe, adds: seq<AddReply>)
    requires |adds| >= p.maxLoops && HistoryOk(p)
    ensures HistoryOk(AddToBuffer(p, adds).pipe)
  {
    hide AddLoop;
    AddConserves(p, adds, 0);
    AddKeepsHistory(p, adds, 0);
  }

  lemma ConsumerEventKeeps(p: Pipe, error: int, consumes: seq<ConsumeReply>, sent: bool)
    requires |consumes| >= p.maxLoops && HistoryOk(p)
    ensures HistoryOk(OnConsumerEvent(p, error, consumes, sent))
  {
    hide ConsumeLoop, Done, HistoryOk;
    var p1 := p.(waitingForConsumer := false);
    if error != 0 {
      DoneKeeps(p, error, Consumer);
    } else {
      FlagsKeep(p, p.waitingForAdder, false);
      ConsumingKeeps(p1, consumes);
      var q := ConsumeLoop(p1, consumes, 0).pipe;
      DoneKeeps(q, q.consumerError, Consumer);
      FlagsKeep(q, q.waitingForAdder, sent);
      FlagsKeep(q, sent, q.waitingForConsumer);
    }
  }

  lemma ConsumingKeeps(p: Pipe, consumes: seq<ConsumeReply>)
    requires |consumes| >= p.maxLoops && HistoryOk(p)
    ensures HistoryOk(ConsumeLoop(p, consumes, 0).pipe)
  {
    hide ConsumeLoop;
    ConsumeConserves(p, consumes, 0);
    ConsumeKeepsHistory(p, consumes, 0);
  }

  lemma HandleKeeps(p: Pipe, e: Event)
    requires Enabled(p.maxLoops, e) && HistoryOk(p)
    ensures HistoryOk(Handle(p, e))
  {
    hide OnAdderEvent, OnConsumerEvent;
    match e
    case AdderEvent(error, adds, sent) => AdderEventKeeps(p, error, adds, sent);
    case ConsumerEvent(error, consumes, sent) => ConsumerEventKeeps(p, error, consumes, sent);
    case _ =>
  }

  /** Over every run: until the buffer is thrown away, what came out followed by what is in the
      buffer is what went in; and no end of file is reported over the head of data that the
      consumer could still have used. */
  lemma {:induction false} RunConserves(maxLoops: nat, events: seq<Event>)
    requires forall e :: e in events ==> Enabled(maxLoops, e)
    ensures var p := Run(maxLoops, events);
            Conserved(p) && forall i :: 0 <= i < |p.done| ==> CompletionOk(p.done[i])
    decreases |events|
  {
    hide Handle, Conserved;
    if events == [] {
      NewIsConserved(maxLoops);
    } else {
      assert events[|events| - 1] in events;
      RunConserves(maxLoops, events[..|events| - 1]);
      HandleKeeps(Run(maxLoops, events[..|events| - 1]), events[|events| - 1]);
    }
  }

  lemma NewIsConserved(maxLoops: nat)
    ensures Conserved(NewPipe(maxLoops))
  {
  }

  /** The run's events keep both ends attached, their sends work, and the adder adds. */
  predicate Healthy(p: Pipe, e: Event)
    requires Enabled(p.maxLoops, e)
  {
    match e
    case AdderEvent(_, adds, sent) => sent && GoodAdds(p.(waitingForAdder := false), adds, 0)
    case ConsumerEvent(_, consumes, sent) => sent && GoodConsumes(consumes)
    case _ => false
  }

  predicate AllHealthy(p: Pipe, events: seq<Event>)
    requires forall e :: e in events ==> Enabled(p.maxLoops, e)
    decreases |events|
  {
    events == [] ||
      (assert events[0] in events;
       HandleKeepsLoops(p, events[0]);
       && Healthy(p, events[0])
       && (|Handle(p, events[0]).done| == |p.done| ==> AllHealthy(Handle(p, events[0]), events[1..])))
  }

  /** The state after a run of events, or after the first that completes the pipe. */
  function RunUntilDone(p: Pipe, events: seq<Event>): Pipe
    requires forall e :: e in events ==> Enabled(p.maxLoops, e)
    decreases |events|
  {
    if events == [] then p
    else
      assert events[0] in events;
      HandleKeepsLoops(p, events[0]);
      var q := Handle(p, events[0]);
      if |q.done| != |p.done| then q else RunUntilDone(q, events[1..])
  }

  /** Whose turn it is after an event. */
  predicate Served(e: Event, q: Pipe) {
    match e
    case AdderEvent(_, _, _) => AdderServed(q)
    case ConsumerEvent(_, _, _) => ConsumerServed(q)
    case _ => true
  }

  /** No wakeup is lost over any healthy run: as long as the pipe is not done, somebody is known
      to come back, and after each event the end whose turn it is. */
  lemma {:induction false} NoLostWakeup(p: Pipe, events: seq<Event>)
    requires p.maxLoops > 0 && Attached(p) && Awake(p)
    requires forall e :: e in events ==> Enabled(p.maxLoops, e)
    requires AllHealthy(p, events)
    ensures var q := RunUntilDone(p, events);
            |q.done| > |p.done| ||
              (Awake(q) && Attached(q) && (events != [] ==> Served(events[|events| - 1], q)))
    decreases |events|
  {
    hide Handle;
    if events != [] {
      var e := events[0];
      assert e in events;
      HandleKeepsLoops(p, e);
      HealthyStep(p, e);
      var q := Handle(p, e);
      if |q.done| == |p.done| {
        NoLostWakeup(q, events[1..]);
      }
    }
  }

  lemma HealthyStep(p: Pipe, e: Event)
    requires p.maxLoops > 0 && Attached(p) && Enabled(p.maxLoops, e) && Healthy(p, e)
    ensures var q := Handle(p, e);
            |q.done| > |p.done| || (q.done == p.done && Awake(q) && Attached(q) && Served(e, q))
  {
    hide AddLoop, ConsumeLoop, GoodAdds;
    match e
    case AdderEvent(error, adds, sent) =>
      AdderEventStaysAwake(p, error, adds);
      AddKeepsHistory(p.(waitingForAdder := false), adds, 0);
      GoodAddsKeepAttached(p.(waitingForAdder := false), adds, 0);
    case ConsumerEvent(error, consumes, sent) =>
      ConsumerEventStaysAwake(p, error, consumes);
      ConsumeKeepsHistory(p.(waitingForConsumer := false), consumes, 0);
      ConsumeKeepsAttached(p.(waitingForConsumer := false), consumes, 0);
  }

  lemma {:induction false} GoodAddsKeepAttached(p: Pipe, replies: seq<AddReply>, loop: nat)
    requires |replies| >= p.maxLoops && Attached(p) && GoodAdds(p, replies, loop)
    ensures Attached(AddLoop(p, replies, loop).pipe)
    decreases p.maxLoops - loop
  {
    if loop < p.maxLoops {
      var p1 := Added(p, replies[loop]);
      if p1.adderError == 0 {
        GoodAddsKeepAttached(p1, replies, loop + 1);
      }
    }
  }
}
