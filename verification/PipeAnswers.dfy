/** What the answers of the pipe's two ends lead to, event by event. */
module PipeAnswers {
  import opened PipeModel
  import opened PipeErrors

  // ---------------------------------------------------------------- who is waited for

  /** What becomes of a flag that nobody raises: it is taken down with its end. */
  predicate Kept(flag: bool, before: bool, after: bool) {
    flag && (before ==> after)
  }

  lemma DroppingFlags(p: Pipe, dropAdder: bool, dropConsumer: bool)
    ensures var q := Dropping(p, dropAdder, dropConsumer);
            && q.hasAdder == (p.hasAdder && !dropAdder) && q.hasConsumer == (p.hasConsumer && !dropConsumer)
            && q.waitingForAdder == Kept(p.waitingForAdder, p.hasAdder, q.hasAdder)
            && q.waitingForConsumer == Kept(p.waitingForConsumer, p.hasConsumer, q.hasConsumer)
  {
  }

  lemma AddedFlags(p: Pipe, r: AddReply)
    ensures var q := Added(p, r);
            && q.hasAdder == (p.hasAdder && !r.dropAdder) && q.hasConsumer == (p.hasConsumer && !r.dropConsumer)
            && q.waitingForAdder == Kept(p.waitingForAdder, p.hasAdder, q.hasAdder)
            && q.waitingForConsumer == Kept(p.waitingForConsumer, p.hasConsumer, q.hasConsumer)
  {
    hide Dropping, Kept;
    DroppingFlags(p.(buffer := p.buffer + r.bytes, added := p.added + r.bytes), r.dropAdder, r.dropConsumer);
  }

  lemma ConsumedFlags(p: Pipe, r: ConsumeReply)
    ensures var q := Consumed(p, r);
            && q.hasAdder == (p.hasAdder && !r.dropAdder) && q.hasConsumer == (p.hasConsumer && !r.dropConsumer)
            && q.waitingForAdder == Kept(p.waitingForAdder, p.hasAdder, q.hasAdder)
            && q.waitingForConsumer == Kept(p.waitingForConsumer, p.hasConsumer, q.hasConsumer)
  {
    hide Dropping, Kept;
    var n := Min(r.taken, |p.buffer|);
    DroppingFlags(p.(buffer := p.buffer[n..], consumed := p.consumed + p.buffer[..n]), r.dropAdder, r.dropConsumer);
  }

  /** The answer at which an event stops asking the adder; 0 if it never does. */
  function LastAnswer(p: Pipe, replies: seq<AddReply>, loop: nat): int
    requires |replies| >= p.maxLoops
    decreases p.maxLoops - loop
  {
    if !p.hasAdder || loop >= p.maxLoops then 0
    else if replies[loop].error != 0 || !p.hasConsumer || replies[loop].dropConsumer then replies[loop].error
    else
      AddedKeeps(p, replies[loop]);
      LastAnswer(Added(p, replies[loop]), replies, loop + 1)
  }

  lemma {:induction false} AddingFlags(p: Pipe, replies: seq<AddReply>, loop: nat)
    requires |replies| >= p.maxLoops
    ensures var q := AddLoop(p, replies, loop).pipe;
            && (q.waitingForAdder <==>
                  LastAnswer(p, replies, loop) == EAGAIN || Kept(p.waitingForAdder, p.hasAdder, q.hasAdder))
            && q.waitingForConsumer == Kept(p.waitingForConsumer, p.hasConsumer, q.hasConsumer)
            && (q.hasAdder ==> p.hasAdder) && (q.hasConsumer ==> p.hasConsumer)
    decreases p.maxLoops - loop
  {
    hide Added;
    if p.hasAdder && loop < p.maxLoops {
      AddedFlags(p, replies[loop]);
      AddedKeeps(p, replies[loop]);
      if replies[loop].error == 0 && p.hasConsumer && !replies[loop].dropConsumer {
        AddingFlags(Added(p, replies[loop]), replies, loop + 1);
      }
    }
  }

  /** Who is waited for after an adder event that completes nothing: the adder exactly if its last
      answer put the pipe off; the consumer if it was before and is still there, or if there is
      something to consume and an event was sent. */
  lemma AdderEventFlagsExactly(p: Pipe, replies: seq<AddReply>, sent: bool)
    requires |replies| >= p.maxLoops
    ensures var q := OnAdderEvent(p, 0, replies, sent);
            q.done == p.done ==>
              && (q.waitingForAdder <==> LastAnswer(p, replies, 0) == EAGAIN)
              && (q.waitingForConsumer <==>
                    || (p.waitingForConsumer && (p.hasConsumer ==> q.hasConsumer))
                    || (q.buffer != [] && q.hasConsumer && sent))
  {
    hide AddLoop, LastAnswer;
    var p1 := p.(waitingForAdder := false);
    AddKeepsHistory(p1, replies, 0);
    AddingFlags(p1, replies, 0);
    FlagsDoNotMatter(p, p1, replies, 0);
  }

  lemma {:induction false} FlagsDoNotMatter(p: Pipe, q: Pipe, replies: seq<AddReply>, loop: nat)
    requires |replies| >= p.maxLoops && q.maxLoops == p.maxLoops
    requires q.hasAdder == p.hasAdder && q.hasConsumer == p.hasConsumer
    ensures LastAnswer(p, replies, loop) == LastAnswer(q, replies, loop)
    decreases p.maxLoops - loop
  {
    hide Added, Kept;
    if p.hasAdder && p.hasConsumer && loop < p.maxLoops {
      AddedKeeps(p, replies[loop]);
      AddedKeeps(q, replies[loop]);
      AddedFlags(p, replies[loop]);
      AddedFlags(q, replies[loop]);
      FlagsDoNotMatter(Added(p, replies[loop]), Added(q, replies[loop]), replies, loop + 1);
    }
  }

  // ---------------------------------------------------------------- the consumer's answers

  /** The first answer of the consumer other than success, as long as it is asked; 0 if there is
      none. */
  function FirstAnswer(p: Pipe, replies: seq<ConsumeReply>, loop: nat): int
    requires |replies| >= p.maxLoops
    decreases p.maxLoops - loop
  {
    if !p.hasConsumer || p.buffer == [] || loop >= p.maxLoops then 0
    else if replies[loop].error != 0 then replies[loop].error
    else
      ConsumedKeeps(p, replies[loop]);
      FirstAnswer(Consumed(p, replies[loop]), replies, loop + 1)
  }

  lemma {:induction false} ConsumingEnds(p: Pipe, replies: seq<ConsumeReply>, loop: nat)
    requires |replies| >= p.maxLoops
    ensures var r, e := ConsumeLoop(p, replies, loop), FirstAnswer(p, replies, loop);
            && (r.goOn <==> e == 0 || e == EAGAIN || e == ENODATA)
            && (!r.goOn ==> r.pipe.consumerError == if e == ECANCELED then 0 else e)
            && (e == EAGAIN ==> r.pipe.waitingForConsumer)
    decreases p.maxLoops - loop
  {
    hide Consumed;
    if p.hasConsumer && p.buffer != [] && loop < p.maxLoops {
      ConsumedKeeps(p, replies[loop]);
      if replies[loop].error == 0 {
        ConsumingEnds(Consumed(p, replies[loop]), replies, loop + 1);
      }
    }
  }

  lemma {:induction false} ConsumingFlags(p: Pipe, replies: seq<ConsumeReply>, loop: nat)
    requires |replies| >= p.maxLoops
    ensures var q, e := ConsumeLoop(p, replies, loop).pipe, FirstAnswer(p, replies, loop);
            && (q.waitingForConsumer <==> e == EAGAIN || Kept(p.waitingForConsumer, p.hasConsumer, q.hasConsumer))
            && q.waitingForAdder == Kept(p.waitingForAdder, p.hasAdder, q.hasAdder)
            && (q.hasAdder ==> p.hasAdder) && (q.hasConsumer ==> p.hasConsumer)
    decreases p.maxLoops - loop
  {
    hide Consumed;
    if p.hasConsumer && p.buffer != [] && loop < p.maxLoops {
      ConsumedFlags(p, replies[loop]);
      ConsumedKeeps(p, replies[loop]);
      if replies[loop].error == 0 {
        ConsumingFlags(Consumed(p, replies[loop]), replies, loop + 1);
      }
    }
  }

  /** Who is waited for after a consumer event that completes nothing, with events that are sent or
      not: the consumer if it put the pipe off, or is there, has something to consume and does not ask
      for more; the adder if it was before and is still there, or if it is there and the consumer has
      nothing to consume or asks for more. */
  lemma ConsumerEventFlagsExactly(p: Pipe, replies: seq<ConsumeReply>, sent: bool)
    requires |replies| >= p.maxLoops
    ensures var q := OnConsumerEvent(p, 0, replies, sent);
            var more := q.buffer == [] || q.consumerError == ENODATA;
            q.done == p.done ==>
              && (q.waitingForConsumer <==>
                    FirstAnswer(p, replies, 0) == EAGAIN || (q.hasConsumer && !more && sent))
              && (q.waitingForAdder <==>
                    || (p.waitingForAdder && (p.hasAdder ==> q.hasAdder))
                    || (q.hasConsumer && more && q.hasAdder && sent))
  {
    hide ConsumeLoop, FirstAnswer;
    var p1 := p.(waitingForConsumer := false);
    ConsumeKeepsHistory(p1, replies, 0);
    ConsumingFlags(p1, replies, 0);
    FlagsDoNotAnswer(p, p1, replies, 0);
  }

  /** A consumer event completes the pipe exactly if it carries an error, or the consumer gives an
      answer that neither puts it off nor asks for more; a cancellation is reported as no error. */
  lemma ConsumerEndsExactly(p: Pipe, error: int, replies: seq<ConsumeReply>, sent: bool)
    requires |replies| >= p.maxLoops
    ensures var q := OnConsumerEvent(p, error, replies, sent);
            var e := if error != 0 then error else FirstAnswer(p, replies, 0);
            if error != 0 || (e != 0 && e != EAGAIN && e != ENODATA) then
              Completes(p, q) && q.done[|p.done|].error == if error == 0 && e == ECANCELED then 0 else e
            else q.done == p.done
  {
    hide ConsumeLoop, FirstAnswer;
    var p1 := p.(waitingForConsumer := false);
    ConsumeKeepsHistory(p1, replies, 0);
    ConsumingEnds(p1, replies, 0);
    FlagsDoNotAnswer(p, p1, replies, 0);
  }

  lemma {:induction false} FlagsDoNotAnswer(p: Pipe, q: Pipe, replies: seq<ConsumeReply>, loop: nat)
    requires |replies| >= p.maxLoops && q.maxLoops == p.maxLoops
    requires q.hasConsumer == p.hasConsumer && q.buffer == p.buffer
    ensures FirstAnswer(p, replies, loop) == FirstAnswer(q, replies, loop)
    decreases p.maxLoops - loop
  {
    hide Consumed;
    if p.hasConsumer && p.buffer != [] && loop < p.maxLoops && replies[loop].error == 0 {
      ConsumedKeeps(p, replies[loop]);
      ConsumedKeeps(q, replies[loop]);
      ConsumedFlags(p, replies[loop]);
      ConsumedFlags(q, replies[loop]);
      FlagsDoNotAnswer(Consumed(p, replies[loop]), Consumed(q, replies[loop]), replies, loop + 1);
    }
  }

  /** How much the consumer wants to take by the calls from `from` on. */
  function Wanted(replies: seq<ConsumeReply>, from: nat, n: nat): nat
    requires from <= n <= |replies|
    decreases n - from
  {
    if from == n then 0 else replies[from].taken + Wanted(replies, from + 1, n)
  }

  predicate TakesWell(r: ConsumeReply) {
    r.error == 0 && !r.dropAdder && !r.dropConsumer
  }

  /** The first `n` bytes, as far as there are as many, and the rest. */
  function Head(b: seq<Byte>, n: nat): seq<Byte> {
    if n < |b| then b[..n] else b
  }

  function Rest(b: seq<Byte>, n: nat): seq<Byte> {
    if n < |b| then b[n..] else []
  }

  lemma TwoMeals(b: seq<Byte>, n: nat, m: nat, before: seq<Byte>)
    ensures Rest(Rest(b, n), m) == Rest(b, n + m)
    ensures (before + Head(b, n)) + Head(Rest(b, n), m) == before + Head(b, n + m)
  {
  }

  lemma OneMeal(p: Pipe, r: ConsumeReply)
    requires TakesWell(r)
    ensures Consumed(p, r)
         == p.(buffer := Rest(p.buffer, r.taken), consumed := p.consumed + Head(p.buffer, r.taken), consumerError := 0)
  {
    assert p.buffer[..|p.buffer|] == p.buffer && p.buffer[|p.buffer|..] == [];
  }

  lemma {:induction false} GoodMeals(p: Pipe, replies: seq<ConsumeReply>, loop: nat)
    requires |replies| >= p.maxLoops >= loop && Attached(p)
    requires forall i :: loop <= i < p.maxLoops ==> TakesWell(replies[i])
    ensures var r, n := ConsumeLoop(p, replies, loop), Wanted(replies, loop, p.maxLoops);
            r.goOn && r.pipe.buffer == Rest(p.buffer, n) && r.pipe.consumed == p.consumed + Head(p.buffer, n)
    decreases p.maxLoops - loop
  {
    hide Consumed, Rest, Head, ConsumeVerdict;
    if p.buffer != [] && loop < p.maxLoops {
      OneMeal(p, replies[loop]);
      GoodMeals(Consumed(p, replies[loop]), replies, loop + 1);
      TwoMeals(p.buffer, replies[loop].taken, Wanted(replies, loop + 1, p.maxLoops), p.consumed);
    } else {
      NoMeal(p.buffer, p.consumed, Wanted(replies, loop, p.maxLoops));
    }
  }

  lemma NoMeal(b: seq<Byte>, before: seq<Byte>, n: nat)
    requires b == [] || n == 0
    ensures Rest(b, n) == b && before + Head(b, n) == before
  {
  }

  /** If all calls go well, the consumer gets what it wants to take, from the head of the buffer, as far
      as there is enough. */
  lemma GoodEventConsumes(p: Pipe, replies: seq<ConsumeReply>, sent: bool)
    requires |replies| >= p.maxLoops && Attached(p)
    requires forall i :: 0 <= i < p.maxLoops ==> TakesWell(replies[i])
    ensures var q, n := OnConsumerEvent(p, 0, replies, sent), Wanted(replies, 0, p.maxLoops);
            && q.done == p.done
            && q.buffer == (if n < |p.buffer| then p.buffer[n..] else [])
            && q.consumed == p.consumed + (if n < |p.buffer| then p.buffer[..n] else p.buffer)
  {
    hide ConsumeLoop;
    GoodMeals(p.(waitingForConsumer := false), replies, 0);
    ConsumeKeepsHistory(p.(waitingForConsumer := false), replies, 0);
  }

  // ---------------------------------------------------------------- the adder's answers

  /** The bytes of the first `n` calls of the adder. */
  function BytesOf(replies: seq<AddReply>, from: nat, n: nat): seq<Byte>
    requires from <= n <= |replies|
    decreases n - from
  {
    if from == n then [] else replies[from].bytes + BytesOf(replies, from + 1, n)
  }

  /** Rounds that go well: their bytes are in the buffer, in order, and nothing else has changed. */
  lemma {:induction false} GoodRounds(p: Pipe, replies: seq<AddReply>, loop: nat, n: nat)
    requires |replies| >= p.maxLoops && loop <= n <= p.maxLoops && Attached(p) && p.adderError == 0
    requires forall i :: loop <= i < n ==> GoesWell(replies[i])
    ensures var bytes := BytesOf(replies, loop, n);
            AddLoop(p, replies, loop)
            == AddLoop(p.(buffer := p.buffer + bytes, added := p.added + bytes), replies, n)
    decreases n - loop
  {
    hide AddVerdict;
    if loop < n {
      var r, bytes := replies[loop], BytesOf(replies, loop + 1, n);
      var p1 := p.(buffer := p.buffer + r.bytes, added := p.added + r.bytes);
      assert Added(p, r) == p1;
      GoodRounds(p1, replies, loop + 1, n);
      Regroup(p.buffer, r.bytes, bytes);
      Regroup(p.added, r.bytes, bytes);
    } else {
      assert p.buffer + [] == p.buffer && p.added + [] == p.added;
    }
  }

  /** The adder's answer `e` in the `n`-th round of an event, the first one that does not go well,
      with both ends still attached: whether the pipe is done, and with which error. */
  predicate Ends(e: int, n: nat, waitForEmpty: bool, empty: bool, starving: bool) {
    if e == EAGAIN then false
    else if e == ENODATA then !waitForEmpty || empty || starving
    else if e == ENOBUFS then n == 0 && starving
    else n == 0
  }

  lemma AdderEndsExactly(p: Pipe, replies: seq<AddReply>, sent: bool, n: nat)
    requires |replies| >= p.maxLoops && Attached(p) && p.adderError == 0 && n < p.maxLoops
    requires forall i :: 0 <= i < n ==> GoesWell(replies[i])
    requires replies[n].error != 0 && !replies[n].dropAdder && !replies[n].dropConsumer
    ensures var q, e := OnAdderEvent(p, 0, replies, sent), replies[n].error;
            var bytes := BytesOf(replies, 0, n) + replies[n].bytes;
            var buffer := p.buffer + bytes;
            && (if Ends(e, n, p.waitForEmpty, buffer == [], p.consumerError == ENODATA) then
                  && q.done == p.done + [Completion(if e == ENODATA then 0 else e, Adder, buffer,
                                                    p.consumerError == ENODATA, p.waitForEmpty)]
                else
                  && q.done == p.done && q.buffer == buffer
                  && q.adderError == (if IsSignal(e) then 0 else e)
                  && (q.waitingForAdder <==> e == EAGAIN))
            && q.added == p.added + bytes
  {
    hide AddLoop;
    var p0, bytes := p.(waitingForAdder := false), BytesOf(replies, 0, n);
    GoodRounds(p0, replies, 0, n);
    var p1 := p0.(buffer := p.buffer + bytes, added := p.added + bytes);
    LastRound(p1, replies, n);
    Regroup(p.buffer, bytes, replies[n].bytes);
    Regroup(p.added, bytes, replies[n].bytes);
    hide BytesOf;
  }

  lemma LastRound(p: Pipe, replies: seq<AddReply>, n: nat)
    requires |replies| >= p.maxLoops && Attached(p) && p.adderError == 0 && n < p.maxLoops
    requires replies[n].error != 0 && !replies[n].dropAdder && !replies[n].dropConsumer
    ensures var r, e := AddLoop(p, replies, n), replies[n].error;
            var q := p.(buffer := p.buffer + replies[n].bytes, added := p.added + replies[n].bytes);
            && (!r.goOn <==> Ends(e, n, p.waitForEmpty, q.buffer == [], p.consumerError == ENODATA))
            && r.pipe == q.(adderError := if (r.goOn && IsSignal(e)) || e == ENODATA then 0 else e,
                            waitingForAdder := p.waitingForAdder || e == EAGAIN)
  {
  }

  /** If all rounds go well, all their bytes are there and the pipe goes on. */
  lemma GoodEventAdds(p: Pipe, replies: seq<AddReply>, sent: bool)
    requires |replies| >= p.maxLoops && Attached(p) && p.adderError == 0
    requires forall i :: 0 <= i < p.maxLoops ==> GoesWell(replies[i])
    ensures var q, bytes := OnAdderEvent(p, 0, replies, sent), BytesOf(replies, 0, p.maxLoops);
            q.done == p.done && q.buffer == p.buffer + bytes && q.added == p.added + bytes
  {
    hide BytesOf;
    GoodRounds(p.(waitingForAdder := false), replies, 0, p.maxLoops);
  }

  /** Adding with nobody attached to consume is an error, unless the adder has nothing to add. */
  lemma LonelyAdderFails(p: Pipe, replies: seq<AddReply>, sent: bool)
    requires |replies| >= p.maxLoops > 0 && p.hasAdder && !p.hasConsumer && p.adderError == 0
    requires !replies[0].dropAdder
    ensures var q, e := OnAdderEvent(p, 0, replies, sent), replies[0].error;
            if e == EAGAIN || e == ENODATA then q.done == p.done && (q.waitingForAdder <==> e == EAGAIN)
            else Completes(p, q) && q.done[|p.done|].error == EINVAL
  {
  }

  // ---------------------------------------------------------------- attaching and detaching

  predicate Detached(q: Pipe) {
    !q.hasAdder && !q.hasConsumer && q.buffer == [] && q.cleared && q.waitForEmpty
  }

  lemma DoneDetaches(p: Pipe, error: int, source: Source)
    ensures var q := Done(p, error, source);
            Detached(q) && (Attached(p) ==> !q.waitingForAdder && !q.waitingForConsumer)
  {
  }

  lemma AdderEventDetaches(p: Pipe, error: int, adds: seq<AddReply>, sent: bool)
    requires |adds| >= p.maxLoops
    ensures var q := OnAdderEvent(p, error, adds, sent);
            q.done != p.done ==>
              Detached(q) && (error != 0 && Attached(p) ==> !q.waitingForAdder && !q.waitingForConsumer)
  {
    hide AddLoop, Done, Detached;
    var q := AddToBuffer(p.(waitingForAdder := false), adds).pipe;
    AddKeepsHistory(p.(waitingForAdder := false), adds, 0);
    DoneDetaches(p, error, Consumer);
    DoneDetaches(q, q.adderError, Adder);
  }

  lemma ConsumerEventDetaches(p: Pipe, error: int, consumes: seq<ConsumeReply>, sent: bool)
    requires |consumes| >= p.maxLoops
    ensures var q := OnConsumerEvent(p, error, consumes, sent);
            q.done != p.done ==>
              Detached(q) && (error != 0 && Attached(p) ==> !q.waitingForAdder && !q.waitingForConsumer)
  {
    hide ConsumeLoop, Done, Detached;
    var q := ConsumeLoop(p.(waitingForConsumer := false), consumes, 0).pipe;
    ConsumeKeepsHistory(p.(waitingForConsumer := false), consumes, 0);
    DoneDetaches(p, error, Consumer);
    DoneDetaches(q, q.consumerError, Consumer);
  }

  /** Whatever completes the pipe leaves nobody attached and nothing in the buffer; and when an event
      itself carries the error and both ends were there, nobody is waited for. */
  lemma CompletedIsDetached(p: Pipe, e: Event)
    requires Enabled(p.maxLoops, e)
    ensures var q := Handle(p, e);
            q.done != p.done ==>
              && Detached(q)
              && (e.AdderEvent? || e.ConsumerEvent?)
              && (e.error != 0 && Attached(p) ==> !q.waitingForAdder && !q.waitingForConsumer)
  {
    hide OnAdderEvent, OnConsumerEvent, Detached;
    match e
    case AdderEvent(error, adds, sent) => AdderEventDetaches(p, error, adds, sent);
    case ConsumerEvent(error, consumes, sent) => ConsumerEventDetaches(p, error, consumes, sent);
    case _ =>
  }

  /** A new consumer starts without an error and is waited for exactly if its first event was sent. */
  lemma NewConsumer(p: Pipe, sent: bool)
    ensures var q := SetConsumer(p, Other, sent);
            && q.hasConsumer && q.consumerError == 0 && (q.waitingForConsumer <==> sent)
            && q.buffer == p.buffer && q.hasAdder == p.hasAdder && q.adderError == p.adderError
            && q.waitingForAdder == p.waitingForAdder && q.waitForEmpty == p.waitForEmpty
    ensures var q := SetConsumer(p, Nobody, sent);
            !q.hasConsumer && q.buffer == p.buffer && (p.hasConsumer ==> q.consumerError == 0 && !q.waitingForConsumer)
    ensures SetConsumer(p, Same, sent) == p
  {
  }

  /** A new adder starts without an error and has to call first; the policy is set in any case. */
  lemma NewAdder(p: Pipe, wait: bool)
    ensures var q := SetAdder(p, Other, wait);
            && q.hasAdder && q.adderError == 0 && q.waitForEmpty == wait
            && (p.hasAdder ==> !q.waitingForAdder) && q.buffer == p.buffer
            && q.hasConsumer == p.hasConsumer && q.consumerError == p.consumerError
            && q.waitingForConsumer == p.waitingForConsumer
    ensures var q := SetAdder(p, Nobody, wait);
            !q.hasAdder && q.waitForEmpty == wait && q.buffer == p.buffer
            && (p.hasAdder ==> q.adderError == 0 && !q.waitingForAdder)
    ensures SetAdder(p, Same, wait) == p.(waitForEmpty := wait)
  {
  }
}
