/** The pipe as the source writes it: an object whose event handlers set its flags and error
    fields and drive the adder and the consumer against the shared buffer. What those two do is
    given by a script, one entry a call. */
module Pipe {
  import M = PipeModel

  class Pipe {
    const maxLoops: nat
    var hasAdder: bool
    var hasConsumer: bool
    var buffer: seq<M.Byte>
    var waitingForAdder: bool
    var waitingForConsumer: bool
    var consumerError: int
    var adderError: int
    var waitForEmpty: bool
    ghost var added: seq<M.Byte>
    ghost var consumed: seq<M.Byte>
    ghost var cleared: bool
    ghost var done: seq<M.Completion>

    ghost function State(): (p: M.Pipe)
      reads this
      ensures p.maxLoops == maxLoops
    {
      M.Pipe(maxLoops, hasAdder, hasConsumer, buffer, waitingForAdder, waitingForConsumer,
             consumerError, adderError, waitForEmpty, added, consumed, cleared, done)
    }

    constructor (maxLoops: nat)
      ensures State() == M.NewPipe(maxLoops)
    {
      this.maxLoops := maxLoops;
      hasAdder, hasConsumer, buffer := false, false, [];
      waitingForAdder, waitingForConsumer := false, false;
      consumerError, adderError, waitForEmpty := 0, 0, true;
      added, consumed, cleared, done := [], [], false, [];
    }

    method SetAdder(who: M.Who, wait: bool)
      modifies this
      ensures State() == M.SetAdder(old(State()), who, wait)
    {
      if !M.Unchanged(hasAdder, who) {
        if hasAdder {
          waitingForAdder := false;
        }
        hasAdder := who == M.Other;
        adderError := 0;
      }
      waitForEmpty := wait;
    }

    method SetConsumer(who: M.Who, sent: bool)
      modifies this
      ensures State() == M.SetConsumer(old(State()), who, sent)
    {
      if !M.Unchanged(hasConsumer, who) {
        if hasConsumer {
          waitingForConsumer := false;
        }
        hasConsumer := who == M.Other;
        consumerError := 0;
        if hasConsumer {
          waitingForConsumer := sent;
        }
      }
    }

    method Clear()
      modifies this
      ensures State() == M.Clear(old(State()))
    {
      SetConsumer(M.Nobody, false);
      SetAdder(M.Nobody, true);
      buffer := [];
      cleared := true;
    }

    method Done(error: int, source: M.Source)
      modifies this
      ensures State() == M.Done(old(State()), error, source)
    {
      ghost var c := M.Completion(error, source, buffer, consumerError == M.ENODATA, waitForEmpty);
      Clear();
      done := done + [c];
    }

    /** A call of the adder, as the script says. */
    method CallAdder(r: M.AddReply)
      modifies this
      ensures State() == M.Added(old(State()), r)
    {
      buffer := buffer + r.bytes;
      added := added + r.bytes;
      if r.dropConsumer {
        SetConsumer(M.Nobody, false);
      }
      if r.dropAdder {
        SetAdder(M.Nobody, true);
      }
      adderError := r.error;
    }

    method CallConsumer(r: M.ConsumeReply)
      modifies this
      ensures State() == M.Consumed(old(State()), r)
    {
      var n := M.Min(r.taken, |buffer|);
      consumed := consumed + buffer[..n];
      buffer := buffer[n..];
      if r.dropConsumer {
        SetConsumer(M.Nobody, false);
      }
      if r.dropAdder {
        SetAdder(M.Nobody, true);
      }
      consumerError := r.error;
    }

    /** What follows a call of the adder that does not lead to another one. */
    method JudgeAdd(loop: nat) returns (goOn: bool)
      modifies this
      ensures M.Progress(State(), goOn) == M.AddVerdict(old(State()), loop)
    {
      if !hasConsumer {
        if adderError == M.EAGAIN {
          adderError := 0;
          waitingForAdder := true;
          return true;
        }
        if adderError == M.ENODATA {
          adderError := 0;
          return true;
        }
        adderError := M.EINVAL;
        return false;
      }
      if adderError == M.EAGAIN {
        adderError := 0;
        waitingForAdder := true;
        return true;
      }
      if adderError == M.ENODATA {
        adderError := 0;
        if !waitForEmpty || buffer == [] {
          return false;
        }
        return consumerError != M.ENODATA;
      }
      if adderError == M.ENOBUFS {
        if loop == 0 && consumerError == M.ENODATA {
          return false;
        }
        adderError := 0;
        return true;
      }
      return loop > 0;
    }

    method AddToBuffer(replies: seq<M.AddReply>) returns (goOn: bool)
      requires |replies| >= maxLoops
      modifies this
      ensures M.Progress(State(), goOn) == M.AddToBuffer(old(State()), replies)
    {
      hide M.Added, M.AddVerdict;
      if adderError != 0 {
        return false;
      }
      ghost var whole := M.AddLoop(State(), replies, 0);
      var loop := 0;
      while hasAdder && loop < maxLoops
        invariant 0 <= loop
        invariant M.AddLoop(State(), replies, loop) == whole
        decreases maxLoops - loop
      {
        ghost var p := State();
        M.OneAdd(p, replies[loop], loop);
        CallAdder(replies[loop]);
        if !hasConsumer || adderError != 0 {
          goOn := JudgeAdd(loop);
          return;
        }
        loop := loop + 1;
      }
      return true;
    }

    method ConsumeBuffer(replies: seq<M.ConsumeReply>) returns (goOn: bool)
      requires |replies| >= maxLoops
      modifies this
      ensures M.Progress(State(), goOn) == M.ConsumeLoop(old(State()), replies, 0)
    {
      hide M.Consumed;
      ghost var whole := M.ConsumeLoop(State(), replies, 0);
      var loop := 0;
      while hasConsumer && buffer != [] && loop < maxLoops
        invariant 0 <= loop
        invariant M.ConsumeLoop(State(), replies, loop) == whole
        decreases maxLoops - loop
      {
        ghost var p := State();
        M.OneConsume(p, replies[loop]);
        CallConsumer(replies[loop]);
        if consumerError != 0 {
          if consumerError == M.EAGAIN {
            waitingForConsumer := true;
            return true;
          }
          if consumerError == M.ENODATA {
            return true;
          }
          if consumerError == M.ECANCELED {
            consumerError := 0;
          }
          return false;
        }
        loop := loop + 1;
      }
      return true;
    }

    method OnAdderEvent(error: int, replies: seq<M.AddReply>, sent: bool)
      requires |replies| >= maxLoops
      modifies this
      ensures State() == M.OnAdderEvent(old(State()), error, replies, sent)
    {
      hide M.AddToBuffer, M.Done;
      if error != 0 {
        Done(error, M.Consumer);
        return;
      }
      waitingForAdder := false;
      var goOn := AddToBuffer(replies);
      if !goOn {
        Done(adderError, M.Adder);
        return;
      }
      if !waitingForConsumer && buffer != [] {
        if hasConsumer {
          waitingForConsumer := sent;
        }
      }
    }

    method OnConsumerEvent(error: int, replies: seq<M.ConsumeReply>, sent: bool)
      requires |replies| >= maxLoops
      modifies this
      ensures State() == M.OnConsumerEvent(old(State()), error, replies, sent)
    {
      hide M.ConsumeLoop, M.Done;
      if error != 0 {
        Done(error, M.Consumer);
        return;
      }
      waitingForConsumer := false;
      var goOn := ConsumeBuffer(replies);
      if !goOn {
        Done(consumerError, M.Consumer);
        return;
      }
      if !hasConsumer {
        return;
      }
      if consumerError != M.ENODATA && buffer != [] {
        if !waitingForConsumer {
          waitingForConsumer := sent;
        }
        return;
      }
      if !waitingForAdder && hasAdder {
        waitingForAdder := sent;
      }
    }
  }
}
