/** What every run of the ACME client keeps. */
module AcmeProofs {
  import opened Options
  import opened AcmeModel

  // ---------------------------------------------------------------- the descent

  /** The operations that executing `op` leaves on the stack: each but the last waits for the
      next one, and the last one acts. Nothing is left when `op` succeeds at once. */
  function Path(d: Data, op: Op): (p: seq<Op>)
    ensures p == [] <==> Early(d, op)
    ensures p != [] ==> p[0] == op
    decreases Rank(op), 1, 0
  {
    if Early(d, op) then [] else [op] + Below(d, Calls(op), Rank(op))
  }

  function Below(d: Data, ops: seq<Op>, bound: nat): (p: seq<Op>)
    requires forall op :: op in ops ==> Rank(op) < bound
    ensures p != [] ==> p[0] in ops && !Early(d, p[0])
    ensures p == [] ==> forall op :: op in ops ==> Early(d, op)
    decreases bound, 0, |ops|
  {
    if ops == [] then []
    else if Early(d, ops[0]) then Below(d, ops[1..], bound)
    else Path(d, ops[0])
  }

  function Last(p: seq<Op>): Op
    requires p != []
  {
    p[|p| - 1]
  }

  lemma ActsOk(c: Client, op: Op)
    requires c.data.Some? && !Early(c.data.value, op)
    ensures Act(c, op).ok <==> IsRoot(op) && !op.TermsImpl?
    ensures Act(c, op).ok ==> Act(c, op).client.stack == []
  {
  }

  /** Where a descent from `op` ends. */
  function Leaf(op: Op, below: seq<Op>): Op {
    if below == [] then op else Last(below)
  }

  /** A descent ends at an operation that has something to do, and that is not a root unless
      it is where the descent began. */
  lemma {:induction false} LeafActs(d: Data, ops: seq<Op>, bound: nat)
    requires forall op :: op in ops ==> Rank(op) < bound && !IsRoot(op)
    ensures var b := Below(d, ops, bound);
            b != [] ==> !Early(d, Last(b)) && !IsRoot(Last(b))
    decreases bound, |ops|
  {
    hide Early;
    if ops != [] {
      if Early(d, ops[0]) {
        LeafActs(d, ops[1..], bound);
      } else {
        var b := Below(d, Calls(ops[0]), Rank(ops[0]));
        LeafActs(d, Calls(ops[0]), Rank(ops[0]));
        assert Path(d, ops[0]) == [ops[0]] + b;
      }
    }
  }

  lemma Pushed(c: Client, op: Op, b: seq<Op>)
    ensures c.(stack := c.stack + [op]).(stack := c.(stack := c.stack + [op]).stack + b)
         == c.(stack := c.stack + ([op] + b))
    ensures c.(stack := c.stack + []) == c
    ensures Popped(c.(stack := c.stack + [op])) == c
  {
    assert c.stack + [op] + b == c.stack + ([op] + b);
    assert c.stack + [] == c.stack;
    assert (c.stack + [op])[..|c.stack|] == c.stack;
  }

  /** `execute` amounts to one descent along `Path` and one action at its end. */
  lemma {:induction false} ExecDescends(c: Client, op: Op)
    requires c.data.Some?
    ensures var p := Path(c.data.value, op);
            && (p == [] ==> Exec(c, op) == Result(c, true))
            && (p != [] ==> !Early(c.data.value, Last(p)) && Exec(c, op) == Act(c.(stack := c.stack + p), Last(p)))
    decreases Rank(op), 2, 0
  {
    hide Act, Early, Run, Below, Calls;
    var d := c.data.value;
    var c1 := c.(stack := c.stack + [op]);
    var b := Below(d, Calls(op), Rank(op));
    RunDescends(c1, op);
    Pushed(c, op, b);
    if !Early(d, op) {
      ActsOk(c1.(stack := c1.stack + b), Leaf(op, b));
    }
  }

  lemma {:induction false} RunDescends(c: Client, op: Op)
    requires c.data.Some?
    ensures var d := c.data.value;
            var b := Below(d, Calls(op), Rank(op));
            && (Early(d, op) ==> Run(c, op) == Result(c, true))
            && (!Early(d, op) ==>
                  && !Early(d, Leaf(op, b))
                  && Run(c, op) == Act(c.(stack := c.stack + b), Leaf(op, b)))
    decreases Rank(op), 1, 0
  {
    hide Act, Early, Below, RunAll, Calls;
    var b := Below(c.data.value, Calls(op), Rank(op));
    AllDescend(c, Calls(op), Rank(op));
    LeafActs(c.data.value, Calls(op), Rank(op));
    Pushed(c, op, b);
    if b != [] {
      ActsOk(c.(stack := c.stack + b), Last(b));
    }
  }

  lemma {:induction false} AllDescend(c: Client, ops: seq<Op>, bound: nat)
    requires c.data.Some?
    requires forall op :: op in ops ==> Rank(op) < bound && !IsRoot(op)
    ensures var b := Below(c.data.value, ops, bound);
            && (b == [] ==> RunAll(c, ops, bound) == Result(c, true))
            && (b != [] ==>
                  && !Early(c.data.value, Last(b))
                  && RunAll(c, ops, bound) == Act(c.(stack := c.stack + b), Last(b)))
    decreases bound, 0, |ops|
  {
    hide Act, Early, Exec, Path, Calls;
    LeafActs(c.data.value, ops, bound);
    if ops != [] {
      ExecDescends(c, ops[0]);
      if Early(c.data.value, ops[0]) {
        AllDescend(c, ops[1..], bound);
      } else {
        var p := Path(c.data.value, ops[0]);
        ActsOk(c.(stack := c.stack + p), Last(p));
      }
    }
  }

  /** The stack with which re-entering it comes to act: the operations that now succeed are
      dropped, and the first one that does not is descended into. */
  function Resume(d: Data, stack: seq<Op>): (r: seq<Op>)
    ensures r != [] && stack != [] ==> r[0] == stack[0]
    decreases |stack|
  {
    if stack == [] then []
    else if Early(d, Last(stack)) then Resume(d, stack[..|stack| - 1])
    else stack + Below(d, Calls(Last(stack)), Rank(Last(stack)))
  }

  lemma {:induction false} ReenterResumes(c: Client)
    requires c.data.Some?
    ensures var r := Resume(c.data.value, c.stack);
            && (r == [] ==> Reenter(c) == c.(stack := []))
            && (r != [] ==>
                  && !Early(c.data.value, Last(r))
                  && Reenter(c) == Act(c.(stack := r), Last(r)).client)
    decreases |c.stack|
  {
    hide Act, Early, Run, Below, Calls;
    if c.stack != [] {
      var op := Last(c.stack);
      RunDescends(c, op);
      if Early(c.data.value, op) {
        ReenterResumes(Popped(c));
      } else {
        var b := Below(c.data.value, Calls(op), Rank(op));
        ActsOk(c.(stack := c.stack + b), Leaf(op, b));
      }
    }
  }

  // ---------------------------------------------------------------- the shape of the stack

  /** `b` may stand right above `a`: `a` executes it, or a bad nonce has put it there. */
  predicate Follows(a: Op, b: Op) {
    b in Calls(a) || b == GetNonce
  }

  /** A call path from a root. */
  predicate IsPath(p: seq<Op>) {
    forall i :: 0 < i < |p| ==> Follows(p[i - 1], p[i]) && !IsRoot(p[i])
  }

  predicate IsStack(p: seq<Op>) {
    p != [] ==> IsRoot(p[0]) && IsPath(p)
  }

  lemma JoinPaths(a: seq<Op>, b: seq<Op>)
    requires IsPath(a) && IsPath(b)
    requires a != [] && b != [] ==> Follows(Last(a), b[0]) && !IsRoot(b[0])
    ensures IsPath(a + b)
  {
    forall i | 0 < i < |a + b|
      ensures Follows((a + b)[i - 1], (a + b)[i]) && !IsRoot((a + b)[i])
    {
      if i > |a| {
        assert Follows(b[i - |a| - 1], b[i - |a|]);
      }
    }
  }

  lemma {:induction false} BelowIsPath(d: Data, ops: seq<Op>, bound: nat)
    requires forall op :: op in ops ==> Rank(op) < bound && !IsRoot(op)
    ensures IsPath(Below(d, ops, bound))
    ensures Below(d, ops, bound) != [] ==> !IsRoot(Below(d, ops, bound)[0])
    decreases bound, |ops|
  {
    hide Early;
    if ops != [] {
      if Early(d, ops[0]) {
        BelowIsPath(d, ops[1..], bound);
      } else {
        var op := ops[0];
        BelowIsPath(d, Calls(op), Rank(op));
        JoinPaths([op], Below(d, Calls(op), Rank(op)));
      }
    }
  }

  lemma {:induction false} ResumeIsStack(d: Data, stack: seq<Op>)
    requires IsStack(stack)
    ensures IsStack(Resume(d, stack))
    ensures stack != [] ==> Resume(d, stack) != []
    decreases |stack|
  {
    hide Early;
    if stack != [] {
      var op := Last(stack);
      if Early(d, op) {
        RootNotEarly(d, op);
        ResumeIsStack(d, stack[..|stack| - 1]);
      } else {
        BelowIsPath(d, Calls(op), Rank(op));
        JoinPaths(stack, Below(d, Calls(op), Rank(op)));
      }
    }
  }

  lemma RootNotEarly(d: Data, op: Op)
    ensures IsRoot(op) ==> !Early(d, op)
  {
  }

  /** What the operation at the top of the stack may be waiting for. */
  predicate AskedBy(op: Op, kind: Kind) {
    match op
    case TermsImpl => kind == Terms
    case GetDirectory => kind == FetchDirectory
    case GetNonce => kind == FetchNonce
    case GetAccount => kind == Account
    case GetOrder => kind == NewOrder
    case GetAuths => kind == FetchAuth
    case StartChallenges => kind == StartChallenge
    case WaitChallenges => kind == PollAuth
    case Finalize => kind == FinalizeOrder || kind == PollOrder
    case GetCertificate => kind == Certificate
    case _ => false
  }

  /** Between callbacks: a stack that is a call path, and one request under way that its top
      asked for, unless the operation has stalled. No operation, no request. */
  predicate Shape(c: Client) {
    && IsStack(c.stack)
    && (c.stack == [] ==> c.pending == [] && !c.stalled)
    && (c.stack != [] ==>
          && c.data.Some?
          && if c.stalled then c.pending == [] && Last(c.stack) == StartChallenges
             else |c.pending| == 1 && AskedBy(Last(c.stack), c.pending[0].kind))
  }

  /** No further event after a terminal one, until the next public call; and every terminal
      event carries the id of the latest call. */
  predicate LogOk(log: seq<Item>) {
    && (forall i :: 0 < i < |log| && log[i - 1].Finished? ==> log[i].Started?)
    && (forall i :: 0 <= i < |log| && log[i].Finished? ==> log[i].opid == LatestCall(log[..i]).opid)
    && (log != [] ==> log[0].Started?)
  }

  /** The latest public call; the id 0 stands for none. */
  function LatestCall(log: seq<Item>): (call: Item)
    ensures call.Started?
  {
    if log == [] then Started(0, TermsImpl, 0, false)
    else if log[|log| - 1].Started? then log[|log| - 1]
    else LatestCall(log[..|log| - 1])
  }

  /** While an operation is under way its terminal event is still to come; afterwards nothing
      is left of it. */
  predicate Terminal(c: Client) {
    && LogOk(c.log) && c.opid == LatestCall(c.log).opid
    && (c.stack != [] ==> c.log != [] && !c.log[|c.log| - 1].Finished? && Requested(c))
  }

  /** The operation under way is the one that was asked for, for the hosts that were named. */
  predicate Requested(c: Client)
    requires c.stack != []
  {
    && c.stack[0] == LatestCall(c.log).root
    && c.data.Some? && c.data.value.hosts == LatestCall(c.log).hosts
  }

  /** When requests are made: finalizing needs a ready order, the certificate a valid one. */
  predicate Ordered(log: seq<Item>) {
    forall i :: 0 <= i < |log| && log[i].Issued? ==>
      && (log[i].request.kind == FinalizeOrder ==> log[i].status == "ready")
      && (log[i].request.kind == Certificate ==> log[i].status == "valid")
  }

  /** The bookkeeping of authorizations, which makes the handlers' indexing safe. */
  predicate AuthsOk(d: Data, stack: seq<Op>) {
    && |d.auths| <= d.hosts
    && (if d.auths == [] then d.polling == 0 else d.polling < |d.auths|)
    && (StartChallenges in stack || WaitChallenges in stack ==> Authorized(d))
  }

  /** There is an account, and an authorization for every host, and no certificate yet. */
  predicate Authorized(d: Data) {
    |d.auths| == d.hosts && d.hasAccount && d.chain == ""
  }

  predicate Used(log: seq<Item>, nonce: string) {
    exists i :: 0 <= i < |log| && log[i].Issued? && log[i].request.signed && log[i].request.nonce == nonce
  }

  /** No nonce has signed two requests, and the one in hand is still good unless the request
      under way carries it. The empty string stands for no nonce. */
  ghost predicate NoncesOk(c: Client) {
    && (forall n :: Used(c.log, n) && n != "" ==> n in c.nonces)
    && OncePerNonce(c.log)
    && (c.data.Some? && c.data.value.nonce != "" ==>
          && c.data.value.nonce in c.nonces
          && (c.pending == [] || !c.pending[0].signed ==> !Used(c.log, c.data.value.nonce)))
  }

  predicate OncePerNonce(log: seq<Item>) {
    forall i, j :: 0 <= i < j < |log| ==>
      !(&& log[i].Issued? && log[i].request.signed && log[i].request.nonce != ""
        && log[j].Issued? && log[j].request.signed
        && log[i].request.nonce == log[j].request.nonce)
  }

  /** An operation all of whose sub-operations succeed, and which itself has not. */
  predicate ReadyToAct(d: Data, op: Op) {
    !Early(d, op) && Below(d, Calls(op), Rank(op)) == []
  }

  /** The request under way is the one that the top of the stack would make again, except that
      a challenge is taken off the queue without waiting for the reply. */
  predicate Asking(c: Client) {
    c.pending != [] && c.stack != [] && c.data.Some? ==>
      if Last(c.stack) == StartChallenges then OrderOf(c.data.value).status == "pending" && c.data.value.canSign
      else ReadyToAct(c.data.value, Last(c.stack)) && Own(c.data.value, Last(c.stack)) == Ask(c.pending[0])
  }

  lemma FinalizedFirst(d: Data, op: Op)
    ensures op == GetCertificate && ReadyToAct(d, op) ==> OrderOf(d).status == "valid"
  {
    if op == GetCertificate && ReadyToAct(d, op) {
      assert Calls(op)[5] == Finalize;
      assert Early(d, Finalize);
    }
  }

  /** What holds between callbacks; the part about nonces only as long as the server has been
      `honest`, which is to say has not repeated one. */
  ghost predicate Inv(c: Client, honest: bool) {
    && Shape(c) && Asking(c) && Terminal(c) && Ordered(c.log) && (honest ==> NoncesOk(c))
    && (c.data.Some? ==> AuthsOk(c.data.value, c.stack))
    && (c.data.Some? && c.pending != [] && c.pending[0].kind == FetchAuth ==>
          |c.data.value.auths| < c.data.value.hosts)
  }

  // ---------------------------------------------------------------- acting keeps the invariant

  /** All that holds when the operation at the top of `c.stack` is about to act. */
  ghost predicate Poised(c: Client, honest: bool) {
    && c.stack != [] && IsStack(c.stack) && c.data.Some? && c.pending == [] && !c.stalled
    && ReadyToAct(c.data.value, Last(c.stack))
    && Terminal(c) && Ordered(c.log) && (honest ==> NoncesOk(c)) && AuthsOk(c.data.value, c.stack)
  }

  lemma LogGrows(log: seq<Item>, item: Item)
    requires LogOk(log) && log != [] && !log[|log| - 1].Finished? && !item.Started?
    requires item.Finished? ==> item.opid == LatestCall(log).opid
    ensures LogOk(log + [item]) && LatestCall(log + [item]) == LatestCall(log)
  {
    LatestOf(log, item);
    var l := log + [item];
    FinishedGrows(log, item);
    hide LatestCall;
    assert forall i :: 0 <= i < |log| ==> l[i] == log[i];
    forall i | 0 < i < |l| && l[i - 1].Finished?
      ensures l[i].Started?
    {
    }
  }

  lemma FinishedGrows(log: seq<Item>, item: Item)
    requires forall i :: 0 <= i < |log| && log[i].Finished? ==> log[i].opid == LatestCall(log[..i]).opid
    requires item.Finished? ==> item.opid == LatestCall(log).opid
    ensures var l := log + [item];
            forall i :: 0 <= i < |l| && l[i].Finished? ==> l[i].opid == LatestCall(l[..i]).opid
  {
    hide LatestCall;
    var l := log + [item];
    forall i | 0 <= i < |l| && l[i].Finished?
      ensures l[i].opid == LatestCall(l[..i]).opid
    {
      Prefix(log, item, i);
    }
  }

  lemma LatestOf(log: seq<Item>, item: Item)
    ensures LatestCall(log + [item]) == if item.Started? then item else LatestCall(log)
  {
    Prefix(log, item, |log|);
  }

  lemma Prefix(log: seq<Item>, item: Item, i: nat)
    requires i <= |log|
    ensures (log + [item])[..i] == log[..i]
    ensures i == |log| ==> (log + [item])[..i] == log
  {
  }

  lemma IssueKeepsNonces(c: Client, q: Request, status: string)
    requires c.data.Some? && c.pending == [] && NoncesOk(c)
    requires q.signed ==> q.nonce == c.data.value.nonce
    ensures NoncesOk(c.(pending := [q], log := c.log + [Issued(q, status)]))
  {
    var l := c.log + [Issued(q, status)];
    forall n | Used(l, n)
      ensures Used(c.log, n) || (q.signed && q.nonce == n)
    {
      var i :| 0 <= i < |l| && l[i].Issued? && l[i].request.signed && l[i].request.nonce == n;
      if i < |c.log| {
        assert c.log[i] == l[i];
      }
    }
  }

  lemma EventKeepsNonces(c: Client, item: Item)
    requires NoncesOk(c) && !item.Issued?
    ensures NoncesOk(c.(data := None, stack := [], log := c.log + [item]))
  {
    var l := c.log + [item];
    forall n | Used(l, n)
      ensures Used(c.log, n)
    {
      var i :| 0 <= i < |l| && l[i].Issued? && l[i].request.signed && l[i].request.nonce == n;
      assert c.log[i] == l[i];
    }
  }

  lemma OwnAsks(d: Data, op: Op)
    requires !Early(d, op)
    ensures match Own(d, op)
            case Ask(q) =>
              && AskedBy(op, q.kind) && (q.signed ==> q.nonce == d.nonce)
              && (q.kind == FinalizeOrder ==> OrderOf(d).status == "ready")
              && (op == StartChallenges ==> OrderOf(d).status == "pending" && d.canSign)
            case Stall => op == StartChallenges
            case _ => true
  {
  }

  lemma StopKeepsInv(c: Client, verdict: Verdict, honest: bool)
    requires c.stack != [] && c.pending == [] && !c.stalled
    requires Terminal(c) && Ordered(c.log) && (honest ==> NoncesOk(c))
    ensures Inv(Stop(c, verdict), honest)
  {
    hide NoncesOk, LogOk, LatestCall, IsStack;
    LogGrows(c.log, Finished(c.opid, verdict));
    if honest {
      EventKeepsNonces(c, Finished(c.opid, verdict));
    }
    EmptyStack();
  }

  lemma EmptyStack()
    ensures IsStack([])
  {
  }

  lemma ActKeepsInv(c: Client, honest: bool)
    requires Poised(c, honest)
    ensures Inv(Act(c, Last(c.stack)).client, honest)
  {
    hide NoncesOk, LogOk, LatestCall, IsStack, AskedBy, Early, Own, AuthsOk, Below;
    var d, op := c.data.value, Last(c.stack);
    FinalizedFirst(d, op);
    OwnAsks(d, op);
    AuthsAfter(d, op, c.stack);
    match Own(d, op)
    case Ask(q) =>
      var item := Issued(q, OrderOf(d).status);
      LogGrows(c.log, item);
      if honest {
        IssueKeepsNonces(c, q, OrderOf(d).status);
        SameNonce(c.(pending := [q], log := c.log + [item]), AfterOwn(d, op));
      }
      AskedByOne(d, op, q.kind);
      assert [] + [q] == [q];
    case Stall =>
      if honest {
        SameNonce(c, AfterOwn(d, op));
      }
    case Fail => StopKeepsInv(c, Failed, honest);
    case Finish(v) => StopKeepsInv(c, v, honest);
  }

  lemma AskedByOne(d: Data, op: Op, kind: Kind)
    requires AskedBy(op, kind) && !Early(d, op)
    ensures kind == Certificate <==> op == GetCertificate
    ensures kind == FetchAuth ==> |d.auths| != d.hosts
  {
  }

  lemma SameNonce(c: Client, d: Data)
    requires c.data.Some? && d.nonce == c.data.value.nonce && NoncesOk(c)
    ensures NoncesOk(c.(data := Some(d)))
    ensures NoncesOk(c.(data := Some(d), stalled := true))
  {
  }

  lemma AuthsAfter(d: Data, op: Op, stack: seq<Op>)
    requires !Early(d, op) && AuthsOk(d, stack)
    ensures op.StartChallenges? ==> d.todo != []
    ensures AuthsOk(AfterOwn(d, op), stack)
  {
  }
}
