/** Every reply and every public call keeps the invariant of the ACME client, and what that
    means for whole runs. */
module AcmeRuns {
  import opened Options
  import opened AcmeModel
  import opened AcmeProofs

  // ---------------------------------------------------------------- what a descent has passed

  /** A descent ends at an operation all of whose sub-operations succeed. */
  lemma {:induction false} LeafIsReady(d: Data, ops: seq<Op>, bound: nat)
    requires forall op :: op in ops ==> Rank(op) < bound
    ensures var b := Below(d, ops, bound);
            b != [] ==> ReadyToAct(d, Last(b))
    decreases bound, |ops|
  {
    hide Early;
    if ops != [] {
      if Early(d, ops[0]) {
        LeafIsReady(d, ops[1..], bound);
      } else {
        LeafIsReady(d, Calls(ops[0]), Rank(ops[0]));
      }
    }
  }

  lemma {:induction false} ResumeIsReady(d: Data, stack: seq<Op>)
    ensures var r := Resume(d, stack);
            r != [] ==> ReadyToAct(d, Last(r))
    decreases |stack|
  {
    hide Early;
    if stack != [] {
      var op := Last(stack);
      if Early(d, op) {
        ResumeIsReady(d, stack[..|stack| - 1]);
      } else {
        LeafIsReady(d, Calls(op), Rank(op));
      }
    }
  }

  /** Nobody starts or waits for challenges before every host has its authorization. */
  lemma {:induction false} LateComesLate(d: Data, op: Op, late: Op)
    requires late == StartChallenges || late == WaitChallenges
    requires !Early(d, op) && late in Below(d, Calls(op), Rank(op))
    ensures Authorized(d)
    decreases Rank(op)
  {
    hide Early;
    var b := Below(d, Calls(op), Rank(op));
    BelowIsPath(d, Calls(op), Rank(op));
    BelowStarts(d, Calls(op), Rank(op));
    if b[0] == late {
      LateIsFirst(d, op, late);
    } else {
      LateComesLate(d, b[0], late);
    }
  }

  lemma {:induction false} BelowStarts(d: Data, ops: seq<Op>, bound: nat)
    requires forall op :: op in ops ==> Rank(op) < bound
    ensures var b := Below(d, ops, bound);
            b != [] ==> b == [b[0]] + Below(d, Calls(b[0]), Rank(b[0]))
    decreases |ops|
  {
    hide Early;
    if ops != [] && Early(d, ops[0]) {
      BelowStarts(d, ops[1..], bound);
    }
  }

  lemma LateIsFirst(d: Data, op: Op, late: Op)
    requires late == StartChallenges || late == WaitChallenges
    requires !Early(d, op)
    requires var b := Below(d, Calls(op), Rank(op)); b != [] && b[0] == late
    ensures Authorized(d)
  {
    hide Early, Below;
    OnlyCertificateCalls(op, late);
    var s := Calls(op);
    FirstNotEarly(d, s, Rank(op), 0);
    FirstNotEarly(d, s, Rank(op), 2);
    LateNeedsAuths(d, late);
  }

  lemma OnlyCertificateCalls(op: Op, late: Op)
    requires late == StartChallenges || late == WaitChallenges
    requires late in Calls(op)
    ensures op == GetCertificate
    ensures var s := Calls(op);
            |s| == 6 && s[0] == GetAccount && s[2] == GetAuths && late !in s[..1] && late !in s[..3]
  {
    var s := Calls(op);
    assert s[..1] == [s[0]] && s[..3] == [s[0], s[1], s[2]];
  }

  lemma LateNeedsAuths(d: Data, late: Op)
    requires late == StartChallenges || late == WaitChallenges
    ensures Early(d, GetAccount) && Early(d, GetAuths) && !Early(d, late) && !Early(d, GetCertificate) ==> Authorized(d)
  {
  }

  /** A descent starts with the first operation that does not succeed at once. */
  lemma {:induction false} FirstNotEarly(d: Data, ops: seq<Op>, bound: nat, i: nat)
    requires forall op :: op in ops ==> Rank(op) < bound
    requires i < |ops| && Below(d, ops, bound) != [] && Below(d, ops, bound)[0] !in ops[..i + 1]
    ensures Early(d, ops[i])
    decreases |ops|
  {
    hide Early;
    if Early(d, ops[0]) {
      if i > 0 {
        var b := Below(d, ops, bound)[0];
        assert b !in ops[1..][..i] by {
          assert forall k :: 0 <= k < i ==> ops[1..][k] == ops[..i + 1][k + 1];
        }
        FirstNotEarly(d, ops[1..], bound, i - 1);
      }
    }
  }

  /** Re-entering comes to a stack on which everything is ready to act. */
  lemma ResumeAuths(d: Data, stack: seq<Op>)
    requires AuthsOk(d, stack)
    ensures AuthsOk(d, Resume(d, stack))
  {
    hide Early, Resume;
    if StartChallenges in Resume(d, stack) {
      ResumeLate(d, stack, StartChallenges);
    }
    if WaitChallenges in Resume(d, stack) {
      ResumeLate(d, stack, WaitChallenges);
    }
  }

  lemma {:induction false} ResumeLate(d: Data, stack: seq<Op>, late: Op)
    requires late == StartChallenges || late == WaitChallenges
    requires late in Resume(d, stack)
    requires late in stack ==> Authorized(d)
    ensures Authorized(d)
    decreases |stack|
  {
    hide Early;
    var op := Last(stack);
    if Early(d, op) {
      ResumeLate(d, stack[..|stack| - 1], late);
    } else if late !in stack {
      LateComesLate(d, op, late);
    }
  }

  // ---------------------------------------------------------------- replies keep the invariant

  /** A client that is about to go on after a good reply. */
  ghost predicate Between(c: Client, honest: bool) {
    && c.stack != [] && IsStack(c.stack) && c.data.Some? && c.pending == [] && !c.stalled
    && Terminal(c) && Ordered(c.log) && (honest ==> NoncesOk(c)) && AuthsOk(c.data.value, c.stack)
  }

  lemma ReenterKeepsInv(c: Client, honest: bool)
    requires Between(c, honest)
    ensures Inv(Reenter(c), honest)
  {
    hide Early, Act, Resume, Reenter, IsStack, Inv, NoncesOk, Ordered, AuthsOk, LogOk, LatestCall, Below;
    var d := c.data.value;
    var r := Resume(d, c.stack);
    ReenterResumes(c);
    ResumeIsStack(d, c.stack);
    ResumeAuths(d, c.stack);
    ResumeIsReady(d, c.stack);
    NoncesIgnoreStack(c, r);
    ActKeepsInv(c.(stack := r), honest);
  }

  lemma NoncesIgnoreStack(c: Client, stack: seq<Op>)
    ensures NoncesOk(c.(stack := stack)) <==> NoncesOk(c)
  {
  }

  lemma ExecKeepsInv(c: Client, op: Op, honest: bool)
    requires c.data.Some? && !Early(c.data.value, op) && op != WaitChallenges && op != GetCertificate
    requires if c.stack == [] then IsRoot(op) else op == GetNonce
    requires IsStack(c.stack) && c.pending == [] && !c.stalled
    requires c.log != [] && !c.log[|c.log| - 1].Finished? && LogOk(c.log) && c.opid == LatestCall(c.log).opid
    requires LatestCall(c.log).root == (if c.stack == [] then op else c.stack[0])
    requires LatestCall(c.log).hosts == c.data.value.hosts
    requires Ordered(c.log) && (honest ==> NoncesOk(c)) && AuthsOk(c.data.value, c.stack)
    ensures Inv(Exec(c, op).client, honest)
  {
    hide Early, Act, Exec, IsStack, Inv, NoncesOk, Ordered, AuthsOk, LogOk, LatestCall, Below, Calls;
    var d := c.data.value;
    var b := Below(d, Calls(op), Rank(op));
    var p := Path(d, op);
    assert p == [op] + b;
    ExecDescends(c, op);
    BelowIsPath(d, Calls(op), Rank(op));
    PushedStack(c.stack, op, b);
    LeafIsReady(d, Calls(op), Rank(op));
    PushedAuths(d, c.stack, op);
    NoncesIgnoreStack(c, c.stack + p);
    ActKeepsInv(c.(stack := c.stack + p), honest);
  }

  lemma PushedStack(stack: seq<Op>, op: Op, b: seq<Op>)
    requires IsStack(stack) && IsPath(b) && (b != [] ==> b[0] in Calls(op) && !IsRoot(b[0]))
    requires if stack == [] then IsRoot(op) else op == GetNonce
    ensures IsStack(stack + ([op] + b))
  {
    JoinPaths([op], b);
    JoinPaths(stack, [op] + b);
  }

  lemma PushedAuths(d: Data, stack: seq<Op>, op: Op)
    requires AuthsOk(d, stack) && !Early(d, op) && op != WaitChallenges && op != StartChallenges
    ensures AuthsOk(d, stack + ([op] + Below(d, Calls(op), Rank(op))))
  {
    hide Early, Below;
    var b := Below(d, Calls(op), Rank(op));
    if StartChallenges in b {
      LateComesLate(d, op, StartChallenges);
    }
    if WaitChallenges in b {
      LateComesLate(d, op, WaitChallenges);
    }
  }

  /** A nonce that the server has not given before is good to sign with. */
  lemma TakeFreshNonce(c: Client, r: Reply)
    requires c.data.Some? && NoncesOk(c) && IsFresh(c, r) && c.pending == []
    ensures NoncesOk(TakeNonce(c, r))
  {
  }

  predicate IsFresh(c: Client, r: Reply) {
    r.nonce.Some? && r.nonce.value != "" ==> r.nonce.value !in c.nonces
  }

  /** A handler either ends the operation or fills in what was asked for. */
  lemma OnReplyKeeps(c: Client, kind: Kind, r: Reply, honest: bool)
    requires Between(c, honest) && AskedBy(Last(c.stack), kind)
    requires kind == FetchAuth ==> |c.data.value.auths| < c.data.value.hosts
    requires kind.PollAuth? ==> c.data.value.polling < |c.data.value.auths|
    ensures var s := OnReply(c, kind, r);
            if s.stack == [] then Inv(s, honest) else Between(s, honest)
  {
    hide NoncesOk, LogOk, LatestCall, IsStack, Ordered, Inv;
    var d := c.data.value;
    StopKeepsInv(c, Failed, honest);
    StopKeepsInv(c, GotTerms, honest);
    var s := OnReply(c, kind, r);
    if s.stack != [] {
      NoncesIgnoreRest(c, s.data.value);
    }
    if kind == Certificate {
      CertificateStack(c.stack);
    }
  }

  lemma CertificateStack(p: seq<Op>)
    requires p != [] && IsStack(p) && Last(p) == GetCertificate
    ensures p == [CertificateImpl, GetCertificate]
  {
    var i := |p| - 1;
    assert i > 0 && Follows(p[i - 1], p[i]);
    assert p[i - 1] == CertificateImpl;
    assert i == 1;
  }

  lemma NoncesIgnoreRest(c: Client, d: Data)
    requires c.data.Some? && d.nonce == c.data.value.nonce
    ensures NoncesOk(c.(data := Some(d))) <==> NoncesOk(c)
  {
  }

  /** An error or a bad date ends the operation; a bad nonce puts a new request for one on top
      of what failed; a good reply is handled and the stack re-entered. */
  lemma HandleKeepsInv(c: Client, r: Reply, honest: bool)
    requires Inv(c, honest) && c.pending != [] && c.data.Some? && SafeReply(c)
    ensures Inv(Handle(c, r), honest && IsFresh(c, r))
  {
    hide Exec, Reenter, OnReply, TakeNonce, LogOk, LatestCall, Ordered, IsStack;
    WaiterHasAuths(c, honest);
    var still := honest && IsFresh(c, r);
    var c0 := c.(pending := c.pending[1..]);
    if IsError(r.code) {
      if r.isProblem && r.isBadNonce {
        BadNonceKeepsInv(c, honest);
      } else {
        AnsweredStop(c, honest);
      }
    } else if (c.data.value.checksDate && r.dateOff) || !IsSuccess(r.code) {
      AnsweredStop(c, honest);
    } else {
      GoodReplyKeepsInv(c, r, honest);
    }
  }

  lemma WaiterHasAuths(c: Client, honest: bool)
    requires Inv(c, honest) && c.pending != []
    ensures c.data.Some? && c.stack != [] && !c.stalled && |c.pending| == 1
    ensures AskedBy(Last(c.stack), c.pending[0].kind)
    ensures c.data.value.hosts > 0 ==> SafeReply(c)
  {
    if c.pending[0].kind.PollAuth? {
      assert Last(c.stack) == WaitChallenges;
      assert WaitChallenges in c.stack;
    }
  }

  /** Dropping the answered request, and the nonce with it, leaves nothing to worry about. */
  lemma AnsweredNonces(c: Client, nonce: string)
    requires c.data.Some? && NoncesOk(c)
    requires nonce == "" || (nonce == c.data.value.nonce && !Used(c.log, nonce))
    ensures NoncesOk(c.(pending := [], data := Some(c.data.value.(nonce := nonce))))
  {
  }

  lemma AnsweredStop(c: Client, honest: bool)
    requires Inv(c, honest) && c.pending != []
    ensures Inv(Stop(c.(pending := c.pending[1..]), Failed), honest)
  {
    hide LogOk, LatestCall, Ordered, IsStack, NoncesOk;
    WaiterHasAuths(c, honest);
    var c1 := c.(pending := [], data := Some(c.data.value.(nonce := "")));
    if honest {
      AnsweredNonces(c, "");
    }
    StopKeepsInv(c1, Failed, honest);
    assert Stop(c.(pending := c.pending[1..]), Failed) == Stop(c1, Failed);
  }

  lemma BadNonceKeepsInv(c: Client, honest: bool)
    requires Inv(c, honest) && c.pending != [] && c.data.Some?
    ensures var c1 := c.(pending := c.pending[1..], data := Some(c.data.value.(nonce := "")));
            Inv(Exec(c1, GetNonce).client, honest)
  {
    hide LogOk, LatestCall, Ordered, IsStack, NoncesOk, Exec;
    WaiterHasAuths(c, honest);
    var c1 := c.(pending := [], data := Some(c.data.value.(nonce := "")));
    if honest {
      AnsweredNonces(c, "");
    }
    ExecKeepsInv(c1, GetNonce, honest);
    assert c.pending[1..] == [];
  }

  lemma GoodReplyKeepsInv(c: Client, r: Reply, honest: bool)
    requires Inv(c, honest) && c.pending != [] && c.data.Some?
    requires c.pending[0].kind.PollAuth? ==> c.data.value.polling < |c.data.value.auths|
    ensures var c1 := OnReply(TakeNonce(c.(pending := c.pending[1..]), r), c.pending[0].kind, r);
            && (c1.stack != [] ==> c1.data.Some?)
            && Inv(Reenter(c1), honest && IsFresh(c, r))
  {
    hide LogOk, LatestCall, Ordered, IsStack, NoncesOk, Reenter, OnReply;
    WaiterHasAuths(c, honest);
    var still := honest && IsFresh(c, r);
    var c0 := c.(pending := []);
    assert c.pending[1..] == [];
    if still {
      NewNonce(c, r);
    }
    var c1 := TakeNonce(c0, r);
    assert Between(c1, still);
    OnReplyKeeps(c1, c.pending[0].kind, r, still);
    var s := OnReply(c1, c.pending[0].kind, r);
    if s.stack != [] {
      ReenterKeepsInv(s, still);
    } else {
      NothingToReenter(s);
    }
  }

  lemma NewNonce(c: Client, r: Reply)
    requires c.data.Some? && NoncesOk(c) && IsFresh(c, r)
    ensures NoncesOk(TakeNonce(c.(pending := []), r))
  {
    AnsweredNonces(c, "");
    TakeFreshNonce(c.(pending := [], data := Some(c.data.value.(nonce := ""))), r);
  }

  lemma NothingToReenter(c: Client)
    requires c.stack == []
    ensures Reenter(c) == c
  {
  }

  // ---------------------------------------------------------------- public calls

  lemma LogStarts(log: seq<Item>, item: Item)
    requires LogOk(log) && item.Started?
    ensures LogOk(log + [item]) && LatestCall(log + [item]) == item
  {
    LatestOf(log, item);
    FinishedGrows(log, item);
    hide LatestCall;
    assert forall i :: 0 <= i < |log| ==> (log + [item])[i] == log[i];
  }

  lemma CallKeepsInv(c: Client, root: Op, d: Data, served: bool, honest: bool)
    requires Inv(c, honest) && IsRoot(root)
    requires d.auths == [] && d.polling == 0 && d.nonce == ""
    ensures Inv(Call(c, root, d, served), honest)
  {
    hide LogOk, LatestCall, NoncesOk, Exec;
    if c.stack == [] {
      var id := NextId(c.shared);
      var item := Started(id, root, d.hosts, served);
      var c1 := c.(opid := id, shared := id, data := Some(d), stalled := false, log := c.log + [item]);
      LogStarts(c.log, item);
      StartedNonces(c, item, d);
      if served {
        RootNotEarly(d, root);
        ExecKeepsInv(c1, root, honest);
      }
    }
  }

  lemma StartedNonces(c: Client, item: Item, d: Data)
    requires item.Started? && d.nonce == ""
    ensures NoncesOk(c) ==>
              NoncesOk(c.(opid := item.opid, shared := item.opid, data := Some(d), stalled := false, log := c.log + [item]))
  {
    var l := c.log + [item];
    if NoncesOk(c) {
      forall n | Used(l, n)
        ensures Used(c.log, n)
      {
        var i :| 0 <= i < |l| && l[i].Issued? && l[i].request.signed && l[i].request.nonce == n;
        assert c.log[i] == l[i];
      }
    }
  }

  // ---------------------------------------------------------------- whole runs

  /** A public call, the reply to the request under way, or other clients taking ids from the
      shared counter. */
  datatype Input =
    | CallTerms(uri: string)
    | CallAccount(uri: string, canSign: bool)
    | CallCertificate(uri: string, hosts: nat, checksDate: bool, canSign: bool, canMakeCsr: bool,
                      unservable: set<string>, served: bool)
    | Answer(reply: Reply)
    | Elsewhere(shared: nat)

  function Fresh(shared: nat): Client {
    Client([], 0, shared, None, [], false, [], {})
  }

  /** A reply needs a request, and a handler that does not leave its vectors. */
  predicate Enabled(c: Client, i: Input) {
    i.Answer? ==> c.pending != [] && c.data.Some? && SafeReply(c)
  }

  function Step(c: Client, i: Input): Client
    requires Enabled(c, i)
  {
    match i
    case CallTerms(uri) => Call(c, TermsImpl, NewData(uri, 0, false, true, true, {}), true)
    case CallAccount(uri, canSign) => Call(c, AccountImpl, NewData(uri, 0, false, canSign, true, {}), true)
    case CallCertificate(uri, hosts, checksDate, canSign, canMakeCsr, unservable, served) =>
      Call(c, CertificateImpl, NewData(uri, hosts, checksDate, canSign, canMakeCsr, unservable), served)
    case Answer(r) => Handle(c, r)
    case Elsewhere(shared) => c.(shared := shared)
  }

  function Play(shared: nat, inputs: seq<Input>): Option<Client>
    decreases |inputs|
  {
    if inputs == [] then Some(Fresh(shared))
    else
      match Play(shared, inputs[..|inputs| - 1])
      case None => None
      case Some(c) =>
        if Enabled(c, inputs[|inputs| - 1]) then Some(Step(c, inputs[|inputs| - 1])) else None
  }

  /** The server never hands out a nonce a second time. */
  predicate NeverRepeats(shared: nat, inputs: seq<Input>)
    decreases |inputs|
  {
    inputs == [] ||
      (var before, i := inputs[..|inputs| - 1], inputs[|inputs| - 1];
       && NeverRepeats(shared, before)
       && (i.Answer? && Play(shared, before).Some? ==> IsFresh(Play(shared, before).value, i.reply)))
  }

  lemma StepKeepsInv(c: Client, i: Input, honest: bool)
    requires Inv(c, honest) && Enabled(c, i)
    ensures Inv(Step(c, i), honest && (i.Answer? ==> IsFresh(c, i.reply)))
  {
    hide Inv, Call, Handle;
    match i
    case CallTerms(uri) => CallKeepsInv(c, TermsImpl, NewData(uri, 0, false, true, true, {}), true, honest);
    case CallAccount(uri, canSign) =>
      CallKeepsInv(c, AccountImpl, NewData(uri, 0, false, canSign, true, {}), true, honest);
    case CallCertificate(uri, hosts, checksDate, canSign, canMakeCsr, unservable, served) =>
      CallKeepsInv(c, CertificateImpl, NewData(uri, hosts, checksDate, canSign, canMakeCsr, unservable), served, honest);
    case Answer(r) => HandleKeepsInv(c, r, honest);
    case Elsewhere(shared) => OthersKeepInv(c, shared, honest);
  }

  lemma OthersKeepInv(c: Client, shared: nat, honest: bool)
    requires Inv(c, honest)
    ensures Inv(c.(shared := shared), honest)
  {
  }

  lemma {:induction false} PlayInv(shared: nat, inputs: seq<Input>)
    requires Play(shared, inputs).Some?
    ensures Inv(Play(shared, inputs).value, NeverRepeats(shared, inputs))
    decreases |inputs|
  {
    if inputs == [] {
      assert IsStack([]);
    } else {
      hide Inv, Step, Enabled, IsFresh;
      PlayInv(shared, inputs[..|inputs| - 1]);
      var c := Play(shared, inputs[..|inputs| - 1]).value;
      StepKeepsInv(c, inputs[|inputs| - 1], NeverRepeats(shared, inputs[..|inputs| - 1]));
    }
  }
}
