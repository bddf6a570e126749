/** The promises of the ACME client, over every run from a fresh client. */
module AcmeTheorems {
  import opened Options
  import opened AcmeModel
  import opened AcmeProofs
  import opened AcmeRuns

  /** Between callbacks the stack is empty or a call path from the operation that was requested
      last, on which further requests for a nonce may sit. The handler of the next reply stays
      inside its vectors, except when authorizations are polled for a call without hosts. */
  lemma StackDiscipline(shared: nat, inputs: seq<Input>)
    requires Play(shared, inputs).Some?
    ensures var c := Play(shared, inputs).value;
            && IsStack(c.stack)
            && (c.stack != [] ==> c.stack[0] == LatestCall(c.log).root)
            && (c.pending != [] ==>
                  && c.data.Some?
                  && (SafeReply(c) <==> c.pending[0].kind != PollAuth || LatestCall(c.log).hosts > 0))
  {
    PlayInv(shared, inputs);
    var c := Play(shared, inputs).value;
    RepliesAreSafe(c, NeverRepeats(shared, inputs));
  }

  lemma RepliesAreSafe(c: Client, honest: bool)
    requires Inv(c, honest)
    ensures c.stack != [] ==> c.stack[0] == LatestCall(c.log).root
    ensures c.pending != [] ==>
              && c.data.Some?
              && (SafeReply(c) <==> c.pending[0].kind != PollAuth || LatestCall(c.log).hosts > 0)
  {
    hide IsStack, LogOk, LatestCall, Asking, NoncesOk, Ordered;
    if c.pending != [] {
      WaiterHasAuths(c, honest);
    }
  }

  /** Between two terminal events there is a public call, and nothing is asked of the server
      after one until then; it carries the id of the call that it ends, and leaves no stack. */
  lemma OneTerminalEvent(shared: nat, inputs: seq<Input>, i: nat, j: nat)
    requires Play(shared, inputs).Some?
    requires i < j < |Play(shared, inputs).value.log|
    requires var log := Play(shared, inputs).value.log; log[i].Finished? && !log[j].Started?
    ensures var log := Play(shared, inputs).value.log;
            && log[i].opid == LatestCall(log[..i]).opid
            && exists k :: i < k < j && log[k].Started?
  {
    PlayInv(shared, inputs);
    var log := Play(shared, inputs).value.log;
    assert log[i + 1].Started?;
  }

  lemma NothingLeftAfterEvent(shared: nat, inputs: seq<Input>)
    requires Play(shared, inputs).Some?
    ensures var c := Play(shared, inputs).value;
            c.log != [] && c.log[|c.log| - 1].Finished? ==> c.stack == [] && c.pending == []
  {
    PlayInv(shared, inputs);
  }

  /** While an operation is under way there is exactly one request under way, unless the
      operation has stalled in starting the challenges, when there is none. */
  lemma OneRequestUnderWay(shared: nat, inputs: seq<Input>)
    requires Play(shared, inputs).Some?
    ensures var c := Play(shared, inputs).value;
            && (c.stack == [] ==> c.pending == [])
            && (c.stack != [] ==> if c.stalled then c.pending == [] && Last(c.stack) == StartChallenges
                                  else |c.pending| == 1 && AskedBy(Last(c.stack), c.pending[0].kind))
  {
    PlayInv(shared, inputs);
  }

  /** Re-entering stalls exactly when it comes to a challenge that is not pending. */
  lemma StallsExactly(c: Client)
    requires Between(c, false)
    ensures var d := c.data.value;
            var r := Resume(d, c.stack);
            && r != []
            && (Reenter(c).stalled <==>
                  Last(r) == StartChallenges && d.todo != [] && d.todo[0].status != "pending")
  {
    hide Early, Resume, Reenter;
    var d := c.data.value;
    ReenterResumes(c);
    ResumeIsStack(d, c.stack);
    var op := Last(Resume(d, c.stack));
    ActStalls(c.(stack := Resume(d, c.stack)), op);
  }

  lemma ActStalls(c: Client, op: Op)
    requires c.data.Some? && !Early(c.data.value, op) && !c.stalled
    ensures var d := c.data.value;
            Act(c, op).client.stalled <==>
              op == StartChallenges && d.todo != [] && d.todo[0].status != "pending"
  {
  }

  /** And an operation that has stalled never ends: no input changes anything any more, except
      for the counter of ids, which is not the client's own. */
  lemma StallIsForever(c: Client, i: Input)
    requires Inv(c, false) && c.stalled && Enabled(c, i)
    ensures Step(c, i) == c.(shared := Step(c, i).shared)
  {
  }

  /** An order is finalized only while it is ready, and the certificate is asked for only once
      it is valid (section 7.1.6 of RFC 8555). */
  lemma RequestsInOrder(shared: nat, inputs: seq<Input>, i: nat)
    requires Play(shared, inputs).Some?
    requires i < |Play(shared, inputs).value.log| && Play(shared, inputs).value.log[i].Issued?
    ensures var item := Play(shared, inputs).value.log[i];
            && (item.request.kind == FinalizeOrder ==> item.status == "ready")
            && (item.request.kind == Certificate ==> item.status == "valid")
  {
    PlayInv(shared, inputs);
  }

  /** With a server that never repeats a nonce, no nonce signs two requests, retries after a
      bad nonce included (section 6.5 of RFC 8555). */
  lemma NoncesSignOnce(shared: nat, inputs: seq<Input>, i: nat, j: nat)
    requires Play(shared, inputs).Some? && NeverRepeats(shared, inputs)
    requires i < j < |Play(shared, inputs).value.log|
    requires var log := Play(shared, inputs).value.log;
             log[i].Issued? && log[j].Issued? && log[i].request.signed && log[j].request.signed
    requires Play(shared, inputs).value.log[i].request.nonce != ""
    ensures var log := Play(shared, inputs).value.log;
            log[i].request.nonce != log[j].request.nonce
  {
    PlayInv(shared, inputs);
  }

  // ---------------------------------------------------------------- retries

  /** The reply that asks for a retry, and a good one that brings a nonce. */
  predicate SaysBadNonce(r: Reply) {
    (r.code < 100 || r.code >= 400) && r.isProblem && r.isBadNonce
  }

  predicate BringsNonce(r: Reply) {
    && IsSuccess(r.code) && !r.dateOff
    && r.nonce.Some? && r.nonce.value != ""
  }

  lemma NonceAside(d: Data, n: string, op: Op)
    ensures op != GetNonce ==> Early(d.(nonce := n), op) == Early(d, op)
  {
  }

  lemma {:induction false} BelowAside(d: Data, n: string, ops: seq<Op>, bound: nat)
    requires forall op :: op in ops ==> Rank(op) < bound
    requires n != "" && Below(d, ops, bound) == []
    ensures Below(d.(nonce := n), ops, bound) == []
    decreases |ops|
  {
    hide Early;
    if ops != [] {
      NonceAside(d, n, ops[0]);
      GetNonceIsEarly(d.(nonce := n));
      BelowAside(d, n, ops[1..], bound);
    }
  }

  lemma GetNonceIsEarly(d: Data)
    ensures Early(d, GetNonce) <==> d.nonce != ""
  {
  }

  lemma OwnAside(d: Data, n: string, op: Op, q: Request)
    requires ReadyToAct(d, op) && Own(d, op) == Ask(q) && op != GetNonce
    ensures !Early(d.(nonce := n), op)
    ensures Own(d.(nonce := n), op) == Ask(if q.signed then q.(nonce := n) else q)
  {
  }

  /** First half of a retry: a request for a nonce goes on top of the failed operation. */
  lemma BadNonceAsksForNonce(c: Client, r: Reply)
    requires Inv(c, false) && c.pending != [] && c.data.Some? && SaysBadNonce(r)
    requires Enabled(c, Answer(r)) && DirectoryOf(c.data.value).newNonce != ""
    ensures var c1 := Step(c, Answer(r));
            var q := Request(FetchNonce, DirectoryOf(c.data.value).newNonce, false, "");
            && !c1.stalled
            && c1 == c.(stack := c.stack + [GetNonce], pending := [q], data := Some(c.data.value.(nonce := "")),
                        log := c.log + [Issued(q, OrderOf(c.data.value).status)])
  {
    hide Exec, IsStack;
    var d := c.data.value.(nonce := "");
    var c0 := c.(pending := c.pending[1..], data := Some(d));
    assert c0.pending == [];
    ExecDescends(c0, GetNonce);
    assert Calls(GetNonce) == [GetDirectory] && Early(d, GetDirectory);
    assert Path(d, GetNonce) == [GetNonce];
  }

  /** Second half: with the new nonce in hand the failed operation runs again. */
  lemma NonceResumes(c: Client, d: Data, below: seq<Op>, r: Reply)
    requires below != [] && c.stack == below + [GetNonce] && !c.stalled
    requires c.data == Some(d) && |c.pending| == 1 && c.pending[0].kind == FetchNonce
    requires BringsNonce(r)
    ensures Enabled(c, Answer(r))
    ensures var d1 := d.(nonce := r.nonce.value);
            Step(c, Answer(r)) == Reenter(c.(stack := below, pending := [], data := Some(d1), nonces := c.nonces + {r.nonce.value}))
  {
    hide Run, Below;
    var d1 := d.(nonce := r.nonce.value);
    var c1 := TakeNonce(c.(pending := c.pending[1..]), r);
    assert c.pending[1..] == [];
    RunDescends(c1, GetNonce);
    assert Early(d1, GetNonce);
    assert Popped(c1).stack == below;
  }

  /** A bad nonce ends the operation if the server has no address for nonces. */
  lemma BadNonceWithoutAddress(c: Client, r: Reply)
    requires Inv(c, false) && c.pending != [] && c.data.Some? && SaysBadNonce(r)
    requires Enabled(c, Answer(r)) && c.data.value.directory.Some? && DirectoryOf(c.data.value).newNonce == ""
    ensures var c1 := Step(c, Answer(r));
            c1.stack == [] && c1.pending == [] && c1.log == c.log + [Finished(c.opid, Failed)]
  {
    hide Exec, IsStack;
    var d := c.data.value.(nonce := "");
    var c0 := c.(pending := c.pending[1..], data := Some(d));
    WaiterHasAuths(c, false);
    assert c0.pending == [];
    ExecDescends(c0, GetNonce);
    assert Calls(GetNonce) == [GetDirectory] && Early(d, GetDirectory);
    assert Path(d, GetNonce) == [GetNonce];
  }

  /** After a bad nonce and a good one the request has been made again, with the new nonce and
      nothing else changed. */
  predicate Repeats(c: Client, r1: Reply, r2: Reply)
    requires Enabled(c, Answer(r1)) && c.pending != [] && c.data.Some?
    requires r2.nonce.Some?
  {
    var c1 := Step(c, Answer(r1));
    && Enabled(c1, Answer(r2))
    && var c2 := Step(c1, Answer(r2));
       && c2.stack == c.stack
       && c2.pending == [c.pending[0].(nonce := r2.nonce.value)]
       && c2.data == Some(c.data.value.(nonce := r2.nonce.value))
  }

  /** That is so exactly when the server has told where to get nonces, and what failed is not the
      start of a challenge. */
  lemma RetryRepeatsExactly(c: Client, r1: Reply, r2: Reply)
    requires Inv(c, false) && c.pending != [] && c.pending[0].signed
    requires Enabled(c, Answer(r1)) && SaysBadNonce(r1) && BringsNonce(r2)
    ensures Repeats(c, r1, r2)
       <==> DirectoryOf(c.data.value).newNonce != "" && Last(c.stack) != StartChallenges
  {
    hide Step, Enabled, Inv, Repeats;
    WaiterHasAuthsToo(c);
    if DirectoryOf(c.data.value).newNonce == "" {
      NoAddressNoRepeat(c, r1, r2);
    } else if Last(c.stack) == StartChallenges {
      ChallengeNoRepeat(c, r1, r2);
    } else {
      RetryRepeatsRequest(c, r1, r2);
    }
  }

  lemma WaiterHasAuthsToo(c: Client)
    requires Inv(c, false) && c.pending != []
    ensures c.data.Some? && c.stack != [] && !c.stalled && |c.pending| == 1
  {
  }

  lemma NoAddressNoRepeat(c: Client, r1: Reply, r2: Reply)
    requires Inv(c, false) && c.pending != [] && c.pending[0].signed && c.data.Some?
    requires Enabled(c, Answer(r1)) && SaysBadNonce(r1) && BringsNonce(r2)
    requires DirectoryOf(c.data.value).newNonce == ""
    ensures !Repeats(c, r1, r2)
  {
    hide Step, Enabled, Inv;
    var d := c.data.value;
    if d.directory.Some? {
      NoRequestNoReply(c, r1, r2);
    } else if Repeats(c, r1, r2) {
      DirectoryIsKept(c, r1, r2);
    }
  }

  lemma NoRequestNoReply(c: Client, r1: Reply, r2: Reply)
    requires Inv(c, false) && c.pending != [] && c.data.Some? && SaysBadNonce(r1)
    requires Enabled(c, Answer(r1)) && c.data.value.directory.Some? && DirectoryOf(c.data.value).newNonce == ""
    ensures !Enabled(Step(c, Answer(r1)), Answer(r2))
  {
    hide Step, Inv;
    BadNonceWithoutAddress(c, r1);
  }

  /** Without a directory a bad nonce asks for that first, and the reply brings one or ends the
      operation. */
  lemma DirectoryIsKept(c: Client, r1: Reply, r2: Reply)
    requires Inv(c, false) && c.pending != [] && c.data.Some? && SaysBadNonce(r1) && BringsNonce(r2)
    requires Enabled(c, Answer(r1)) && c.data.value.directory == None
    ensures var c1 := Step(c, Answer(r1));
            && Enabled(c1, Answer(r2))
            && var c2 := Step(c1, Answer(r2));
               c2.data.Some? ==> c2.data.value.directory.Some?
  {
    hide Exec, Reenter, IsStack, Inv;
    WaiterHasAuthsToo(c);
    var d := c.data.value.(nonce := "");
    var c0 := c.(pending := c.pending[1..], data := Some(d));
    assert c0.pending == [];
    ExecDescends(c0, GetNonce);
    DirectoryFirst(d);
    var c1 := Step(c, Answer(r1));
    var c2 := TakeNonce(c1.(pending := c1.pending[1..]), r2);
    var c3 := OnReply(c2, FetchDirectory, r2);
    if c3.stack != [] {
      ReenterKeepsDirectory(c3);
    } else {
      NothingToReenter(c3);
    }
  }

  lemma DirectoryFirst(d: Data)
    requires d.nonce == "" && d.directory == None
    ensures Path(d, GetNonce) == [GetNonce, GetDirectory]
  {
    assert Calls(GetNonce) == [GetDirectory];
    assert Path(d, GetDirectory) == [GetDirectory] + Below(d, [], 0);
    assert Below(d, [GetDirectory], 1) == Path(d, GetDirectory);
  }

  lemma ReenterKeepsDirectory(c: Client)
    requires c.data.Some? && c.stack != []
    ensures var s := Reenter(c);
            s.data.Some? ==> s.data.value.directory == c.data.value.directory
  {
    hide Early, Resume, Reenter, Own;
    ReenterResumes(c);
  }

  /** What follows a bad nonce for which a new one can be got. */
  function Retried(c: Client, n: string): Client
    requires c.data.Some? && c.stack != []
  {
    Reenter(c.(pending := [], data := Some(c.data.value.(nonce := n)), nonces := c.nonces + {n},
               log := c.log + [Issued(Request(FetchNonce, DirectoryOf(c.data.value).newNonce, false, ""),
                                      OrderOf(c.data.value).status)]))
  }

  lemma RetryReenters(c: Client, r1: Reply, r2: Reply)
    requires Inv(c, false) && c.pending != [] && c.data.Some? && c.stack != []
    requires Enabled(c, Answer(r1)) && SaysBadNonce(r1) && BringsNonce(r2)
    requires DirectoryOf(c.data.value).newNonce != ""
    ensures var c1 := Step(c, Answer(r1));
            Enabled(c1, Answer(r2)) && Step(c1, Answer(r2)) == Retried(c, r2.nonce.value)
  {
    hide Step, Enabled, Reenter, IsStack, Inv;
    BadNonceAsksForNonce(c, r1);
    var c1 := Step(c, Answer(r1));
    WaiterHasAuthsToo(c);
    NonceResumes(c1, c.data.value.(nonce := ""), c.stack, r2);
  }

  lemma ChallengeNoRepeat(c: Client, r1: Reply, r2: Reply)
    requires Inv(c, false) && c.pending != [] && c.data.Some? && c.stack != [] && Last(c.stack) == StartChallenges
    requires Enabled(c, Answer(r1)) && SaysBadNonce(r1) && BringsNonce(r2)
    requires DirectoryOf(c.data.value).newNonce != ""
    ensures !Repeats(c, r1, r2)
  {
    hide Step, Enabled, Inv, Retried;
    RetryReenters(c, r1, r2);
    ReentryMovesOn(c, r2.nonce.value);
  }

  /** Re-entered, the start of challenges takes a challenge off the queue or is done with. */
  lemma ReentryMovesOn(c: Client, n: string)
    requires c.data.Some? && c.stack != [] && Last(c.stack) == StartChallenges
    ensures var s := Retried(c, n);
            s.stack != c.stack || s.data != Some(c.data.value.(nonce := n))
  {
    hide Early, Resume, Reenter, Own;
    var d := c.data.value.(nonce := n);
    var q := Issued(Request(FetchNonce, DirectoryOf(d).newNonce, false, ""), OrderOf(d).status);
    var c0 := c.(pending := [], data := Some(d), nonces := c.nonces + {n}, log := c.log + [q]);
    ReenterResumes(c0);
    var r := Resume(d, c.stack);
    if r != [] {
      ActMovesOn(c0.(stack := r), c.stack);
    }
  }

  /** Whatever acts, it is not the start of challenges leaving things as they are. */
  lemma ActMovesOn(c: Client, stack: seq<Op>)
    requires c.data.Some? && c.stack != [] && stack != [] && Last(stack) == StartChallenges
    requires !Early(c.data.value, Last(c.stack))
    ensures var s := Act(c, Last(c.stack)).client;
            s.stack != stack || s.data != c.data
  {
    hide Early, Own;
    if Last(c.stack) == StartChallenges {
      StartIsEarly(c.data.value);
    }
  }

  lemma StartIsEarly(d: Data)
    ensures Early(d, StartChallenges) <==> OrderOf(d).status != "pending" || d.todo == []
  {
  }

  /** The repeated request, with what leads to it. */
  lemma RetryRepeatsRequest(c: Client, r1: Reply, r2: Reply)
    requires Inv(c, false) && c.pending != [] && c.pending[0].signed
    requires Enabled(c, Answer(r1)) && SaysBadNonce(r1) && BringsNonce(r2)
    requires DirectoryOf(c.data.value).newNonce != "" && Last(c.stack) != StartChallenges
    ensures Repeats(c, r1, r2)
  {
    hide Step, Enabled, Reenter, Below, Early, IsStack;
    var d, op, n := c.data.value, Last(c.stack), r2.nonce.value;
    RetryReenters(c, r1, r2);
    var d2 := d.(nonce := n);
    NeverAsksSigned(d, op);
    OwnAside(d, n, op, c.pending[0]);
    BelowAside(d, n, Calls(op), Rank(op));
    var q := Issued(Request(FetchNonce, DirectoryOf(d).newNonce, false, ""), OrderOf(d).status);
    var c2 := c.(pending := [], data := Some(d2), nonces := c.nonces + {n}, log := c.log + [q]);
    ReenterResumes(c2);
    assert Resume(d2, c.stack) == c.stack + [];
    assert c.stack + [] == c.stack;
  }

  lemma NeverAsksSigned(d: Data, op: Op)
    ensures op == GetNonce && Own(d, op).Ask? ==> !Own(d, op).request.signed
  {
  }

  /** A challenge whose start met a bad nonce is not started again. The retry goes on to the next
      one in the queue; it stalls if that is not pending; and after the last one it goes on to
      poll for challenges of which one has never been started, or for the order. */
  lemma RetrySkipsChallenge(c: Client, r1: Reply, r2: Reply)
    requires Inv(c, false) && c.pending != [] && Last(c.stack) == StartChallenges
    requires Enabled(c, Answer(r1)) && SaysBadNonce(r1) && BringsNonce(r2)
    requires DirectoryOf(c.data.value).newNonce != ""
    ensures var d := c.data.value;
            var c1 := Step(c, Answer(r1));
            && Enabled(c1, Answer(r2))
            && var c2 := Step(c1, Answer(r2));
               if d.todo != [] then
                 var ch := d.todo[0];
                 if ch.status != "pending" then c2.stalled && c2.pending == []
                 else if ch.token == "" || ch.token in d.unservable || ch.url == "" then c2.stack == []
                 else c2.pending == [Request(StartChallenge, ch.url, true, r2.nonce.value)]
               else if AllValid(d.auths) then
                 if d.location == "" then c2.stack == []
                 else c2.pending == [Request(PollOrder, d.location, true, r2.nonce.value)]
               else if SomeInvalid(d.auths) then c2.stack == []
               else
                 var url := StringAt(OrderOf(d).authorizations, d.polling);
                 if url == "" then c2.stack == []
                 else c2.pending == [Request(PollAuth, url, true, r2.nonce.value)]
  {
    hide Step, Enabled, Reenter, IsStack, AllValid, SomeInvalid;
    var d, n := c.data.value, r2.nonce.value;
    RetryReenters(c, r1, r2);
    var d2 := d.(nonce := n);
    var q := Issued(Request(FetchNonce, DirectoryOf(d).newNonce, false, ""), OrderOf(d).status);
    var c2 := c.(pending := [], data := Some(d2), nonces := c.nonces + {n}, log := c.log + [q]);
    assert StartChallenges in c.stack;
    ChallengeStack(c.stack);
    ReenterResumes(c2);
    AfterChallenges(d2);
  }

  lemma ChallengeStack(p: seq<Op>)
    requires p != [] && IsStack(p) && Last(p) == StartChallenges
    ensures p == [CertificateImpl, GetCertificate, StartChallenges]
  {
    var i := |p| - 1;
    assert Follows(p[i - 1], p[i]);
    assert p[i - 1] == GetCertificate;
    assert i - 1 > 0 && Follows(p[i - 2], p[i - 1]);
    assert p[i - 2] == CertificateImpl;
    assert i == 2;
  }

  /** What comes next when challenges have been started. */
  lemma AfterChallenges(d: Data)
    requires OrderOf(d).status == "pending" && Authorized(d)
    ensures var s := [CertificateImpl, GetCertificate, StartChallenges];
            Resume(d, s) == if d.todo != [] then s
                            else if !AllValid(d.auths) then [CertificateImpl, GetCertificate, WaitChallenges]
                            else [CertificateImpl, GetCertificate, Finalize]
  {
    hide Below, AllValid;
    var s, ops := [CertificateImpl, GetCertificate, StartChallenges], Calls(GetCertificate);
    assert s[..2] == [CertificateImpl, GetCertificate];
    if d.todo != [] {
      NothingBelow(d, StartChallenges);
      assert s + [] == s;
    } else {
      assert Resume(d, s) == Resume(d, s[..2]) == s[..2] + Below(d, ops, 3);
      assert forall i :: 0 <= i < 4 ==> Early(d, ops[i]);
      if AllValid(d.auths) {
        assert Early(d, ops[4]);
        SkipEarly(d, ops, 3, 5);
      } else {
        SkipEarly(d, ops, 3, 4);
      }
    }
  }

  lemma NothingBelow(d: Data, op: Op)
    requires Calls(op) == []
    ensures Below(d, Calls(op), Rank(op)) == []
  {
  }

  /** A descent passes over what succeeds at once, and comes to rest at an operation that calls
      no other. */
  lemma {:induction false} SkipEarly(d: Data, ops: seq<Op>, bound: nat, k: nat)
    requires forall op :: op in ops ==> Rank(op) < bound
    requires k < |ops| && Calls(ops[k]) == [] && !Early(d, ops[k])
    requires forall i :: 0 <= i < k ==> Early(d, ops[i])
    ensures Below(d, ops, bound) == [ops[k]]
    decreases k
  {
    hide Early;
    if k > 0 {
      assert Early(d, ops[0]);
      assert forall i :: 0 <= i < k - 1 ==> ops[1..][i] == ops[i + 1];
      SkipEarly(d, ops[1..], bound, k - 1);
    } else {
      NothingBelow(d, ops[0]);
    }
  }
}
