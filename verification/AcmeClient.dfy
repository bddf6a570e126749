/** The ACME client as the source writes it: an object whose operations push and pop its stack
    and fill in its record. Every method is proved against the transition system. */
module AcmeClient {
  import opened Options
  import opened AcmeModel

  /** An operation without sub-operations either succeeds at once or acts. */
  lemma RunLeaf(c: Client, op: Op)
    requires c.data.Some? && Calls(op) == []
    ensures Run(c, op) == if Early(c.data.value, op) then Result(c, true) else Act(c, op)
  {
    hide Early, Act;
  }

  /** Executing the `k`-th sub-operation; succeeding, it leaves the state as it was. */
  lemma RunStep(c: Client, op: Op, k: nat)
    requires c.data.Some? && k < |Calls(op)|
    ensures RunAll(c, Calls(op)[k..], Rank(op))
         == var r := Exec(c, Calls(op)[k]);
            if r.ok then RunAll(c, Calls(op)[k + 1..], Rank(op)) else r
    ensures Calls(op)[k..] != [] && Calls(op)[0..] == Calls(op)
  {
    hide Exec, Calls;
    assert Calls(op)[k..][1..] == Calls(op)[k + 1..];
    assert Calls(op)[k..][0] == Calls(op)[k];
  }

  lemma RunDone(c: Client, op: Op)
    requires c.data.Some?
    ensures RunAll(c, Calls(op)[|Calls(op)|..], Rank(op)) == Result(c, true)
  {
  }

  lemma RunBody(c: Client, op: Op)
    requires c.data.Some?
    ensures Early(c.data.value, op) ==> Run(c, op) == Result(c, true)
    ensures !Early(c.data.value, op) ==>
              var r := RunAll(c, Calls(op)[0..], Rank(op));
              Run(c, op) == if r.ok then Act(c, op) else r
  {
    hide Early, Act, RunAll, Calls;
    assert Calls(op)[0..] == Calls(op);
  }

  lemma SixCalls()
    ensures var s := Calls(GetCertificate);
            && |s| == 6 && s[0] == GetAccount && s[1] == GetOrder && s[2] == GetAuths
            && s[3] == StartChallenges && s[4] == WaitChallenges && s[5] == Finalize
  {
  }

  class AcmeClient {
    var stack: seq<Op>
    var opid: nat
    var shared: nat
    var data: Option<Data>
    var pending: seq<Request>
    ghost var stalled: bool
    ghost var log: seq<Item>
    ghost var nonces: set<string>

    ghost function State(): Client
      reads this
    {
      Client(stack, opid, shared, data, pending, stalled, log, nonces)
    }

    constructor (shared: nat)
      ensures State() == Client([], 0, shared, None, [], false, [], {})
    {
      stack, opid, this.shared, data, pending := [], 0, shared, None, [];
      stalled, log, nonces := false, [], {};
    }

    // -------------------------------------------------------------- stop, perform

    method Stop(verdict: Verdict)
      modifies this
      ensures State() == AcmeModel.Stop(old(State()), verdict)
    {
      log := log + [Finished(opid, verdict)];
      data := None;
      stack := [];
    }

    method StopIf(failed: bool) returns (stopped: bool)
      modifies this
      ensures stopped == failed
      ensures State() == if failed then AcmeModel.Stop(old(State()), Failed) else old(State())
    {
      if failed {
        Stop(Failed);
      }
      stopped := failed;
    }

    /** Hands a request to the HTTP client. */
    method Perform(q: Request)
      requires data.Some?
      modifies this
      ensures State() == old(State()).(pending := old(pending) + [q],
                                       log := old(log) + [Issued(q, OrderOf(old(data).value).status)])
    {
      pending := pending + [q];
      log := log + [Issued(q, OrderOf(data.value).status)];
    }

    /** `make_jws` and the POST that carries it, unless it cannot be made. */
    method Post(kind: Kind, url: string, able: bool)
      requires data.Some?
      modifies this
      ensures State() ==
              if url == "" || !able then AcmeModel.Stop(old(State()), Failed)
              else old(State()).(pending := old(pending) + [Request(kind, url, true, old(data).value.nonce)],
                                 log := old(log) + [Issued(Request(kind, url, true, old(data).value.nonce),
                                                           OrderOf(old(data).value).status)])
    {
      var stopped := StopIf(url == "");
      if stopped { return; }
      stopped := StopIf(!able);
      if stopped { return; }
      Perform(Request(kind, url, true, data.value.nonce));
    }

    // -------------------------------------------------------------- the operations

    method GetTermsImpl() returns (ok: bool)
      requires data.Some?
      modifies this
      ensures Result(State(), ok) == Run(old(State()), TermsImpl)
    {
      RunLeaf(State(), TermsImpl);
      Perform(Request(Terms, data.value.directoryUri, false, ""));
      return false;
    }

    method DoGetDirectory() returns (ok: bool)
      requires data.Some?
      modifies this
      ensures Result(State(), ok) == Run(old(State()), GetDirectory)
    {
      RunLeaf(State(), GetDirectory);
      if data.value.directory.Some? {
        return true;
      }
      Perform(Request(FetchDirectory, data.value.directoryUri, false, ""));
      return false;
    }

    method DoGetNonce() returns (ok: bool)
      requires data.Some?
      modifies this
      ensures Result(State(), ok) == Run(old(State()), GetNonce)
      decreases Rank(GetNonce), 0
    {
      hide Exec, RunAll, Run;
      ghost var c := State();
      RunBody(c, GetNonce);
      if data.value.nonce != "" {
        return true;
      }
      RunStep(c, GetNonce, 0);
      ok := Execute(GetDirectory);
      if !ok {
        return false;
      }
      RunDone(c, GetNonce);
      var url := DirectoryOf(data.value).newNonce;
      var stopped := StopIf(url == "");
      if !stopped {
        Perform(Request(FetchNonce, url, false, ""));
      }
      return false;
    }

    method DoGetAccount() returns (ok: bool)
      requires data.Some?
      modifies this
      ensures Result(State(), ok) == Run(old(State()), GetAccount)
      decreases Rank(GetAccount), 0
    {
      hide Exec, RunAll, Run;
      ghost var c := State();
      RunBody(c, GetAccount);
      if data.value.hasAccount {
        return true;
      }
      RunStep(c, GetAccount, 0);
      ok := Execute(GetDirectory);
      if !ok {
        return false;
      }
      RunStep(c, GetAccount, 1);
      ok := Execute(GetNonce);
      if !ok {
        return false;
      }
      RunDone(c, GetAccount);
      Post(Account, DirectoryOf(data.value).newAccount, data.value.canSign);
      return false;
    }

    method DoGetOrder() returns (ok: bool)
      requires data.Some?
      modifies this
      ensures Result(State(), ok) == Run(old(State()), GetOrder)
    {
      hide Run;
      RunLeaf(State(), GetOrder);
      if data.value.order.Some? {
        return true;
      }
      Post(NewOrder, DirectoryOf(data.value).newOrder, data.value.canSign);
      return false;
    }

    method DoGetAuths() returns (ok: bool)
      requires data.Some?
      modifies this
      ensures Result(State(), ok) == Run(old(State()), GetAuths)
    {
      hide Run;
      RunLeaf(State(), GetAuths);
      if OrderOf(data.value).status != "pending" {
        return true;
      }
      if |data.value.auths| == data.value.hosts {
        return true;
      }
      Post(FetchAuth, StringAt(OrderOf(data.value).authorizations, |data.value.auths|), data.value.canSign);
      return false;
    }

    method DoStartChallenges() returns (ok: bool)
      requires data.Some?
      modifies this
      ensures Result(State(), ok) == Run(old(State()), StartChallenges)
    {
      hide Run;
      RunLeaf(State(), StartChallenges);
      if OrderOf(data.value).status != "pending" {
        return true;
      }
      if data.value.todo == [] {
        return true;
      }
      var ch := data.value.todo[0];
      if ch.status == "pending" {
        var stopped := StopIf(ch.token == "");
        if stopped { return false; }
        stopped := StopIf(ch.token in data.value.unservable);
        if stopped { return false; }
        Post(StartChallenge, ch.url, data.value.canSign);
        if data == None { return false; }
      } else {
        stalled := true;
      }
      data := Some(data.value.(todo := data.value.todo[1..]));
      return false;
    }

    /** The loop over the authorizations; it stops early only when all are valid. */
    method LookAtAuths(auths: seq<Auth>) returns (allValid: bool, someInvalid: bool)
      ensures allValid == AllValid(auths)
      ensures !allValid ==> someInvalid == SomeInvalid(auths)
    {
      var numValid := 0;
      someInvalid := false;
      var i := 0;
      while i < |auths|
        invariant 0 <= i <= |auths|
        invariant numValid <= i && (numValid == i <==> forall j :: 0 <= j < i ==> auths[j].status == "valid")
        invariant auths != [] ==> numValid < |auths|
        invariant someInvalid <==> exists j :: 0 <= j < i && HasInvalid(auths[j])
      {
        if auths[i].status == "valid" {
          numValid := numValid + 1;
          if numValid == |auths| {
            return true, someInvalid;
          }
        } else if auths[i].status == "invalid" {
          if exists c :: c in auths[i].challenges && c.status == "invalid" {
            assert HasInvalid(auths[i]);
            someInvalid := true;
          }
        }
        i := i + 1;
      }
      allValid := false;
      assert SomeInvalid(auths) <==> exists j :: 0 <= j < |auths| && HasInvalid(auths[j]);
    }

    method DoWaitChallenges() returns (ok: bool)
      requires data.Some?
      modifies this
      ensures Result(State(), ok) == Run(old(State()), WaitChallenges)
    {
      hide Run, AllValid, SomeInvalid;
      RunLeaf(State(), WaitChallenges);
      if OrderOf(data.value).status != "pending" {
        return true;
      }
      var allValid, someInvalid := LookAtAuths(data.value.auths);
      if allValid {
        return true;
      }
      var stopped := StopIf(someInvalid);
      if stopped { return false; }
      Post(PollAuth, StringAt(OrderOf(data.value).authorizations, data.value.polling), data.value.canSign);
      return false;
    }

    method DoFinalize() returns (ok: bool)
      requires data.Some?
      modifies this
      ensures Result(State(), ok) == Run(old(State()), Finalize)
    {
      hide Run;
      RunLeaf(State(), Finalize);
      var order := OrderOf(data.value);
      if order.status == "ready" {
        var stopped := StopIf(!data.value.canMakeCsr);
        if stopped { return false; }
        Post(FinalizeOrder, order.finalize, true);
        return false;
      }
      if order.status == "valid" {
        return true;
      }
      if order.status == "pending" || order.status == "processing" {
        Post(PollOrder, data.value.location, true);
        return false;
      }
      Stop(Failed);
      return false;
    }

    method DoGetCertificate() returns (ok: bool)
      requires data.Some?
      modifies this
      ensures Result(State(), ok) == Run(old(State()), GetCertificate)
      decreases Rank(GetCertificate), 1
    {
      hide Exec, RunAll, Run, Calls;
      ghost var c := State();
      SixCalls();
      RunBody(c, GetCertificate);
      if data.value.chain != "" {
        return true;
      }
      ok := ExecuteSub(GetAccount, GetCertificate, 0);
      if !ok { return; }
      ok := ExecuteSub(GetOrder, GetCertificate, 1);
      if !ok { return; }
      ok := ExecuteSub(GetAuths, GetCertificate, 2);
      if !ok { return; }
      ok := ExecuteSub(StartChallenges, GetCertificate, 3);
      if !ok { return; }
      ok := ExecuteSub(WaitChallenges, GetCertificate, 4);
      if !ok { return; }
      ok := ExecuteSub(Finalize, GetCertificate, 5);
      if !ok { return; }
      RunDone(c, GetCertificate);
      Post(Certificate, OrderOf(data.value).certificate, true);
      return false;
    }

    /** `execute` on behalf of `parent`, whose `k`-th sub-operation this is. */
    method ExecuteSub(sub: Op, ghost parent: Op, ghost k: nat) returns (ok: bool)
      requires data.Some? && k < |Calls(parent)| && Calls(parent)[k] == sub
      modifies this
      ensures ok ==> State() == old(State())
      ensures RunAll(old(State()), Calls(parent)[k..], Rank(parent))
           == if ok then RunAll(State(), Calls(parent)[k + 1..], Rank(parent)) else Result(State(), false)
      decreases Rank(parent), 0
    {
      hide Exec, RunAll;
      RunStep(State(), parent, k);
      ok := Execute(sub);
    }

    /** `get_account_impl` and `get_certificate_impl`. */
    method FinishAfter(root: Op, sub: Op, verdict: Verdict) returns (ok: bool)
      requires data.Some? && Calls(root) == [sub] && IsRoot(root)
      requires verdict == if root.AccountImpl? then GotAccount else GotCertificate
      modifies this
      ensures Result(State(), ok) == Run(old(State()), root)
      decreases Rank(root), 0
    {
      hide Exec, RunAll, Run;
      ghost var c := State();
      RunBody(c, root);
      RunStep(c, root, 0);
      ok := Execute(sub);
      if !ok {
        return false;
      }
      RunDone(c, root);
      Stop(verdict);
      return true;
    }

    // -------------------------------------------------------------- execute, reenter

    method Dispatch(op: Op) returns (ok: bool)
      requires data.Some?
      modifies this
      ensures Result(State(), ok) == Run(old(State()), op)
      decreases Rank(op), 2
    {
      hide Run;
      match op
      case TermsImpl => ok := GetTermsImpl();
      case AccountImpl => ok := FinishAfter(AccountImpl, GetAccount, GotAccount);
      case CertificateImpl => ok := FinishAfter(CertificateImpl, GetCertificate, GotCertificate);
      case GetDirectory => ok := DoGetDirectory();
      case GetNonce => ok := DoGetNonce();
      case GetAccount => ok := DoGetAccount();
      case GetOrder => ok := DoGetOrder();
      case GetAuths => ok := DoGetAuths();
      case StartChallenges => ok := DoStartChallenges();
      case WaitChallenges => ok := DoWaitChallenges();
      case Finalize => ok := DoFinalize();
      case GetCertificate => ok := DoGetCertificate();
    }

    method Execute(op: Op) returns (ok: bool)
      requires data.Some?
      modifies this
      ensures Result(State(), ok) == Exec(old(State()), op)
      decreases Rank(op), 3
    {
      hide Run;
      stack := stack + [op];
      ok := Dispatch(op);
      if !ok {
        return false;
      }
      if stack != [] {
        stack := stack[..|stack| - 1];
      }
    }

    method ReenterStack()
      requires stack != [] ==> data.Some?
      modifies this
      ensures State() == Reenter(old(State()))
    {
      hide Run;
      ghost var whole := Reenter(State());
      while stack != []
        invariant stack != [] ==> data.Some?
        invariant Reenter(State()) == whole
        decreases |stack|
      {
        var ok := Dispatch(stack[|stack| - 1]);
        if !ok {
          return;
        }
        if stack != [] {
          stack := stack[..|stack| - 1];
        }
      }
    }

    // -------------------------------------------------------------- replies

    method FindHttp01(chs: seq<Challenge>) returns (r: Option<Challenge>)
      ensures r == FirstHttp01(chs)
    {
      var i := 0;
      while i < |chs|
        invariant 0 <= i <= |chs|
        invariant FirstHttp01(chs) == FirstHttp01(chs[i..])
      {
        if chs[i].kind == "http-01" {
          return Some(chs[i]);
        }
        assert chs[i..][1..] == chs[i + 1..];
        i := i + 1;
      }
      return None;
    }

    method TakeOrder(r: Reply)
      requires data.Some?
      modifies this
      ensures State() == WithOrder(old(State()), old(data).value, r)
    {
      var stopped := StopIf(r.order == None);
      if stopped { return; }
      stopped := StopIf(r.location == "");
      if stopped { return; }
      data := Some(data.value.(order := r.order, location := r.location));
    }

    method TakeAuth(r: Reply)
      requires data.Some?
      modifies this
      ensures State() == OnReply(old(State()), FetchAuth, r)
    {
      var stopped := StopIf(r.auth == None);
      if stopped { return; }
      var ch := FindHttp01(r.auth.value.challenges);
      stopped := StopIf(ch == None);
      if stopped { return; }
      data := Some(data.value.(todo := data.value.todo + [ch.value], auths := data.value.auths + [r.auth.value]));
    }

    /** The handlers that the operations register with their requests. */
    method RunHandler(kind: Kind, r: Reply)
      requires data.Some?
      requires kind.PollAuth? ==> data.value.polling < |data.value.auths|
      modifies this
      ensures State() == OnReply(old(State()), kind, r)
    {
      match kind
      case Terms => Stop(GotTerms);
      case FetchDirectory =>
        data := Some(data.value.(directory := r.directory));
        var stopped := StopIf(r.directory == None);
      case FetchNonce =>
        var stopped := StopIf(data.value.nonce == "");
      case Account =>
        data := Some(data.value.(hasAccount := r.account, kid := r.location));
        var stopped := StopIf(!r.account || r.location == "");
      case NewOrder => TakeOrder(r);
      case FetchAuth => TakeAuth(r);
      case StartChallenge =>
      case PollAuth =>
        var stopped := StopIf(r.auth == None);
        if !stopped {
          var d := data.value;
          data := Some(d.(auths := d.auths[d.polling := r.auth.value]));
          data := Some(data.value.(polling := (d.polling + 1) % |d.auths|));
        }
      case FinalizeOrder => TakeOrder(r);
      case PollOrder =>
        data := Some(data.value.(order := r.order));
        var stopped := StopIf(r.order == None);
      case Certificate => data := Some(data.value.(chain := r.body));
    }

    /** The wrapper around every handler. */
    method HandleReply(r: Reply)
      requires data.Some? && pending != []
      requires pending[0].kind.PollAuth? ==> data.value.polling < |data.value.auths|
      modifies this
      ensures State() == Handle(old(State()), r)
    {
      hide Run, Exec, Reenter, OnReply;
      var kind := pending[0].kind;
      pending := pending[1..];
      if IsError(r.code) {
        if r.isProblem && r.isBadNonce {
          data := Some(data.value.(nonce := ""));
          var ok := Execute(GetNonce);
          return;
        }
        Stop(Failed);
        return;
      }
      if data.value.checksDate && r.dateOff {
        Stop(Failed);
        return;
      }
      var stopped := StopIf(!IsSuccess(r.code));
      if stopped { return; }
      var n := if r.nonce.Some? then r.nonce.value else "";
      data := Some(data.value.(nonce := n));
      if n != "" {
        nonces := nonces + {n};
      }
      RunHandler(kind, r);
      OnReplyHasData(old(State()), kind, r);
      ReenterStack();
    }

    // -------------------------------------------------------------- public calls

    method UpdateOpid(ghost root: Op, ghost hosts: nat, ghost served: bool) returns (ok: bool)
      modifies this
      ensures ok == (old(stack) == [])
      ensures State() ==
              if ok then old(State()).(opid := NextId(old(shared)), shared := NextId(old(shared)),
                                       stalled := false, log := old(log) + [Started(NextId(old(shared)), root, hosts, served)])
              else old(State())
    {
      if stack != [] {
        return false;
      }
      shared := NextId(shared);
      opid := shared;
      stalled := false;
      log := log + [Started(opid, root, hosts, served)];
      return true;
    }

    /** The common part of `get_terms_of_service`, `get_account` and `get_certificate`. */
    method Start(root: Op, d: Data, served: bool) returns (id: nat)
      requires IsRoot(root)
      modifies this
      ensures State() == Call(old(State()), root, d, served)
      ensures id == if old(stack) == [] && served then NextId(old(shared)) else 0
    {
      hide Exec;
      var ok := UpdateOpid(root, d.hosts, served);
      if !ok {
        return 0;
      }
      data := Some(d);
      if !served {
        return 0;
      }
      id := opid;
      var done := Execute(root);
    }
  }

  /** A handler that does not end the operation leaves its record in place. */
  lemma OnReplyHasData(c: Client, kind: Kind, r: Reply)
    requires c.data.Some? && c.pending != [] && c.pending[0].kind == kind
    requires kind.PollAuth? ==> c.data.value.polling < |c.data.value.auths|
    ensures var s := OnReply(TakeNonce(c.(pending := c.pending[1..]), r), kind, r);
            s.stack != [] ==> s.data.Some?
  {
  }

  predicate HasInvalid(a: Auth) {
    a.status == "invalid" && exists c :: c in a.challenges && c.status == "invalid"
  }
}
