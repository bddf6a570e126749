/** Runs that reach the states in which the ACME client does not do what it is meant to. A server
    that plays along hands out one authorization per host, each with a given challenge. */
module AcmeWitnesses {
  import opened Options
  import opened AcmeModel
  import opened AcmeProofs
  import opened AcmeRuns
  import opened AcmeTheorems

  // ---------------------------------------------------------------- the script

  /** A good reply with a nonce. */
  function Good(): Reply {
    Reply(200, false, false, false, Some("n"), None, false, "", None, None, "")
  }

  const TheDirectory := Directory("nonce", "account", "order")

  function TheOrder(hosts: nat): Order {
    Order("pending", seq(hosts + 1, _ => "auth"), "finalize", "")
  }

  function TheAuth(ch: Challenge): Auth {
    Auth("pending", [ch])
  }

  function FirstInputs(hosts: nat): seq<Input> {
    [CallCertificate("uri", hosts, false, true, true, {}, true),
     Answer(Good().(directory := Some(TheDirectory))),
     Answer(Good().(account := true, location := "kid")),
     Answer(Good().(order := Some(TheOrder(hosts)), location := "location"))]
  }

  /** A run up to the first challenge: the call, the replies to the requests for the directory, the
      account and the order, and one reply for every authorization. */
  function Script(chs: seq<Challenge>): seq<Input> {
    FirstInputs(|chs|) + seq(|chs|, i requires 0 <= i < |chs| => Answer(Good().(auth := Some(TheAuth(chs[i])))))
  }

  // ---------------------------------------------------------------- single steps

  lemma PlayOn(shared: nat, inputs: seq<Input>, i: Input)
    requires Play(shared, inputs).Some? && Enabled(Play(shared, inputs).value, i)
    ensures Play(shared, inputs + [i]) == Some(Step(Play(shared, inputs).value, i))
  {
    hide Step, Enabled;
    assert (inputs + [i])[..|inputs|] == inputs;
  }

  /** Waiting for the reply to one request, with the given stack and record. */
  predicate Waiting(c: Client, stack: seq<Op>, d: Data, q: Request) {
    c.stack == stack && c.data == Some(d) && c.pending == [q] && !c.stalled
  }

  /** A good reply that fills in `d1` leads to what the operation at the end of the descent does. */
  lemma GoesOn(c: Client, stack: seq<Op>, d: Data, q: Request, r: Reply, d1: Data, op: Op)
    requires Waiting(c, stack, d, q) && SafeReply(c) && IsSuccess(r.code) && !r.dateOff
    requires var c0 := TakeNonce(c.(pending := []), r);
             stack != [] && OnReply(c0, q.kind, r) == c0.(data := Some(d1))
    requires Resume(d1, stack) != [] && Last(Resume(d1, stack)) == op && !Early(d1, op)
    ensures Enabled(c, Answer(r))
    ensures var s := Step(c, Answer(r));
            match Own(d1, op)
            case Ask(q1) => Waiting(s, Resume(d1, stack), AfterOwn(d1, op), q1)
            case Stall => s.stalled && s.pending == []
            case Finish(v) => s.stack == [] && s.opid == c.opid && s.log == c.log + [Finished(c.opid, v)]
            case Fail => s.stack == []
  {
    hide OnReply, Resume, Reenter, Early, Own;
    assert c.pending[1..] == [];
    ReenterResumes(TakeNonce(c.(pending := []), r).(data := Some(d1)));
  }

  // ---------------------------------------------------------------- the records

  /** The record before the first reply, and after the directory, the account and the order. */
  function Asked(hosts: nat): Data {
    NewData("uri", hosts, false, true, true, {})
  }

  function Directed(hosts: nat): Data {
    Asked(hosts).(directory := Some(TheDirectory), nonce := "n")
  }

  function Registered(hosts: nat): Data {
    Directed(hosts).(hasAccount := true, kid := "kid")
  }

  function OrderPlaced(hosts: nat): Data {
    Registered(hosts).(order := Some(TheOrder(hosts)), location := "location")
  }

  /** After the first `k` authorizations. */
  function Granted(chs: seq<Challenge>, k: nat): Data
    requires k <= |chs|
  {
    OrderPlaced(|chs|).(auths := seq(k, i requires 0 <= i < k => TheAuth(chs[i])), todo := chs[..k])
  }

  const Two := [CertificateImpl, GetCertificate]

  /** Re-entering when the operation that was waiting for the reply is done with: the certificate
      operation goes on to its `k`-th sub-operation. */
  lemma ComesTo(d: Data, done: Op, k: nat)
    requires Early(d, done) && d.chain == ""
    requires k < 6 && Calls(Calls(GetCertificate)[k]) == [] && !Early(d, Calls(GetCertificate)[k])
    requires forall i :: 0 <= i < k ==> Early(d, Calls(GetCertificate)[i])
    ensures Resume(d, Two + [done]) == Two + [Calls(GetCertificate)[k]]
  {
    hide Below;
    assert (Two + [done])[..2] == Two;
    assert |Calls(GetCertificate)| == 6;
    hide Calls;
    SkipEarly(d, Calls(GetCertificate), 3, k);
  }

  /** Re-entering when it is not. */
  lemma Stays(d: Data, op: Op)
    requires !Early(d, op) && Calls(op) == []
    ensures Resume(d, Two + [op]) == Two + [op]
  {
    hide Below;
    NothingBelow(d, op);
    assert Two + [op] + [] == Two + [op];
  }

  // ---------------------------------------------------------------- up to the order

  /** A call on a client without an operation acts at the end of one path. */
  lemma CallActs(shared: nat, root: Op, d: Data, q: Request, p: seq<Op>)
    requires IsRoot(root) && p == Path(d, root)
    requires p != [] && Last(p) != StartChallenges && Own(d, Last(p)) == Ask(q)
    ensures Waiting(Call(Fresh(shared), root, d, true), p, d, q)
  {
    hide Exec, Path, Own, Early, Act, NextId;
    var id := NextId(shared);
    var c0 := Fresh(shared).(opid := id, shared := id, data := Some(d), log := Fresh(shared).log + [Started(id, root, d.hosts, true)]);
    ExecDescends(c0, root);
    assert [] + p == p;
    ActAsks(c0.(stack := p), Last(p), q);
  }

  lemma ActAsks(c: Client, op: Op, q: Request)
    requires c.data.Some? && !Early(c.data.value, op) && op != StartChallenges && Own(c.data.value, op) == Ask(q)
    requires c.pending == []
    ensures var s := Act(c, op).client;
            s.stack == c.stack && s.data == c.data && s.pending == [q] && s.stalled == c.stalled
  {
    hide Early, Own;
    assert [] + [q] == [q];
  }

  lemma CallAsks(shared: nat, hosts: nat)
    ensures var c := Step(Fresh(shared), FirstInputs(hosts)[0]);
            Waiting(c, Two + [GetAccount, GetDirectory], Asked(hosts), Request(FetchDirectory, "uri", false, ""))
  {
    hide Call, Path, Waiting;
    FirstPath(Asked(hosts));
    CallActs(shared, CertificateImpl, Asked(hosts), Request(FetchDirectory, "uri", false, ""),
             Two + [GetAccount, GetDirectory]);
  }

  lemma FirstPath(d: Data)
    requires d.directory == None && !d.hasAccount && d.chain == ""
    ensures Path(d, CertificateImpl) == Two + [GetAccount, GetDirectory]
  {
    assert Calls(GetDirectory) == [];
    assert Path(d, GetDirectory) == [GetDirectory] + Below(d, [], 0) == [GetDirectory];
    assert Below(d, Calls(GetAccount), 2) == [GetDirectory];
    assert Path(d, GetAccount) == [GetAccount, GetDirectory];
    assert Below(d, Calls(GetCertificate), 3) == [GetAccount, GetDirectory];
    assert Path(d, GetCertificate) == [GetCertificate] + [GetAccount, GetDirectory];
    assert Below(d, Calls(CertificateImpl), 4) == Path(d, GetCertificate);
  }

  lemma DirectoryFound(c: Client, hosts: nat)
    requires Waiting(c, Two + [GetAccount, GetDirectory], Asked(hosts), Request(FetchDirectory, "uri", false, ""))
    ensures Enabled(c, FirstInputs(hosts)[1])
    ensures Waiting(Step(c, FirstInputs(hosts)[1]), Two + [GetAccount], Directed(hosts), Request(Account, "account", true, "n"))
  {
    hide Step;
    var d := Directed(hosts);
    AccountNext(d);
    GoesOn(c, Two + [GetAccount, GetDirectory], Asked(hosts), Request(FetchDirectory, "uri", false, ""),
           Good().(directory := Some(TheDirectory)), d, GetAccount);
  }

  lemma AccountNext(d: Data)
    requires d.directory.Some? && d.nonce != "" && !d.hasAccount
    ensures Resume(d, Two + [GetAccount, GetDirectory]) == Two + [GetAccount]
  {
    assert (Two + [GetAccount, GetDirectory])[..3] == Two + [GetAccount];
    assert Calls(GetAccount) == [GetDirectory, GetNonce];
    assert Below(d, [GetNonce], 2) == Below(d, [], 2) == [];
    assert Below(d, Calls(GetAccount), 2) == [];
    assert Two + [GetAccount] + [] == Two + [GetAccount];
  }

  lemma AccountFound(c: Client, hosts: nat)
    requires Waiting(c, Two + [GetAccount], Directed(hosts), Request(Account, "account", true, "n"))
    ensures Enabled(c, FirstInputs(hosts)[2])
    ensures Waiting(Step(c, FirstInputs(hosts)[2]), Two + [GetOrder], Registered(hosts), Request(NewOrder, "order", true, "n"))
  {
    hide Step;
    var d := Registered(hosts);
    ComesTo(d, GetAccount, 1);
    GoesOn(c, Two + [GetAccount], Directed(hosts), Request(Account, "account", true, "n"),
           Good().(account := true, location := "kid"), d, GetOrder);
  }

  lemma OrderFound(c: Client, hosts: nat)
    requires Waiting(c, Two + [GetOrder], Registered(hosts), Request(NewOrder, "order", true, "n"))
    ensures Enabled(c, FirstInputs(hosts)[3])
    ensures var s := Step(c, FirstInputs(hosts)[3]);
            if hosts == 0 then
              Waiting(s, Two + [WaitChallenges], OrderPlaced(0), Request(PollAuth, "auth", true, "n"))
            else
              Waiting(s, Two + [GetAuths], OrderPlaced(hosts), Request(FetchAuth, "auth", true, "n"))
  {
    hide Step, Enabled, Early, Own, Calls, Resume;
    var d := OrderPlaced(hosts);
    var op := if hosts == 0 then WaitChallenges else GetAuths;
    var r := Good().(order := Some(TheOrder(hosts)), location := "location");
    AfterOrder(hosts);
    GoesOn(c, Two + [GetOrder], Registered(hosts), Request(NewOrder, "order", true, "n"), r, d, op);
  }

  lemma AfterOrder(hosts: nat)
    ensures var d := OrderPlaced(hosts);
            var op := if hosts == 0 then WaitChallenges else GetAuths;
            && !Early(d, op) && Resume(d, Two + [GetOrder]) == Two + [op]
            && AfterOwn(d, op) == d
            && Own(d, op) == Ask(Request(if hosts == 0 then PollAuth else FetchAuth, "auth", true, "n"))
  {
    hide Resume;
    var d := OrderPlaced(hosts);
    if hosts == 0 {
      ComesTo(d, GetOrder, 4);
    } else {
      ComesTo(d, GetOrder, 2);
    }
  }

  /** The state after the first four inputs. */
  lemma FirstFour(shared: nat, hosts: nat) returns (c: Client)
    ensures Play(shared, FirstInputs(hosts)) == Some(c)
    ensures if hosts == 0 then
              Waiting(c, Two + [WaitChallenges], OrderPlaced(0), Request(PollAuth, "auth", true, "n"))
            else
              Waiting(c, Two + [GetAuths], OrderPlaced(hosts), Request(FetchAuth, "auth", true, "n"))
  {
    hide Step, Enabled, Waiting;
    var i := FirstInputs(hosts);
    assert Enabled(Fresh(shared), i[0]) by { CallIsEnabled(Fresh(shared), i[0]); }
    assert [] + [i[0]] == i[..1] && i[..1] + [i[1]] == i[..2] && i[..2] + [i[2]] == i[..3] && i[..3] + [i[3]] == i;
    PlayOn(shared, [], i[0]);
    CallAsks(shared, hosts);
    c := Step(Fresh(shared), i[0]);
    DirectoryFound(c, hosts);
    PlayOn(shared, i[..1], i[1]);
    c := Step(c, i[1]);
    AccountFound(c, hosts);
    PlayOn(shared, i[..2], i[2]);
    c := Step(c, i[2]);
    OrderFound(c, hosts);
    PlayOn(shared, i[..3], i[3]);
    c := Step(c, i[3]);
  }

  lemma CallIsEnabled(c: Client, i: Input)
    requires !i.Answer?
    ensures Enabled(c, i)
  {
  }

  // ---------------------------------------------------------------- authorizations

  /** One more authorization, which is not the last. */
  lemma AuthFound(c: Client, chs: seq<Challenge>, k: nat)
    requires k + 1 < |chs| && chs[k].kind == "http-01"
    requires Waiting(c, Two + [GetAuths], Granted(chs, k), Request(FetchAuth, "auth", true, "n"))
    ensures var i := Answer(Good().(auth := Some(TheAuth(chs[k]))));
            && Enabled(c, i)
            && Waiting(Step(c, i), Two + [GetAuths], Granted(chs, k + 1), Request(FetchAuth, "auth", true, "n"))
  {
    hide Step;
    var d := Granted(chs, k + 1);
    Stays(d, GetAuths);
    AuthFillsIn(chs, k);
    GoesOn(c, Two + [GetAuths], Granted(chs, k), Request(FetchAuth, "auth", true, "n"),
           Good().(auth := Some(TheAuth(chs[k]))), d, GetAuths);
  }

  lemma AuthFillsIn(chs: seq<Challenge>, k: nat)
    requires k < |chs| && chs[k].kind == "http-01"
    ensures FirstHttp01([chs[k]]) == Some(chs[k])
    ensures Granted(chs, k + 1).auths == Granted(chs, k).auths + [TheAuth(chs[k])]
    ensures Granted(chs, k + 1).todo == Granted(chs, k).todo + [chs[k]]
  {
  }

  /** The last authorization brings the client to the first challenge. */
  lemma LastAuthFound(c: Client, chs: seq<Challenge>)
    requires chs != [] && chs[|chs| - 1].kind == "http-01"
    requires Waiting(c, Two + [GetAuths], Granted(chs, |chs| - 1), Request(FetchAuth, "auth", true, "n"))
    ensures var i := Answer(Good().(auth := Some(TheAuth(chs[|chs| - 1]))));
            && Enabled(c, i)
            && var s := Step(c, i);
               && (chs[0].status != "pending" ==> s.stalled && s.pending == [])
               && (chs[0].status == "pending" && chs[0].token != "" && chs[0].url != "" ==>
                     Waiting(s, Two + [StartChallenges], Granted(chs, |chs|).(todo := chs[1..]),
                             Request(StartChallenge, chs[0].url, true, "n")))
  {
    hide Step, Enabled, Early, Own, Calls, Resume, FirstHttp01;
    var n := |chs|;
    var d := Granted(chs, n);
    AuthFillsIn(chs, n - 1);
    AfterAuths(chs);
    GoesOn(c, Two + [GetAuths], Granted(chs, n - 1), Request(FetchAuth, "auth", true, "n"),
           Good().(auth := Some(TheAuth(chs[n - 1]))), d, StartChallenges);
  }

  lemma AfterAuths(chs: seq<Challenge>)
    requires chs != []
    ensures var d := Granted(chs, |chs|);
            && !Early(d, StartChallenges) && Resume(d, Two + [GetAuths]) == Two + [StartChallenges]
            && AfterOwn(d, StartChallenges) == d.(todo := chs[1..])
            && (chs[0].status != "pending" ==> Own(d, StartChallenges) == Stall)
            && (chs[0].status == "pending" && chs[0].token != "" && chs[0].url != "" ==>
                  Own(d, StartChallenges) == Ask(Request(StartChallenge, chs[0].url, true, "n")))
  {
    hide Resume;
    assert chs[..|chs|] == chs;
    ComesTo(Granted(chs, |chs|), GetAuths, 3);
  }

  lemma {:induction false} AuthsFound(shared: nat, chs: seq<Challenge>, k: nat) returns (c: Client)
    requires k < |chs| && forall ch :: ch in chs ==> ch.kind == "http-01"
    ensures Play(shared, Script(chs)[..4 + k]) == Some(c)
    ensures Waiting(c, Two + [GetAuths], Granted(chs, k), Request(FetchAuth, "auth", true, "n"))
  {
    hide Step, Enabled, Waiting;
    if k == 0 {
      assert Script(chs)[..4] == FirstInputs(|chs|);
      c := FirstFour(shared, |chs|);
      assert Granted(chs, 0) == OrderPlaced(|chs|) by {
        assert chs[..0] == [];
      }
    } else {
      c := AuthsFound(shared, chs, k - 1);
      var i := Script(chs)[3 + k];
      assert Script(chs)[..3 + k] + [i] == Script(chs)[..4 + k];
      assert chs[k - 1] in chs;
      AuthFound(c, chs, k - 1);
      PlayOn(shared, Script(chs)[..3 + k], i);
      c := Step(c, i);
    }
  }

  // ---------------------------------------------------------------- what is reached

  /** Every queue of challenges is reached. If the first of them is not pending, the client has
      stalled; if it is, its start is under way, with the others behind it. Without hosts the
      authorizations are polled, and the reply is handled outside of the vectors. */
  lemma ChallengesReached(shared: nat, chs: seq<Challenge>)
    requires forall ch :: ch in chs ==> ch.kind == "http-01"
    ensures Play(shared, Script(chs)).Some?
    ensures var c := Play(shared, Script(chs)).value;
            if chs == [] then
              c.pending == [Request(PollAuth, "auth", true, "n")] && c.data.Some? && !SafeReply(c)
            else if chs[0].status != "pending" then c.stalled && c.pending == []
            else chs[0].token != "" && chs[0].url != "" ==>
              && c.pending == [Request(StartChallenge, chs[0].url, true, "n")]
              && c.stack == [CertificateImpl, GetCertificate, StartChallenges]
              && c.data.Some? && c.data.value.todo == chs[1..] && DirectoryOf(c.data.value).newNonce != ""
  {
    hide Step, Enabled;
    if chs == [] {
      assert Script(chs) == FirstInputs(0);
      var c := FirstFour(shared, 0);
    } else {
      var n := |chs|;
      var c := AuthsFound(shared, chs, n - 1);
      var i := Script(chs)[n + 3];
      assert Script(chs)[..n + 3] + [i] == Script(chs);
      assert chs[n - 1] in chs;
      LastAuthFound(c, chs);
      PlayOn(shared, Script(chs)[..n + 3], i);
    }
  }

  // ---------------------------------------------------------------- up to the certificate

  const ReadyOrder := Order("ready", [], "finalize", "")
  const ValidOrder := Order("valid", [], "finalize", "certificate")
  const ValidAuth := Auth("valid", [])

  /** The replies from the first started challenge on: one for every challenge, one for every
      authorization, which has become valid, and those to the requests for the order, for finalizing it
      and for the certificate. */
  function LastInputs(n: nat): seq<Input> {
    seq(n, _ => Answer(Good())) + seq(n, _ => Answer(Good().(auth := Some(ValidAuth))))
    + [Answer(Good().(order := Some(ReadyOrder))),
       Answer(Good().(order := Some(ValidOrder), location := "location")),
       Answer(Good().(body := "chain"))]
  }

  predicate Startable(ch: Challenge) {
    ch.kind == "http-01" && ch.status == "pending" && ch.token != "" && ch.url != ""
  }

  /** After `k` challenges have been started, and after `j` authorizations have become valid. */
  function StartedUpTo(chs: seq<Challenge>, k: nat): Data
    requires k <= |chs|
  {
    Granted(chs, |chs|).(todo := chs[k..])
  }

  function Polled(chs: seq<Challenge>, j: nat): Data
    requires j <= |chs|
  {
    StartedUpTo(chs, |chs|).(auths := seq(|chs|, i requires 0 <= i < |chs| => if i < j then ValidAuth else TheAuth(chs[i])),
                          polling := if j == |chs| then 0 else j)
  }

  predicate Starting(c: Client, chs: seq<Challenge>, k: nat)
    requires 0 < k <= |chs|
  {
    Waiting(c, Two + [StartChallenges], StartedUpTo(chs, k), Request(StartChallenge, chs[k - 1].url, true, "n"))
  }

  predicate Polling(c: Client, chs: seq<Challenge>, j: nat)
    requires j < |chs|
  {
    Waiting(c, Two + [WaitChallenges], Polled(chs, j), Request(PollAuth, "auth", true, "n"))
  }

  lemma NextStart(c: Client, chs: seq<Challenge>, k: nat)
    requires 0 < k < |chs| && Startable(chs[k]) && Starting(c, chs, k)
    ensures Enabled(c, Answer(Good())) && Starting(Step(c, Answer(Good())), chs, k + 1)
  {
    hide Step, Enabled, Early, Own, Resume, Granted;
    var d := StartedUpTo(chs, k);
    NextIsStarted(chs, k);
    GoesOn(c, Two + [StartChallenges], d, c.pending[0], Good(), d, StartChallenges);
  }

  lemma NextIsStarted(chs: seq<Challenge>, k: nat)
    requires k < |chs| && Startable(chs[k])
    ensures var d := StartedUpTo(chs, k);
            && !Early(d, StartChallenges) && Resume(d, Two + [StartChallenges]) == Two + [StartChallenges]
            && AfterOwn(d, StartChallenges) == StartedUpTo(chs, k + 1)
            && Own(d, StartChallenges) == Ask(Request(StartChallenge, chs[k].url, true, "n"))
            && d.nonce == "n"
  {
    hide Resume;
    Stays(StartedUpTo(chs, k), StartChallenges);
    assert chs[k..][1..] == chs[k + 1..];
  }

  lemma LastStart(c: Client, chs: seq<Challenge>)
    requires chs != [] && Starting(c, chs, |chs|)
    ensures Enabled(c, Answer(Good())) && Polling(Step(c, Answer(Good())), chs, 0)
  {
    hide Step, Enabled, Early, Own, Resume;
    var d := StartedUpTo(chs, |chs|);
    AllStarted(chs);
    GoesOn(c, Two + [StartChallenges], d, c.pending[0], Good(), d, WaitChallenges);
  }

  lemma AllStarted(chs: seq<Challenge>)
    requires chs != []
    ensures var d := StartedUpTo(chs, |chs|);
            && !Early(d, WaitChallenges) && Resume(d, Two + [StartChallenges]) == Two + [WaitChallenges]
            && AfterOwn(d, WaitChallenges) == d == Polled(chs, 0)
            && Own(d, WaitChallenges) == Ask(Request(PollAuth, "auth", true, "n"))
  {
    hide Resume;
    var d := StartedUpTo(chs, |chs|);
    assert d.auths[0] == TheAuth(chs[0]) && d.auths[0] in d.auths;
    assert d.auths == Polled(chs, 0).auths;
    ComesToWaiting(d);
  }

  lemma ComesToWaiting(d: Data)
    requires d.hasAccount && d.order.Some? && d.chain == "" && OrderOf(d).status == "pending"
    requires |d.auths| == d.hosts && d.todo == [] && !AllValid(d.auths)
    ensures Resume(d, Two + [StartChallenges]) == Two + [WaitChallenges]
  {
    hide Resume, AllValid;
    ComesTo(d, StartChallenges, 4);
  }

  lemma ComesToFinalize(d: Data)
    requires d.hasAccount && d.order.Some? && d.chain == "" && OrderOf(d).status == "pending"
    requires |d.auths| == d.hosts && d.todo == [] && AllValid(d.auths)
    ensures Resume(d, Two + [WaitChallenges]) == Two + [Finalize]
  {
    hide Resume, AllValid;
    ComesTo(d, WaitChallenges, 5);
  }

  lemma NextPoll(c: Client, chs: seq<Challenge>, j: nat)
    requires j + 1 < |chs| && Polling(c, chs, j)
    ensures var i := Answer(Good().(auth := Some(ValidAuth)));
            Enabled(c, i) && Polling(Step(c, i), chs, j + 1)
  {
    hide Step, Enabled, Early, Own, Resume;
    NextIsPolled(chs, j + 1);
    PollFillsIn(chs, j);
    GoesOn(c, Two + [WaitChallenges], Polled(chs, j), c.pending[0], Good().(auth := Some(ValidAuth)),
           Polled(chs, j + 1), WaitChallenges);
  }

  lemma PollFillsIn(chs: seq<Challenge>, j: nat)
    requires j < |chs|
    ensures Polled(chs, j).polling == j
    ensures Polled(chs, j + 1) == Polled(chs, j).(auths := Polled(chs, j).auths[j := ValidAuth],
                                                  polling := (j + 1) % |chs|)
  {
    assert Polled(chs, j + 1).auths == Polled(chs, j).auths[j := ValidAuth];
    Turn(j, |chs|);
  }

  lemma Turn(i: nat, n: nat)
    requires i < n
    ensures (i + 1) % n == if i + 1 == n then 0 else i + 1
  {
  }

  lemma NextIsPolled(chs: seq<Challenge>, j: nat)
    requires j < |chs|
    ensures var d := Polled(chs, j);
            && !Early(d, WaitChallenges) && Resume(d, Two + [WaitChallenges]) == Two + [WaitChallenges]
            && AfterOwn(d, WaitChallenges) == d
            && Own(d, WaitChallenges) == Ask(Request(PollAuth, "auth", true, "n"))
  {
    hide Resume;
    var d := Polled(chs, j);
    assert d.auths[j] == TheAuth(chs[j]) && d.auths[j] in d.auths;
    Stays(d, WaitChallenges);
  }

  lemma LastPoll(c: Client, chs: seq<Challenge>)
    requires chs != [] && Polling(c, chs, |chs| - 1)
    ensures var i := Answer(Good().(auth := Some(ValidAuth)));
            && Enabled(c, i)
            && Waiting(Step(c, i), Two + [Finalize], Polled(chs, |chs|), Request(PollOrder, "location", true, "n"))
  {
    hide Step, Enabled, Early, Own, Resume;
    var n := |chs|;
    AllPolled(chs);
    PollFillsIn(chs, n - 1);
    GoesOn(c, Two + [WaitChallenges], Polled(chs, n - 1), c.pending[0], Good().(auth := Some(ValidAuth)),
           Polled(chs, n), Finalize);
  }

  lemma AllPolled(chs: seq<Challenge>)
    requires chs != []
    ensures var d := Polled(chs, |chs|);
            && !Early(d, Finalize) && Resume(d, Two + [WaitChallenges]) == Two + [Finalize]
            && AfterOwn(d, Finalize) == d
            && Own(d, Finalize) == Ask(Request(PollOrder, "location", true, "n"))
  {
    hide Resume;
    var d := Polled(chs, |chs|);
    assert d.auths != [] && forall a :: a in d.auths ==> a == ValidAuth;
    ComesToFinalize(d);
  }

  lemma OrderReady(c: Client, d: Data)
    requires Waiting(c, Two + [Finalize], d, Request(PollOrder, "location", true, "n")) && d.nonce == "n" && d.canMakeCsr
    ensures var i := Answer(Good().(order := Some(ReadyOrder)));
            && Enabled(c, i)
            && Waiting(Step(c, i), Two + [Finalize], d.(order := Some(ReadyOrder)), Request(FinalizeOrder, "finalize", true, "n"))
  {
    hide Step, Resume;
    var d1 := d.(order := Some(ReadyOrder));
    Stays(d1, Finalize);
    GoesOn(c, Two + [Finalize], d, c.pending[0], Good().(order := Some(ReadyOrder)), d1, Finalize);
  }

  lemma OrderFinal(c: Client, d: Data)
    requires Waiting(c, Two + [Finalize], d, Request(FinalizeOrder, "finalize", true, "n"))
    requires d.nonce == "n" && d.hasAccount && d.chain == "" && d.location == "location"
    ensures var i := Answer(Good().(order := Some(ValidOrder), location := "location"));
            && Enabled(c, i)
            && Waiting(Step(c, i), Two, d.(order := Some(ValidOrder)), Request(Certificate, "certificate", true, "n"))
  {
    hide Step, Resume;
    var d1 := d.(order := Some(ValidOrder));
    AllEarly(d1);
    GoesOn(c, Two + [Finalize], d, c.pending[0], Good().(order := Some(ValidOrder), location := "location"), d1, GetCertificate);
  }

  lemma AllEarly(d: Data)
    requires d.order == Some(ValidOrder) && d.hasAccount && d.chain == ""
    ensures Resume(d, Two + [Finalize]) == Two
  {
    hide Below;
    var ops := Calls(GetCertificate);
    assert Early(d, ops[0]) && Early(d, ops[1]) && Early(d, ops[2]) && Early(d, ops[3]) && Early(d, ops[4]) && Early(d, ops[5]);
    NothingLate(d, ops, 3);
    assert (Two + [Finalize])[..2] == Two;
    assert Two + [] == Two;
  }

  lemma NothingLate(d: Data, ops: seq<Op>, bound: nat)
    requires forall op :: op in ops ==> Rank(op) < bound && Early(d, op)
    ensures Below(d, ops, bound) == []
  {
    hide Early;
    var b := Below(d, ops, bound);
  }

  lemma CertificateComes(c: Client, d: Data)
    requires Waiting(c, Two, d, Request(Certificate, "certificate", true, "n")) && d.nonce == "n"
    ensures var i := Answer(Good().(body := "chain"));
            && Enabled(c, i)
            && Step(c, i).stack == [] && Step(c, i).opid == c.opid
            && Step(c, i).log == c.log + [Finished(c.opid, GotCertificate)]
  {
    hide Step, Resume;
    var d1 := d.(chain := "chain");
    RootIsLeft(d1);
    GoesOn(c, Two, d, c.pending[0], Good().(body := "chain"), d1, CertificateImpl);
  }

  lemma RootIsLeft(d: Data)
    requires d.chain != ""
    ensures Resume(d, Two) == [CertificateImpl]
  {
    assert Two[..1] == [CertificateImpl];
    assert Early(d, GetCertificate);
    assert Below(d, Calls(CertificateImpl), Rank(CertificateImpl)) == [];
    assert [CertificateImpl] + [] == [CertificateImpl];
  }

  // ---------------------------------------------------------------- whole runs that end well

  function FullScript(chs: seq<Challenge>): seq<Input> {
    Script(chs) + LastInputs(|chs|)
  }

  lemma FullScriptAt(chs: seq<Challenge>, k: nat)
    requires 1 <= k <= |chs|
    ensures var n, all := |chs|, FullScript(chs);
            && |all| == 3 * n + 7
            && all[..n + 4] == Script(chs)
            && (k > 1 ==> all[n + 2 + k] == Answer(Good()) && all[..n + 2 + k] + [all[n + 2 + k]] == all[..n + 3 + k])
  {
  }

  lemma {:induction false} StartsDone(shared: nat, chs: seq<Challenge>, k: nat) returns (c: Client)
    requires 0 < k <= |chs| && forall ch :: ch in chs ==> Startable(ch)
    ensures |FullScript(chs)| >= |chs| + 3 + k
    ensures Play(shared, FullScript(chs)[..|chs| + 3 + k]) == Some(c) && Starting(c, chs, k)
  {
    hide Step, Enabled, Waiting, Starting, FullScript, Script, Startable, Play;
    var n, all := |chs|, FullScript(chs);
    FullScriptAt(chs, k);
    assert chs[k - 1] in chs;
    if k == 1 {
      FirstStarted(chs, shared);
      c := Play(shared, Script(chs)).value;
    } else {
      c := StartsDone(shared, chs, k - 1);
      NextStart(c, chs, k - 1);
      PlayOn(shared, all[..n + 2 + k], all[n + 2 + k]);
      c := Step(c, Answer(Good()));
    }
  }

  lemma FirstStarted(chs: seq<Challenge>, shared: nat)
    requires chs != [] && forall ch :: ch in chs ==> Startable(ch)
    ensures Play(shared, Script(chs)).Some? && Starting(Play(shared, Script(chs)).value, chs, 1)
  {
    hide Step, Enabled, Waiting;
    var n := |chs|;
    assert chs[0] in chs && chs[n - 1] in chs;
    var c := AuthsFound(shared, chs, n - 1);
    var i := Script(chs)[n + 3];
    assert Script(chs)[..n + 3] + [i] == Script(chs);
    LastAuthFound(c, chs);
    PlayOn(shared, Script(chs)[..n + 3], i);
  }

  lemma {:induction false} PollsDone(shared: nat, chs: seq<Challenge>, j: nat) returns (c: Client)
    requires j < |chs| && forall ch :: ch in chs ==> Startable(ch)
    ensures Play(shared, FullScript(chs)[..2 * |chs| + 4 + j]) == Some(c) && Polling(c, chs, j)
  {
    hide Step, Enabled, Waiting, Starting, Polling;
    var n, all := |chs|, FullScript(chs);
    var i := all[2 * n + 3 + j];
    assert all[..2 * n + 3 + j] + [i] == all[..2 * n + 4 + j];
    if j == 0 {
      c := StartsDone(shared, chs, n);
      LastStart(c, chs);
    } else {
      c := PollsDone(shared, chs, j - 1);
      NextPoll(c, chs, j - 1);
    }
    PlayOn(shared, all[..2 * n + 3 + j], i);
    c := Step(c, i);
  }

  /** For every number of hosts there is a run that ends with the certificate: with one challenge for
      each, all of which can be started, and a server that plays along. */
  lemma CertificateReached(shared: nat, chs: seq<Challenge>)
    requires chs != [] && forall ch :: ch in chs ==> Startable(ch)
    ensures var r := Play(shared, FullScript(chs));
            && r.Some? && r.value.log != [] && r.value.log[|r.value.log| - 1] == Finished(r.value.opid, GotCertificate)
  {
    hide Step, Enabled, Waiting, Polling;
    var n, all := |chs|, FullScript(chs);
    var m := 3 * n + 3;
    var c := PollsDone(shared, chs, n - 1);
    assert all[..m] + [all[m]] == all[..m + 1] && all[..m + 1] + [all[m + 1]] == all[..m + 2];
    assert all[..m + 2] + [all[m + 2]] == all[..m + 3] && all[..m + 3] + [all[m + 3]] == all;
    LastPoll(c, chs);
    PlayOn(shared, all[..m], all[m]);
    c := Step(c, all[m]);
    var d := Polled(chs, n);
    OrderReady(c, d);
    PlayOn(shared, all[..m + 1], all[m + 1]);
    c := Step(c, all[m + 1]);
    OrderFinal(c, d.(order := Some(ReadyOrder)));
    PlayOn(shared, all[..m + 2], all[m + 2]);
    c := Step(c, all[m + 2]);
    CertificateComes(c, d.(order := Some(ValidOrder)));
    PlayOn(shared, all[..m + 3], all[m + 3]);
  }

  /** The terms of service come with the first reply. */
  lemma TermsReached(shared: nat)
    ensures var r := Play(shared, [CallTerms("uri"), Answer(Good())]);
            r.Some? && r.value.log != [] && r.value.log[|r.value.log| - 1] == Finished(r.value.opid, GotTerms)
  {
    hide Step, Enabled, Waiting;
    var i := CallTerms("uri");
    assert [] + [i] == [i] && [i] + [Answer(Good())] == [i, Answer(Good())];
    CallIsEnabled(Fresh(shared), i);
    PlayOn(shared, [], i);
    TermsAsked(shared);
    TermsEnd(Step(Fresh(shared), i));
    PlayOn(shared, [i], Answer(Good()));
  }

  lemma TermsAsked(shared: nat)
    ensures Waiting(Step(Fresh(shared), CallTerms("uri")), [TermsImpl], Asked(0), Request(Terms, "uri", false, ""))
  {
    hide Call, Waiting;
    assert Path(Asked(0), TermsImpl) == [TermsImpl] + Below(Asked(0), [], 0) == [TermsImpl];
    CallActs(shared, TermsImpl, Asked(0), Request(Terms, "uri", false, ""), [TermsImpl]);
  }

  lemma TermsEnd(c: Client)
    requires Waiting(c, [TermsImpl], Asked(0), Request(Terms, "uri", false, ""))
    ensures Enabled(c, Answer(Good()))
    ensures var s := Step(c, Answer(Good()));
            s.opid == c.opid && s.log == c.log + [Finished(c.opid, GotTerms)]
  {
  }

  const AccountInputs := [CallAccount("uri", true),
                          Answer(Good().(directory := Some(TheDirectory))),
                          Answer(Good().(account := true, location := "kid"))]

  /** An account takes the directory, with a nonce, and one signed request. */
  lemma AccountReached(shared: nat)
    ensures var r := Play(shared, AccountInputs);
            r.Some? && r.value.log != [] && r.value.log[|r.value.log| - 1] == Finished(r.value.opid, GotAccount)
  {
    hide Step, Enabled, Waiting;
    var i, d := AccountInputs, Asked(0);
    CallIsEnabled(Fresh(shared), i[0]);
    assert [] + [i[0]] == i[..1] && i[..1] + [i[1]] == i[..2] && i[..2] + [i[2]] == i;
    PlayOn(shared, [], i[0]);
    AccountAsks(shared);
    var c := Step(Fresh(shared), i[0]);
    AccountDirected(c);
    PlayOn(shared, i[..1], i[1]);
    c := Step(c, i[1]);
    AccountEnds(c);
    PlayOn(shared, i[..2], i[2]);
  }

  lemma AccountAsks(shared: nat)
    ensures Waiting(Step(Fresh(shared), AccountInputs[0]), [AccountImpl, GetAccount, GetDirectory], Asked(0),
                    Request(FetchDirectory, "uri", false, ""))
  {
    hide Call, Waiting;
    var d := Asked(0);
    assert Calls(GetDirectory) == [];
    assert Path(d, GetDirectory) == [GetDirectory] + Below(d, [], 0) == [GetDirectory];
    assert Below(d, Calls(GetAccount), 2) == [GetDirectory];
    assert Path(d, GetAccount) == [GetAccount, GetDirectory];
    assert Below(d, Calls(AccountImpl), 4) == Path(d, GetAccount);
    assert Path(d, AccountImpl) == [AccountImpl] + [GetAccount, GetDirectory];
    CallActs(shared, AccountImpl, d, Request(FetchDirectory, "uri", false, ""), [AccountImpl, GetAccount, GetDirectory]);
  }

  lemma AccountDirected(c: Client)
    requires Waiting(c, [AccountImpl, GetAccount, GetDirectory], Asked(0), Request(FetchDirectory, "uri", false, ""))
    ensures Enabled(c, AccountInputs[1])
    ensures Waiting(Step(c, AccountInputs[1]), [AccountImpl, GetAccount], Directed(0), Request(Account, "account", true, "n"))
  {
    hide Step, Resume;
    var d := Directed(0);
    AccountStays(d);
    GoesOn(c, [AccountImpl, GetAccount, GetDirectory], Asked(0), c.pending[0], Good().(directory := Some(TheDirectory)),
           d, GetAccount);
  }

  lemma AccountStays(d: Data)
    requires d.directory.Some? && d.nonce != "" && !d.hasAccount
    ensures Resume(d, [AccountImpl, GetAccount, GetDirectory]) == [AccountImpl, GetAccount]
  {
    hide Below;
    var s := [AccountImpl, GetAccount, GetDirectory];
    assert s[..2] == [AccountImpl, GetAccount];
    NothingLate(d, Calls(GetAccount), 2);
    assert s[..2] + [] == s[..2];
  }

  lemma AccountEnds(c: Client)
    requires Waiting(c, [AccountImpl, GetAccount], Directed(0), Request(Account, "account", true, "n"))
    ensures Enabled(c, AccountInputs[2])
    ensures Step(c, AccountInputs[2]).opid == c.opid
    ensures Step(c, AccountInputs[2]).log == c.log + [Finished(c.opid, GotAccount)]
  {
    hide Step, Resume;
    var d := Registered(0);
    AccountIsDone(d);
    GoesOn(c, [AccountImpl, GetAccount], Directed(0), c.pending[0], Good().(account := true, location := "kid"), d, AccountImpl);
  }

  lemma AccountIsDone(d: Data)
    requires d.hasAccount
    ensures Resume(d, [AccountImpl, GetAccount]) == [AccountImpl]
  {
    hide Below;
    assert [AccountImpl, GetAccount][..1] == [AccountImpl];
    NothingLate(d, Calls(AccountImpl), 4);
    assert [AccountImpl] + [] == [AccountImpl];
  }
}
