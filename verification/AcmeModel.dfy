/** The ACME client of acme/client.cpp as a transition system: operations that are re-entered
    from the top after every HTTP reply, with an explicit stack of the operations under way. */
module AcmeModel {
  import opened Options

  // ---------------------------------------------------------------- data

  /** What is read out of the server's JSON objects; a missing string is the empty one. */
  datatype Directory = Directory(newNonce: string, newAccount: string, newOrder: string)

  datatype Challenge = Challenge(kind: string, status: string, token: string, url: string)

  datatype Auth = Auth(status: string, challenges: seq<Challenge>)

  datatype Order = Order(status: string, authorizations: seq<string>, finalize: string, certificate: string)

  /** The optional record `d_`. The last three fields stand for libraries: whether the key
      signs, whether a request for the hosts can be made with it, and the tokens that the
      challenger fails to serve. */
  datatype Data = Data(
    directoryUri: string,
    directory: Option<Directory>,
    nonce: string,
    hasAccount: bool,
    kid: string,
    hosts: nat,
    order: Option<Order>,
    location: string,
    auths: seq<Auth>,
    todo: seq<Challenge>,
    polling: nat,
    chain: string,
    checksDate: bool,
    canSign: bool,
    canMakeCsr: bool,
    unservable: set<string>)

  function NewData(uri: string, hosts: nat, checksDate: bool, canSign: bool, canMakeCsr: bool, unservable: set<string>): Data {
    Data(uri, None, "", false, "", hosts, None, "", [], [], 0, "", checksDate, canSign, canMakeCsr, unservable)
  }

  function OrderOf(d: Data): Order {
    if d.order.Some? then d.order.value else Order("", [], "", "")
  }

  function DirectoryOf(d: Data): Directory {
    if d.directory.Some? then d.directory.value else Directory("", "", "")
  }

  /** A JSON array indexed beyond its end yields nothing. */
  function StringAt(s: seq<string>, i: nat): string {
    if i < |s| then s[i] else ""
  }

  // ---------------------------------------------------------------- requests, replies, history

  datatype Kind =
    | Terms | FetchDirectory | FetchNonce | Account | NewOrder | FetchAuth
    | StartChallenge | PollAuth | FinalizeOrder | PollOrder | Certificate

  datatype Request = Request(kind: Kind, url: string, signed: bool, nonce: string)

  /** A reply, with every reading of its body that some handler may take. */
  datatype Reply = Reply(
    code: nat,
    isProblem: bool,
    isBadNonce: bool,
    dateOff: bool,
    nonce: Option<string>,
    directory: Option<Directory>,
    account: bool,
    location: string,
    order: Option<Order>,
    auth: Option<Auth>,
    body: string)

  datatype Verdict = Failed | GotTerms | GotAccount | GotCertificate

  /** What an observer sees: a public call that got an id, with its root operation and the number
      of hosts that it names, a request with the order status at that time, or the terminal event
      of an id. */
  datatype Item =
    | Started(opid: nat, root: Op, hosts: nat, served: bool)
    | Issued(request: Request, status: string)
    | Finished(opid: nat, verdict: Verdict)

  datatype Op =
    | TermsImpl | AccountImpl | CertificateImpl
    | GetDirectory | GetNonce | GetAccount | GetOrder | GetAuths
    | StartChallenges | WaitChallenges | Finalize | GetCertificate

  /** `stalled` and `log` record history: whether the running operation was left waiting for a
      reply to no request, and everything observable so far. `nonces` collects the nonces that
      the server has handed out. */
  datatype Client = Client(
    stack: seq<Op>,
    opid: nat,
    shared: nat,
    data: Option<Data>,
    pending: seq<Request>,
    stalled: bool,
    log: seq<Item>,
    nonces: set<string>)

  // ---------------------------------------------------------------- single operations

  predicate IsRoot(op: Op) {
    op.TermsImpl? || op.AccountImpl? || op.CertificateImpl?
  }

  /** The operations that one executes, in order. */
  function Calls(op: Op): (r: seq<Op>)
    ensures forall sub :: sub in r ==> Rank(sub) < Rank(op) && !IsRoot(sub)
  {
    match op
    case AccountImpl => [GetAccount]
    case CertificateImpl => [GetCertificate]
    case GetNonce => [GetDirectory]
    case GetAccount => [GetDirectory, GetNonce]
    case GetCertificate => [GetAccount, GetOrder, GetAuths, StartChallenges, WaitChallenges, Finalize]
    case _ => []
  }

  function Rank(op: Op): nat {
    match op
    case GetNonce => 1
    case GetAccount => 2
    case GetCertificate => 3
    case AccountImpl => 4
    case CertificateImpl => 4
    case _ => 0
  }

  predicate AllValid(auths: seq<Auth>) {
    auths != [] && forall a :: a in auths ==> a.status == "valid"
  }

  predicate SomeInvalid(auths: seq<Auth>) {
    exists a :: a in auths && a.status == "invalid" && exists c :: c in a.challenges && c.status == "invalid"
  }

  /** The test at the head of an operation that makes it succeed at once. */
  predicate Early(d: Data, op: Op) {
    match op
    case GetDirectory => d.directory.Some?
    case GetNonce => d.nonce != ""
    case GetAccount => d.hasAccount
    case GetOrder => d.order.Some?
    case GetAuths => OrderOf(d).status != "pending" || |d.auths| == d.hosts
    case StartChallenges => OrderOf(d).status != "pending" || d.todo == []
    case WaitChallenges => OrderOf(d).status != "pending" || AllValid(d.auths)
    case Finalize => OrderOf(d).status == "valid"
    case GetCertificate => d.chain != ""
    case _ => false
  }

  datatype Action = Ask(request: Request) | Fail | Stall | Finish(verdict: Verdict)

  function Signed(d: Data, kind: Kind, url: string): Action {
    if url == "" then Fail else Ask(Request(kind, url, true, d.nonce))
  }

  function SignedIfAble(d: Data, kind: Kind, url: string): Action {
    if d.canSign then Signed(d, kind, url) else Fail
  }

  /** What an operation does once everything it depends on is there. */
  function Own(d: Data, op: Op): Action
    requires op.StartChallenges? ==> d.todo != []
  {
    match op
    case TermsImpl => Ask(Request(Terms, d.directoryUri, false, ""))
    case AccountImpl => Finish(GotAccount)
    case CertificateImpl => Finish(GotCertificate)
    case GetDirectory => Ask(Request(FetchDirectory, d.directoryUri, false, ""))
    case GetNonce =>
      if DirectoryOf(d).newNonce == "" then Fail
      else Ask(Request(FetchNonce, DirectoryOf(d).newNonce, false, ""))
    case GetAccount => SignedIfAble(d, Account, DirectoryOf(d).newAccount)
    case GetOrder => SignedIfAble(d, NewOrder, DirectoryOf(d).newOrder)
    case GetAuths => SignedIfAble(d, FetchAuth, StringAt(OrderOf(d).authorizations, |d.auths|))
    case StartChallenges =>
      var ch := d.todo[0];
      if ch.status != "pending" then Stall
      else if ch.token == "" || ch.token in d.unservable then Fail
      else SignedIfAble(d, StartChallenge, ch.url)
    case WaitChallenges =>
      if SomeInvalid(d.auths) then Fail
      else SignedIfAble(d, PollAuth, StringAt(OrderOf(d).authorizations, d.polling))
    case Finalize =>
      if OrderOf(d).status == "ready" then
        if d.canMakeCsr then Signed(d, FinalizeOrder, OrderOf(d).finalize) else Fail
      else if OrderOf(d).status == "pending" || OrderOf(d).status == "processing" then
        Signed(d, PollOrder, d.location)
      else Fail
    case GetCertificate => Signed(d, Certificate, OrderOf(d).certificate)
  }

  /** The first challenge leaves the queue as soon as it has been dealt with, before any reply. */
  function AfterOwn(d: Data, op: Op): Data
    requires op.StartChallenges? ==> d.todo != []
  {
    if op.StartChallenges? then d.(todo := d.todo[1..]) else d
  }

  // ---------------------------------------------------------------- the stack machine

  datatype Result = Result(client: Client, ok: bool)

  /** `stop`: the terminal event, and everything about the operation is forgotten. */
  function Stop(c: Client, verdict: Verdict): Client {
    c.(data := None, stack := [], log := c.log + [Finished(c.opid, verdict)])
  }

  function Act(c: Client, op: Op): Result
    requires c.data.Some? && !Early(c.data.value, op)
  {
    var d := c.data.value;
    match Own(d, op)
    case Ask(q) =>
      Result(c.(data := Some(AfterOwn(d, op)), pending := c.pending + [q],
                log := c.log + [Issued(q, OrderOf(d).status)]), false)
    case Stall => Result(c.(data := Some(AfterOwn(d, op)), stalled := true), false)
    case Fail => Result(Stop(c, Failed), false)
    case Finish(v) => Result(Stop(c, v), true)
  }

  /** The body of an operation. One that succeeds, unless it is a root, has done nothing. */
  function Run(c: Client, op: Op): (r: Result)
    requires c.data.Some?
    ensures r.ok && !IsRoot(op) ==> r.client == c
    ensures r.ok && IsRoot(op) ==> r.client.stack == []
    decreases Rank(op), 1, 0
  {
    if Early(c.data.value, op) then Result(c, true)
    else
      var r := RunAll(c, Calls(op), Rank(op));
      if !r.ok then r else Act(r.client, op)
  }

  function RunAll(c: Client, ops: seq<Op>, bound: nat): (r: Result)
    requires c.data.Some?
    requires forall op :: op in ops ==> Rank(op) < bound && !IsRoot(op)
    ensures r.ok ==> r.client == c
    decreases bound, 0, |ops|
  {
    if ops == [] then Result(c, true)
    else
      var r := Exec(c, ops[0]);
      if !r.ok then r else RunAll(r.client, ops[1..], bound)
  }

  /** `execute`: push, run, and pop again if the operation succeeded and nobody has emptied
      the stack. */
  function Exec(c: Client, op: Op): (r: Result)
    requires c.data.Some?
    ensures r.ok && !IsRoot(op) ==> r.client == c
    ensures r.ok && IsRoot(op) ==> r.client.stack == []
    decreases Rank(op), 2, 0
  {
    var r := Run(c.(stack := c.stack + [op]), op);
    if !r.ok then r else Result(Popped(r.client), true)
  }

  function Popped(c: Client): Client {
    if c.stack == [] then c else c.(stack := c.stack[..|c.stack| - 1])
  }

  /** `reenter`: run the operations on the stack from the top one down. */
  function Reenter(c: Client): Client
    requires c.stack != [] ==> c.data.Some?
    decreases |c.stack|
  {
    if c.stack == [] then c
    else
      var r := Run(c, c.stack[|c.stack| - 1]);
      if !r.ok then r.client else Reenter(Popped(r.client))
  }

  // ---------------------------------------------------------------- replies

  /** Codes outside 100..599 are the transport's own errors. */
  predicate IsError(code: nat) {
    code < 100 || code > 599 || code >= 400
  }

  predicate IsSuccess(code: nat) {
    200 <= code < 300
  }

  function FirstHttp01(chs: seq<Challenge>): Option<Challenge> {
    if chs == [] then None
    else if chs[0].kind == "http-01" then Some(chs[0])
    else FirstHttp01(chs[1..])
  }

  /** The order in the body, and the location that comes with it. */
  function WithOrder(c: Client, d: Data, r: Reply): Client {
    if r.order == None || r.location == "" then Stop(c, Failed)
    else c.(data := Some(d.(order := r.order, location := r.location)))
  }

  /** The handler that was registered with the request. */
  function OnReply(c: Client, kind: Kind, r: Reply): (s: Client)
    requires c.data.Some?
    requires kind.PollAuth? ==> c.data.value.polling < |c.data.value.auths|
  {
    var d := c.data.value;
    match kind
    case Terms => Stop(c, GotTerms)
    case FetchDirectory =>
      if r.directory == None then Stop(c, Failed) else c.(data := Some(d.(directory := r.directory)))
    case FetchNonce => if d.nonce == "" then Stop(c, Failed) else c
    case Account =>
      if !r.account || r.location == "" then Stop(c, Failed)
      else c.(data := Some(d.(hasAccount := true, kid := r.location)))
    case NewOrder => WithOrder(c, d, r)
    case FetchAuth =>
      if r.auth == None || FirstHttp01(r.auth.value.challenges) == None then Stop(c, Failed)
      else
        var ch := FirstHttp01(r.auth.value.challenges).value;
        c.(data := Some(d.(auths := d.auths + [r.auth.value], todo := d.todo + [ch])))
    case StartChallenge => c
    case PollAuth =>
      if r.auth == None then Stop(c, Failed)
      else
        c.(data := Some(d.(auths := d.auths[d.polling := r.auth.value],
                           polling := (d.polling + 1) % |d.auths|)))
    case FinalizeOrder => WithOrder(c, d, r)
    case PollOrder =>
      if r.order == None then Stop(c, Failed) else c.(data := Some(d.(order := r.order)))
    case Certificate => c.(data := Some(d.(chain := r.body)))
  }

  /** The nonce that comes with a good reply replaces the one in hand; no nonce erases it. */
  function TakeNonce(c: Client, r: Reply): (s: Client)
    requires c.data.Some?
    ensures s.data.Some?
  {
    var n := if r.nonce.Some? then r.nonce.value else "";
    c.(data := Some(c.data.value.(nonce := n)), nonces := if n == "" then c.nonces else c.nonces + {n})
  }

  /** Handling the reply under way stays inside the vectors of hosts and authorizations. */
  predicate SafeReply(c: Client)
    requires c.data.Some? && c.pending != []
  {
    var d := c.data.value;
    match c.pending[0].kind
    case FetchAuth => |d.auths| < d.hosts
    case PollAuth => d.polling < |d.auths| && d.polling < d.hosts
    case _ => true
  }

  /** What `handle` wraps around every handler. */
  function Handle(c: Client, r: Reply): Client
    requires c.data.Some? && c.pending != []
    requires c.pending[0].kind.PollAuth? ==> c.data.value.polling < |c.data.value.auths|
  {
    var c0 := c.(pending := c.pending[1..]);
    if IsError(r.code) then
      if r.isProblem && r.isBadNonce then
        Exec(c0.(data := Some(c0.data.value.(nonce := ""))), GetNonce).client
      else Stop(c0, Failed)
    else if c.data.value.checksDate && r.dateOff then Stop(c0, Failed)
    else if !IsSuccess(r.code) then Stop(c0, Failed)
    else
      var c1 := OnReply(TakeNonce(c0, r), c.pending[0].kind, r);
      Reenter(c1)
  }

  // ---------------------------------------------------------------- public calls

  /** Operation ids count up through a 64-bit counter that is shared by all clients and skips 0. */
  function NextId(shared: nat): nat {
    if shared >= 0xffff_ffff_ffff_ffff then 1 else shared + 1
  }

  /** A public call does nothing while an operation is under way. `d` is the record it fills
      in; a certificate request that does not say how to serve challenges gets no further. */
  function Call(c: Client, root: Op, d: Data, served: bool): Client
    requires IsRoot(root)
  {
    if c.stack != [] then c
    else
      var id := NextId(c.shared);
      var c1 := c.(opid := id, shared := id, data := Some(d), stalled := false,
                   log := c.log + [Started(id, root, d.hosts, served)]);
      if served then Exec(c1, root).client else c1
  }
}
