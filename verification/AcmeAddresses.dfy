/** Where the ACME client sends its requests: what the server has said, read off the replies alone,
    against what the client asks. */
module AcmeAddresses {
  import opened Options
  import opened AcmeModel
  import opened AcmeProofs
  import opened AcmeRuns

  // ---------------------------------------------------------------- what has been said

  /** What the latest public call and the good replies since then have said: the directory, the
      account, the order as last received with the location that came with it, the authorizations as
      last received, and the http-01 challenges in the order in which they came. Authorizations are
      polled in turn. */
  datatype Book = Book(
    uri: string,
    hosts: nat,
    checksDate: bool,
    canSign: bool,
    unservable: set<string>,
    nonce: string,
    directory: Option<Directory>,
    hasAccount: bool,
    order: Option<Order>,
    location: string,
    auths: seq<Auth>,
    challenges: seq<Challenge>,
    turn: nat,
    chain: string)

  const Blank := NewBook("", 0, false, true, {})

  function NewBook(uri: string, hosts: nat, checksDate: bool, canSign: bool, unservable: set<string>): Book {
    Book(uri, hosts, checksDate, canSign, unservable, "", None, false, None, "", [], [], 0, "")
  }

  /** The order that a reply brings, when one is expected with its location. */
  function Ordering(b: Book, r: Reply): Book {
    if r.order.Some? && r.location != "" then b.(order := r.order, location := r.location) else b
  }

  /** A good reply to a request of the given kind. */
  function Learned(b0: Book, kind: Kind, r: Reply): Book {
    var b := b0.(nonce := if r.nonce.Some? then r.nonce.value else "");
    match kind
    case FetchDirectory => if r.directory.Some? then b.(directory := r.directory) else b
    case Account => if r.account && r.location != "" then b.(hasAccount := true) else b
    case NewOrder => Ordering(b, r)
    case FinalizeOrder => Ordering(b, r)
    case PollOrder => if r.order.Some? then b.(order := r.order) else b
    case FetchAuth =>
      if r.auth.Some? && FirstHttp01(r.auth.value.challenges).Some? then
        b.(auths := b.auths + [r.auth.value], challenges := b.challenges + [FirstHttp01(r.auth.value.challenges).value])
      else b
    case PollAuth =>
      if r.auth.Some? && b.auths != [] then
        var i := if b.turn < |b.auths| then b.turn else 0;
        b.(auths := b.auths[i := r.auth.value], turn := if i + 1 == |b.auths| then 0 else i + 1)
      else b
    case Certificate => b.(chain := r.body)
    case _ => b
  }

  /** What an input adds; a public call that is refused adds nothing, and a bad nonce takes the nonce
      away. */
  function Told(b: Book, c: Client, i: Input): Book {
    match i
    case CallTerms(uri) => if c.stack == [] then NewBook(uri, 0, false, true, {}) else b
    case CallAccount(uri, canSign) => if c.stack == [] then NewBook(uri, 0, false, canSign, {}) else b
    case CallCertificate(uri, hosts, checksDate, canSign, _, unservable, _) =>
      if c.stack == [] then NewBook(uri, hosts, checksDate, canSign, unservable) else b
    case Answer(r) =>
      if c.pending == [] then b
      else if r.code < 100 || r.code >= 400 then b.(nonce := "")
      else Learned(b, c.pending[0].kind, r)
    case Elsewhere(_) => b
  }

  function BookOf(shared: nat, inputs: seq<Input>): Book
    decreases |inputs|
  {
    if inputs == [] then Blank
    else
      var before := inputs[..|inputs| - 1];
      match Play(shared, before)
      case None => Blank
      case Some(c) => Told(BookOf(shared, before), c, inputs[|inputs| - 1])
  }

  // ---------------------------------------------------------------- where requests belong

  /** How many challenges the latest operation has started. */
  function Starts(log: seq<Item>): nat
    decreases |log|
  {
    if log == [] || log[|log| - 1].Started? then 0
    else
      var item := log[|log| - 1];
      Starts(log[..|log| - 1]) + if item.Issued? && item.request.kind == StartChallenge then 1 else 0
  }

  function OrderIn(b: Book): Order {
    if b.order.Some? then b.order.value else Order("", [], "", "")
  }

  function DirectoryIn(b: Book): Directory {
    if b.directory.Some? then b.directory.value else Directory("", "", "")
  }

  /** The address for a request, `k` challenges having been started: entries of the directory, the
      k-th authorization for the k-th host, the authorizations in turn for polling, and what the order
      names. */
  predicate Belongs(b: Book, q: Request, k: nat) {
    match q.kind
    case Terms => q.url == b.uri
    case FetchDirectory => q.url == b.uri && b.directory == None
    case FetchNonce => q.url == DirectoryIn(b).newNonce && b.nonce == ""
    case Account => q.url == DirectoryIn(b).newAccount && !b.hasAccount
    case NewOrder => q.url == DirectoryIn(b).newOrder && b.order == None
    case FetchAuth =>
      && |b.auths| < |OrderIn(b).authorizations| && q.url == OrderIn(b).authorizations[|b.auths|]
      && OrderIn(b).status == "pending" && |b.auths| != b.hosts
    case StartChallenge =>
      && k < |b.challenges| && q.url == b.challenges[k].url && b.challenges[k].status == "pending"
      && b.challenges[k].token != "" && b.challenges[k].token !in b.unservable && OrderIn(b).status == "pending"
    case PollAuth =>
      && OrderIn(b).status == "pending" && (b.auths == [] || exists a :: a in b.auths && a.status != "valid")
      && (forall a, ch :: a in b.auths && ch in a.challenges && a.status == "invalid" ==> ch.status != "invalid")
      && b.turn < |OrderIn(b).authorizations| && q.url == OrderIn(b).authorizations[b.turn]
    case FinalizeOrder => q.url == OrderIn(b).finalize && OrderIn(b).status == "ready"
    case PollOrder => q.url == b.location && (OrderIn(b).status == "pending" || OrderIn(b).status == "processing")
    case Certificate => q.url == OrderIn(b).certificate && OrderIn(b).status == "valid" && b.chain == ""
  }

  /** A request goes where it belongs, to an address there is, and is signed with the nonce that came
      last, if there is one. Only the directory, the terms and nonces are asked for unsigned. */
  predicate Proper(b: Book, q: Request, k: nat) {
    && Belongs(b, q, k)
    && (q.kind != Terms && q.kind != FetchDirectory ==> q.url != "")
    && (q.signed <==> q.kind != Terms && q.kind != FetchDirectory && q.kind != FetchNonce)
    && q.nonce == if q.signed then b.nonce else ""
  }

  /** The event that ends a successful operation. */
  function VerdictOf(root: Op): Verdict {
    match root
    case TermsImpl => GotTerms
    case AccountImpl => GotAccount
    case _ => GotCertificate
  }

  /** What the observer sees is proper, given what has been seen before. */
  predicate ItemOk(b: Book, item: Item, before: seq<Item>) {
    match item
    case Issued(q, _) => Proper(b, q, Starts(before))
    case Finished(_, v) => v == Failed || v == VerdictOf(LatestCall(before).root)
    case Started(_, _, _, _) => true
  }

  // ---------------------------------------------------------------- the client knows just that

  predicate Knows(c: Client, b: Book) {
    c.data.Some? ==>
      var d := c.data.value;
      && d.directoryUri == b.uri && d.hosts == b.hosts && d.checksDate == b.checksDate && d.canSign == b.canSign
      && d.unservable == b.unservable && d.nonce == b.nonce && d.directory == b.directory
      && d.hasAccount == b.hasAccount && d.order == b.order && d.location == b.location
      && d.auths == b.auths && d.chain == b.chain
      && d.polling == b.turn && (b.turn > 0 ==> b.turn < |b.auths|)
      && (!c.stalled ==> Starts(c.log) <= |b.challenges| && d.todo == b.challenges[Starts(c.log)..])
  }

  lemma OwnBelongs(d: Data, b: Book, op: Op, q: Request, c: Client)
    requires c.data == Some(d) && Knows(c, b) && !c.stalled
    requires ReadyToAct(d, op) && (op == StartChallenges ==> d.todo != []) && Own(d, op) == Ask(q)
    ensures Proper(b, q, Starts(c.log))
  {
    hide Below;
    FinalizedFirst(d, op);
  }

  lemma QueueThere(d: Data)
    requires !Early(d, StartChallenges)
    ensures d.todo != []
  {
  }

  lemma StartsGrow(log: seq<Item>, item: Item)
    ensures Starts(log + [item]) ==
            if item.Started? then 0
            else Starts(log) + if item.Issued? && item.request.kind == StartChallenge then 1 else 0
  {
    assert (log + [item])[..|log|] == log;
  }

  /** What a step adds to the log: at most one item besides the start of a call, and a proper one. */
  predicate Adds(before: seq<Item>, after: seq<Item>, b: Book) {
    || after == before
    || (|after| == |before| + 1 && after[..|before|] == before && ItemOk(b, after[|before|], before))
  }

  lemma ActKnows(c: Client, b: Book)
    requires c.stack != [] && IsStack(c.stack) && c.data.Some? && !c.stalled && Knows(c, b)
    requires ReadyToAct(c.data.value, Last(c.stack)) && c.stack[0] == LatestCall(c.log).root
    ensures var s := Act(c, Last(c.stack)).client;
            Knows(s, b) && Adds(c.log, s.log, b)
  {
    hide IsStack, LatestCall, Early, Proper, Below, Own, Starts;
    var d, op := c.data.value, Last(c.stack);
    if op == StartChallenges {
      QueueThere(d);
    }
    match Own(d, op)
    case Ask(q) =>
      OwnBelongs(d, b, op, q, c);
      StartsGrow(c.log, Issued(q, OrderOf(d).status));
      AskedChallenge(d, op, q);
    case Fail =>
    case Stall =>
    case Finish(v) => FinishesRoot(d, op, v, c.stack);
  }

  lemma AskedChallenge(d: Data, op: Op, q: Request)
    requires !Early(d, op) && Own(d, op) == Ask(q)
    ensures q.kind == StartChallenge <==> op == StartChallenges
  {
  }

  lemma FinishesRoot(d: Data, op: Op, v: Verdict, stack: seq<Op>)
    requires !Early(d, op) && Own(d, op) == Finish(v)
    requires stack != [] && IsStack(stack) && Last(stack) == op
    ensures v == VerdictOf(stack[0])
  {
    RootIsAlone(stack);
  }

  lemma NotRoot(p: seq<Op>, i: int)
    requires IsPath(p) && 0 < i < |p|
    ensures !IsRoot(p[i])
  {
  }

  lemma RootIsAlone(p: seq<Op>)
    requires p != [] && IsStack(p) && IsRoot(Last(p))
    ensures |p| == 1
  {
    if |p| > 1 {
      NotRoot(p, |p| - 1);
    }
  }

  // ---------------------------------------------------------------- steps

  /** A handler fills in what the reply says, or ends the operation with a proper event. */
  predicate FillsIn(c: Client, s: Client, b: Book) {
    if s.data == None then
      s.stack == [] && |s.log| == |c.log| + 1 && s.log[..|c.log|] == c.log && ItemOk(b, s.log[|c.log|], c.log)
    else s.stack == c.stack && s.log == c.log && !s.stalled
  }

  lemma OnReplyKnows(c: Client, b: Book, kind: Kind, r: Reply)
    requires Inv(c, false) && Knows(c, b) && c.pending != [] && c.data.Some? && SafeReply(c) && kind == c.pending[0].kind
    requires c.stack != [] && !c.stalled
    ensures var s := OnReply(TakeNonce(c.(pending := c.pending[1..]), r), kind, r);
            Knows(s, Learned(b, kind, r)) && FillsIn(c, s, Learned(b, kind, r))
  {
    if kind == PollAuth {
      hide Inv, LatestCall;
      PollKnows(c, b, r);
    } else if kind == Terms {
      TermsIsRoot(c);
      hide Inv, LatestCall;
    } else {
      hide Inv, LatestCall;
      OtherKnows(c, b, kind, r);
    }
  }

  lemma PollKnows(c: Client, b: Book, r: Reply)
    requires Knows(c, b) && c.pending != [] && c.data.Some? && SafeReply(c) && c.pending[0].kind == PollAuth
    requires !c.stalled
    ensures var s := OnReply(TakeNonce(c.(pending := c.pending[1..]), r), PollAuth, r);
            Knows(s, Learned(b, PollAuth, r)) && FillsIn(c, s, Learned(b, PollAuth, r))
  {
    hide Starts, LatestCall;
    var d := c.data.value;
    NextTurn(d.polling, |d.auths|);
  }

  lemma NextTurn(i: nat, n: nat)
    requires i < n
    ensures (i + 1) % n == if i + 1 == n then 0 else i + 1
  {
  }

  lemma OtherKnows(c: Client, b: Book, kind: Kind, r: Reply)
    requires Knows(c, b) && c.pending != [] && c.data.Some? && kind != PollAuth && kind != Terms && !c.stalled
    ensures var s := OnReply(TakeNonce(c.(pending := c.pending[1..]), r), kind, r);
            Knows(s, Learned(b, kind, r)) && FillsIn(c, s, Learned(b, kind, r))
  {
    hide Starts, LatestCall, FirstHttp01, OnReply, TakeNonce, FillsIn, Knows, Learned;
    var n := if r.nonce.Some? then r.nonce.value else "";
    var c1, b1 := TakeNonce(c.(pending := c.pending[1..]), r), b.(nonce := n);
    NonceKnows(c, b, r);
    if kind == FetchAuth {
      AuthKnows(c1, b1, r);
    } else if kind == NewOrder || kind == FinalizeOrder || kind == PollOrder {
      OrderKnows(c1, b1, kind, r);
    } else {
      RestKnows(c1, b1, kind, r);
    }
    NonceOnce(b, kind, r);
    FillsInSame(c, c1, OnReply(c1, kind, r), Learned(b, kind, r));
  }

  lemma NonceOnce(b: Book, kind: Kind, r: Reply)
    ensures Learned(b, kind, r) == Learned(b.(nonce := if r.nonce.Some? then r.nonce.value else ""), kind, r)
  {
  }

  lemma NonceKnows(c: Client, b: Book, r: Reply)
    requires Knows(c, b) && c.pending != [] && c.data.Some?
    ensures var c1 := TakeNonce(c.(pending := c.pending[1..]), r);
            && c1.data.Some? && c1.log == c.log && c1.stack == c.stack && c1.stalled == c.stalled
            && c1.data.value.nonce == (if r.nonce.Some? then r.nonce.value else "")
            && Knows(c1, b.(nonce := if r.nonce.Some? then r.nonce.value else ""))
  {
    hide Starts;
  }

  lemma FillsInSame(c: Client, c1: Client, s: Client, b: Book)
    requires c1.log == c.log && c1.stack == c.stack && FillsIn(c1, s, b)
    ensures FillsIn(c, s, b)
  {
  }

  lemma AuthKnows(c: Client, b: Book, r: Reply)
    requires Knows(c, b) && c.data.Some? && !c.stalled && b.nonce == (if r.nonce.Some? then r.nonce.value else "")
    ensures var s := OnReply(c, FetchAuth, r);
            Knows(s, Learned(b, FetchAuth, r)) && FillsIn(c, s, Learned(b, FetchAuth, r))
  {
    hide Starts, LatestCall, FirstHttp01;
    QueueGrows(b.challenges, c, r);
  }

  lemma OrderKnows(c: Client, b: Book, kind: Kind, r: Reply)
    requires Knows(c, b) && c.data.Some? && !c.stalled && b.nonce == (if r.nonce.Some? then r.nonce.value else "")
    requires kind == NewOrder || kind == FinalizeOrder || kind == PollOrder
    ensures var s := OnReply(c, kind, r);
            Knows(s, Learned(b, kind, r)) && FillsIn(c, s, Learned(b, kind, r))
  {
    hide Starts, LatestCall;
  }

  lemma RestKnows(c: Client, b: Book, kind: Kind, r: Reply)
    requires Knows(c, b) && c.data.Some? && !c.stalled && b.nonce == (if r.nonce.Some? then r.nonce.value else "")
    requires kind == FetchDirectory || kind == FetchNonce || kind == Account || kind == StartChallenge || kind == Certificate
    ensures var s := OnReply(c, kind, r);
            Knows(s, Learned(b, kind, r)) && FillsIn(c, s, Learned(b, kind, r))
  {
    hide Starts, LatestCall;
  }

  lemma QueueGrows(chs: seq<Challenge>, c: Client, r: Reply)
    requires Starts(c.log) <= |chs|
    ensures forall ch :: (chs + [ch])[Starts(c.log)..] == chs[Starts(c.log)..] + [ch]
  {
  }

  lemma TermsIsRoot(c: Client)
    requires Inv(c, false) && c.pending != [] && c.pending[0].kind == Terms
    ensures LatestCall(c.log).root == TermsImpl
  {
    assert Last(c.stack) == TermsImpl;
    RootIsAlone(c.stack);
  }

  lemma AnswerKnows(c: Client, b: Book, r: Reply)
    requires Inv(c, false) && Knows(c, b) && Enabled(c, Answer(r))
    ensures var s, b1 := Step(c, Answer(r)), Told(b, c, Answer(r));
            Knows(s, b1) && Adds(c.log, s.log, b1)
  {
    hide Inv, Knows, Learned, Exec, Reenter, OnReply, Adds, TakeNonce, SafeReply;
    WaitingClient(c);
    if IsError(r.code) {
      ErrorKnows(c, b, r);
    } else if (c.data.value.checksDate && r.dateOff) || !IsSuccess(r.code) {
      StopKnows(c.(pending := c.pending[1..]), Learned(b, c.pending[0].kind, r));
    } else {
      GoodKnows(c, b, r);
    }
  }

  lemma WaitingClient(c: Client)
    requires Inv(c, false) && c.pending != []
    ensures c.data.Some? && c.stack != [] && !c.stalled && IsStack(c.stack)
    ensures |c.pending| == 1 && c.stack[0] == LatestCall(c.log).root
  {
  }

  lemma StopKnows(c: Client, b: Book)
    ensures Knows(Stop(c, Failed), b) && Adds(c.log, Stop(c, Failed).log, b)
  {
  }

  lemma ErrorKnows(c: Client, b: Book, r: Reply)
    requires Inv(c, false) && Knows(c, b) && Enabled(c, Answer(r)) && IsError(r.code)
    requires c.stack != [] && !c.stalled && c.stack[0] == LatestCall(c.log).root && IsStack(c.stack)
    ensures var s, b1 := Step(c, Answer(r)), b.(nonce := "");
            Knows(s, b1) && Adds(c.log, s.log, b1)
  {
    hide Inv, Exec, Adds, IsStack, LatestCall, Starts, Early, Act;
    var b1 := b.(nonce := "");
    var c0 := c.(pending := c.pending[1..]);
    if r.isProblem && r.isBadNonce {
      var c1 := c0.(data := Some(c0.data.value.(nonce := "")));
      var p := Path(c1.data.value, GetNonce);
      NonceIsDue(c1.data.value);
      ExecDescends(c1, GetNonce);
      PathFromNonce(c1.data.value, c.stack);
      ActKnows(c1.(stack := c1.stack + p), b1);
    } else {
      StopKnows(c0, b1);
    }
  }

  lemma NonceIsDue(d: Data)
    ensures Early(d, GetNonce) <==> d.nonce != ""
  {
  }

  lemma PathFromNonce(d: Data, stack: seq<Op>)
    requires IsStack(stack) && stack != [] && !Early(d, GetNonce)
    ensures var p := Path(d, GetNonce);
            && p != [] && IsStack(stack + p) && (stack + p)[0] == stack[0] && Last(stack + p) == Last(p)
            && ReadyToAct(d, Last(p))
  {
    hide Early, IsStack, Below, Calls;
    PathIsReady(d, stack, GetNonce);
  }

  /** A path pushed onto a stack ends in an operation that is ready to act. */
  lemma PathIsReady(d: Data, stack: seq<Op>, op: Op)
    requires IsStack(stack) && !Early(d, op)
    requires if stack == [] then IsRoot(op) else op == GetNonce
    ensures var p := Path(d, op);
            && p != [] && p[0] == op && IsStack(stack + p) && Last(stack + p) == Last(p) && ReadyToAct(d, Last(p))
  {
    hide Early, IsStack, Below, Calls;
    var b := Below(d, Calls(op), Rank(op));
    BelowIsPath(d, Calls(op), Rank(op));
    LeafIsReady(d, Calls(op), Rank(op));
    PushedStack(stack, op, b);
  }

  lemma GoodKnows(c: Client, b: Book, r: Reply)
    requires Inv(c, false) && Knows(c, b) && Enabled(c, Answer(r))
    requires IsSuccess(r.code) && !(c.data.value.checksDate && r.dateOff)
    requires c.stack != [] && !c.stalled && c.stack[0] == LatestCall(c.log).root && IsStack(c.stack)
    ensures var s, b1 := Step(c, Answer(r)), Learned(b, c.pending[0].kind, r);
            Knows(s, b1) && Adds(c.log, s.log, b1)
  {
    hide Inv, Knows, Learned, Reenter, OnReply, IsStack, LatestCall, ItemOk;
    var kind := c.pending[0].kind;
    var b1 := Learned(b, kind, r);
    var s := OnReply(TakeNonce(c.(pending := c.pending[1..]), r), kind, r);
    OnReplyKnows(c, b, kind, r);
    if s.data.Some? {
      ReenterKnows(s, b1);
    } else {
      NothingToReenter(s);
    }
  }

  lemma ReenterKnows(c: Client, b: Book)
    requires c.stack != [] && IsStack(c.stack) && c.data.Some? && !c.stalled && Knows(c, b)
    requires c.stack[0] == LatestCall(c.log).root
    ensures var s := Reenter(c);
            Knows(s, b) && Adds(c.log, s.log, b)
  {
    hide Act, Resume, Reenter, IsStack, Adds, LatestCall, Early, Starts, Below;
    var r := Resume(c.data.value, c.stack);
    ReenterResumes(c);
    ResumeIsStack(c.data.value, c.stack);
    ResumeIsReady(c.data.value, c.stack);
    ActKnows(c.(stack := r), b);
  }

  /** A call adds its start, and what its root operation comes to do. */
  predicate StartsAndAdds(before: seq<Item>, after: seq<Item>, b: Book) {
    || Adds(before, after, b)
    || (|after| > |before| && after[..|before|] == before && after[|before|].Started?
        && Adds(after[..|before| + 1], after, b))
  }

  /** The record that a call fills in says what the call says. */
  predicate SaysTheSame(d: Data, b: Book) {
    && d == NewData(b.uri, b.hosts, b.checksDate, b.canSign, d.canMakeCsr, b.unservable)
    && b == NewBook(b.uri, b.hosts, b.checksDate, b.canSign, b.unservable)
  }

  lemma CallKnows(c: Client, root: Op, d: Data, served: bool, b: Book)
    requires Inv(c, false) && IsRoot(root) && SaysTheSame(d, b) && c.stack == []
    ensures var s := Call(c, root, d, served);
            Knows(s, b) && StartsAndAdds(c.log, s.log, b)
  {
    hide Inv, Exec, Adds, IsStack, LatestCall, Starts, Early, Act, Knows;
    var id := NextId(c.shared);
    var item := Started(id, root, d.hosts, served);
    var c1 := c.(opid := id, shared := id, data := Some(d), stalled := false, log := c.log + [item]);
    StartsGrow(c.log, item);
    NewKnows(c1, d, b);
    AddsNothing(c1.log, b);
    assert c1.log[..|c.log|] == c.log && c1.log[..|c.log| + 1] == c1.log;
    if served {
      LatestOf(c.log, item);
      ServedKnows(c1, root, d, b);
      var s := Exec(c1, root).client;
      AddsKeeps(c1.log, s.log, b);
      assert s.log[..|c.log|] == c.log && s.log[|c.log|] == item;
    }
  }

  lemma ServedKnows(c: Client, root: Op, d: Data, b: Book)
    requires c.data == Some(d) && c.stack == [] && !c.stalled
    requires IsRoot(root) && SaysTheSame(d, b) && LatestCall(c.log).root == root && Starts(c.log) == 0
    ensures var s := Exec(c, root).client;
            Knows(s, b) && Adds(c.log, s.log, b)
  {
    hide Exec, Adds, IsStack, LatestCall, Starts, Early, Act, Knows;
    var p := Path(d, root);
    NewKnows(c, d, b);
    RootNotEarly(d, root);
    EmptyStack();
    PathIsReady(d, [], root);
    ExecDescends(c, root);
    assert [] + p == p;
    ActKnows(c.(stack := p), b);
  }

  lemma NewKnows(c: Client, d: Data, b: Book)
    requires c.data == Some(d) && SaysTheSame(d, b) && Starts(c.log) == 0
    ensures Knows(c, b)
    ensures forall stack :: Knows(c.(stack := stack), b)
  {
    hide Starts;
  }

  lemma AddsNothing(log: seq<Item>, b: Book)
    ensures Adds(log, log, b)
  {
  }

  lemma AddsKeeps(before: seq<Item>, after: seq<Item>, b: Book)
    requires Adds(before, after, b)
    ensures |after| >= |before| && after[..|before|] == before
  {
    assert before[..|before|] == before;
  }

  /** Every step leaves the client knowing what has been said, and adds proper items only. */
  lemma StepKnows(c: Client, b: Book, i: Input)
    requires Inv(c, false) && Knows(c, b) && Enabled(c, i)
    ensures var s, b1 := Step(c, i), Told(b, c, i);
            Knows(s, b1) && StartsAndAdds(c.log, s.log, b1)
  {
    hide Inv, Knows, Call, Handle, Adds, Learned;
    AddsNothing(c.log, b);
    match i
    case CallTerms(uri) =>
      if c.stack == [] {
        CallKnows(c, TermsImpl, NewData(uri, 0, false, true, true, {}), true, Told(b, c, i));
      } else {
        Refused(c, TermsImpl, NewData(uri, 0, false, true, true, {}), true);
      }
    case CallAccount(uri, canSign) =>
      if c.stack == [] {
        CallKnows(c, AccountImpl, NewData(uri, 0, false, canSign, true, {}), true, Told(b, c, i));
      } else {
        Refused(c, AccountImpl, NewData(uri, 0, false, canSign, true, {}), true);
      }
    case CallCertificate(uri, hosts, checksDate, canSign, canMakeCsr, unservable, served) =>
      var d := NewData(uri, hosts, checksDate, canSign, canMakeCsr, unservable);
      if c.stack == [] {
        CallKnows(c, CertificateImpl, d, served, Told(b, c, i));
      } else {
        Refused(c, CertificateImpl, d, served);
      }
    case Answer(r) =>
      AnswerKnows(c, b, r);
    case Elsewhere(shared) =>
      OthersKnow(c, b, shared);
  }

  lemma Refused(c: Client, root: Op, d: Data, served: bool)
    requires c.stack != [] && IsRoot(root)
    ensures Call(c, root, d, served) == c
  {
  }

  lemma OthersKnow(c: Client, b: Book, shared: nat)
    requires Knows(c, b)
    ensures Knows(c.(shared := shared), b)
  {
  }

  // ---------------------------------------------------------------- runs

  lemma {:induction false} PlayKnows(shared: nat, inputs: seq<Input>)
    requires Play(shared, inputs).Some?
    ensures Knows(Play(shared, inputs).value, BookOf(shared, inputs))
    decreases |inputs|
  {
    if inputs != [] {
      hide Inv, Step, Enabled, Knows, Told;
      var before := inputs[..|inputs| - 1];
      PlayKnows(shared, before);
      PlayInv(shared, before);
      InvWeakens(Play(shared, before).value, NeverRepeats(shared, before));
      StepKnows(Play(shared, before).value, BookOf(shared, before), inputs[|inputs| - 1]);
    }
  }

  lemma InvWeakens(c: Client, honest: bool)
    requires Inv(c, honest)
    ensures Inv(c, false)
  {
  }

  /** Over every run, whatever the observer sees is proper: every request goes to the address that the
      server has given for it by then, when it is due, signed with the latest nonce; and an operation
      that ends well ends with the event that was asked for. */
  lemma {:induction false} RequestsGoWhereTold(shared: nat, inputs: seq<Input>, i: nat)
    requires Play(shared, inputs).Some? && i < |Play(shared, inputs).value.log|
    ensures var log := Play(shared, inputs).value.log;
            exists n :: 0 < n <= |inputs| && ItemOk(BookOf(shared, inputs[..n]), log[i], log[..i])
    decreases |inputs|
  {
    hide Inv, Step, Enabled, Knows, Told, ItemOk, BookOf;
    var m := |inputs| - 1;
    var before := inputs[..m];
    var c, s := Play(shared, before).value, Play(shared, inputs).value;
    PlayKnows(shared, before);
    PlayInv(shared, before);
    InvWeakens(c, NeverRepeats(shared, before));
    BookGrows(shared, inputs);
    StepKnows(c, BookOf(shared, before), inputs[m]);
    var b := BookOf(shared, inputs);
    assert inputs[..|inputs|] == inputs;
    if i < |c.log| {
      StartsAndAddsKeeps(c.log, s.log, b, i);
      RequestsGoWhereTold(shared, before, i);
      var n :| 0 < n <= m && ItemOk(BookOf(shared, before[..n]), c.log[i], c.log[..i]);
      assert before[..n] == inputs[..n];
    } else {
      NewItemOk(c.log, s.log, b, i);
    }
  }

  lemma BookGrows(shared: nat, inputs: seq<Input>)
    requires Play(shared, inputs).Some? && inputs != []
    ensures var before := inputs[..|inputs| - 1];
            && Play(shared, before).Some? && Enabled(Play(shared, before).value, inputs[|inputs| - 1])
            && Play(shared, inputs).value == Step(Play(shared, before).value, inputs[|inputs| - 1])
            && BookOf(shared, inputs) == Told(BookOf(shared, before), Play(shared, before).value, inputs[|inputs| - 1])
  {
    hide Step, Enabled, Told;
  }

  lemma StartsAndAddsKeeps(before: seq<Item>, after: seq<Item>, b: Book, i: nat)
    requires StartsAndAdds(before, after, b) && i < |before|
    ensures i < |after| && after[i] == before[i] && after[..i] == before[..i]
  {
    hide ItemOk;
    assert after[..|before|] == before;
    assert after[..i] == after[..|before|][..i];
  }

  lemma NewItemOk(before: seq<Item>, after: seq<Item>, b: Book, i: nat)
    requires StartsAndAdds(before, after, b) && |before| <= i < |after|
    ensures ItemOk(b, after[i], after[..i])
  {
  }

  // ---------------------------------------------------------------- replies that end an operation

  /** A reply that is an error, other than a bad nonce, or comes with a date too far off when that is
      checked, or is no success, ends the operation with the failure event, whatever was asked. */
  lemma BadReplyEnds(c: Client, r: Reply)
    requires Inv(c, false) && Enabled(c, Answer(r)) && c.pending != []
    requires || ((r.code < 100 || r.code >= 400) && !(r.isProblem && r.isBadNonce))
             || (100 <= r.code < 400 && c.data.value.checksDate && r.dateOff)
             || 100 <= r.code < 200 || 300 <= r.code < 400
    ensures var s := Step(c, Answer(r));
            s.log == c.log + [Finished(c.opid, Failed)] && s.stack == [] && s.data == None && s.pending == []
  {
    hide Exec, Reenter, OnReply;
    WaitingClient(c);
  }

  /** The reply does not bring what the request asks for. */
  predicate Lacks(kind: Kind, r: Reply) {
    match kind
    case Terms => false
    case FetchDirectory => r.directory == None
    case FetchNonce => r.nonce == None || r.nonce == Some("")
    case Account => !r.account || r.location == ""
    case NewOrder => r.order == None || r.location == ""
    case FetchAuth => r.auth == None || forall ch :: ch in r.auth.value.challenges ==> ch.kind != "http-01"
    case StartChallenge => false
    case PollAuth => r.auth == None
    case FinalizeOrder => r.order == None || r.location == ""
    case PollOrder => r.order == None
    case Certificate => false
  }

  lemma {:induction false} NoHttp01(chs: seq<Challenge>)
    ensures FirstHttp01(chs) == None <==> forall ch :: ch in chs ==> ch.kind != "http-01"
  {
    if chs != [] {
      NoHttp01(chs[1..]);
    }
  }

  lemma TakenIn(c: Client, kind: Kind, r: Reply)
    requires c.data.Some? && (kind.PollAuth? ==> c.data.value.polling < |c.data.value.auths|)
    ensures var s := OnReply(TakeNonce(c, r), kind, r);
            if Lacks(kind, r) then s == Stop(TakeNonce(c, r), Failed)
            else if kind == Terms then s == Stop(TakeNonce(c, r), GotTerms)
            else s.data.Some? && s.stack == c.stack && s.log == c.log
  {
    if r.auth.Some? {
      NoHttp01(r.auth.value.challenges);
    }
  }

  /** A good reply that does not bring what was asked for ends the operation with the failure event;
      any other one, save for the terms themselves, is taken in and the operation goes on. */
  lemma LackingReplyEndsExactly(c: Client, r: Reply)
    requires Inv(c, false) && Enabled(c, Answer(r)) && c.pending != []
    requires 200 <= r.code < 300 && !(c.data.value.checksDate && r.dateOff)
    ensures var kind := c.pending[0].kind;
            var s := OnReply(TakeNonce(c.(pending := []), r), kind, r);
            if Lacks(kind, r) then
              && s.log == c.log + [Finished(c.opid, Failed)] && s.stack == [] && s.data == None && s.pending == []
              && Step(c, Answer(r)) == s
            else if kind == Terms then s.log == c.log + [Finished(c.opid, GotTerms)] && s.stack == []
            else s.log == c.log && s.stack == c.stack && s.data.Some? && Step(c, Answer(r)) == Reenter(s)
  {
    hide Exec, Reenter, OnReply, Lacks, Inv, IsStack, LatestCall;
    WaitingClient(c);
    assert c.pending[1..] == [];
    var kind := c.pending[0].kind;
    TakenIn(c.(pending := []), kind, r);
    var s := OnReply(TakeNonce(c.(pending := []), r), kind, r);
    if s.data == None {
      NothingToReenter(s);
    }
  }

  /** Waiting for the challenges ends the operation exactly if some authorization is invalid together
      with one of its challenges, or the next one cannot be asked for; unless all of them are valid. */
  lemma WaitingFailsExactly(c: Client)
    requires c.data.Some? && !Early(c.data.value, WaitChallenges)
    ensures var d := c.data.value;
            var given := OrderOf(d).authorizations;
            && d.order.Some? && d.order.value.status == "pending"
            && (d.auths == [] || exists a :: a in d.auths && a.status != "valid")
            && (Act(c, WaitChallenges).client.stack == [] && Act(c, WaitChallenges).client.data == None <==>
                  || (exists a, ch :: a in d.auths && ch in a.challenges && a.status == "invalid" && ch.status == "invalid")
                  || !d.canSign || d.polling >= |given| || given[d.polling] == "")
  {
    hide Rank;
  }

  // ---------------------------------------------------------------- ids of operations

  /** The id that is handed out after `k` others. */
  function IdAfter(shared: nat, k: nat): nat {
    if k == 0 then NextId(shared) else NextId(IdAfter(shared, k - 1))
  }

  /** Ids are never 0 and stay below 2^64, and an id comes back after all the others only. */
  lemma {:induction false} IdsComeRound(shared: nat, k: nat)
    requires shared < 0x1_0000_0000_0000_0000
    ensures IdAfter(shared, k) == (shared + k) % 0xffff_ffff_ffff_ffff + 1
  {
    if k > 0 {
      IdsComeRound(shared, k - 1);
    }
  }

  /** A call that is not refused returns such an id, which the operation keeps in its log. */
  lemma CallTakesId(c: Client, root: Op, d: Data, served: bool)
    requires Inv(c, false) && IsRoot(root) && c.stack == [] && c.shared < 0x1_0000_0000_0000_0000
    requires d == NewData(d.directoryUri, d.hosts, d.checksDate, d.canSign, d.canMakeCsr, d.unservable)
    ensures var s := Call(c, root, d, served);
            && s.opid == c.shared % 0xffff_ffff_ffff_ffff + 1 && s.shared == s.opid
            && |s.log| > |c.log| && s.log[..|c.log|] == c.log
            && s.log[|c.log|] == Started(s.opid, root, d.hosts, served)
  {
    hide Exec, Early, Act, Inv, IsStack, NextId;
    IdsComeRound(c.shared, 0);
    var id := NextId(c.shared);
    if served {
      var c1 := c.(opid := id, shared := id, data := Some(d), stalled := false,
                   log := c.log + [Started(id, root, d.hosts, served)]);
      RootNotEarly(d, root);
      ExecDescends(c1, root);
      EmptyStack();
      PathIsReady(d, [], root);
      ActKeepsIds(c1.(stack := c1.stack + Path(d, root)), Last(Path(d, root)));
    }
  }

  lemma ActKeepsIds(c: Client, op: Op)
    requires c.data.Some? && !Early(c.data.value, op)
    ensures var s := Act(c, op).client;
            && s.opid == c.opid && s.shared == c.shared
            && |s.log| >= |c.log| && s.log[..|c.log|] == c.log
  {
    hide Early, Own;
  }
}
