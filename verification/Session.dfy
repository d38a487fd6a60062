/** The client's main program and the server's request loop as one system of steps: requests and
    replies in flight, the client's backups and the server's copies of two files, over any number of
    client runs. */
module Session {
  import opened Stdio
  import Transfer

  datatype Which = Solv | Yum

  datatype Files = Files(solv: Option<string>, yum: Option<string>) {
    function At(w: Which): Option<string> {
      if w == Solv then solv else yum
    }

    function With(w: Which, f: Option<string>): Files {
      if w == Solv then this.(solv := f) else this.(yum := f)
    }
  }

  datatype Command = Install | Update | Erase | UpdateAll | CheckDep | NoOption

  datatype Request = SendFile(w: Which, content: string) | Get(command: Command)

  datatype Answer = AnswerOk | AnswerError | AnswerNoDep

  datatype Status = Success | FileError | NetworkingError | RepoError | Answered(rc: Answer)

  /** Where `main` stands: in front of a file, waiting for the reply to a file, in front of its backup
      copy, in front of the switch, waiting for the two replies to a GET request, or at the end. */
  datatype Client = Decide(w: Which) | Await(w: Which) | Backup(w: Which) | Switch | AwaitRepo | AwaitAnswer
                  | Ended(status: Status)

  /** The server waits for a request, solves dependencies between the two replies to a GET request, waits
      for more bytes of a file that was delivered, reads from a connection that broke during a transfer, or
      has left its loop, with `client_end` set or because of its status. */
  datatype Server = Idle | Solving | Hanging | Stranded | Closed(clientEnd: bool)

  /** `hasId`: the configuration holds a client id. `sentNow`: the files the server accepted in this run.
      `issued`, `given`, `taken`: the requests of this run, the replies written and those read. `broken`
      and `failed`: a transfer of this run was cut off, or the server could not write all of it. `copy` is
      what the server holds when no transfer is under way. */
  datatype Sys = Sys(hasId: bool, command: Command, local: Files, backup: Files, copy: Files,
                     client: Client, server: Server, requests: seq<Request>, replies: seq<Answer>,
                     sentNow: set<Which>, issued: seq<Request>, given: nat, taken: nat,
                     broken: bool, failed: bool)

  /** How the server fares with a file: it is stored, it cannot be opened, or writing stops early. */
  datatype Storing = Stored | CannotOpen | Partly(stored: string)

  /** How the copy to the backup fares: it is whole, the backup cannot be opened, or `fwrite` falls short,
      which `copy_file` does not notice. */
  datatype Copying = Whole | Refused | Short(kept: string)

  datatype Step =
    | NewRun(hasId: bool, command: Command, local: Files)   // with a server that waits for a client
    | Look(agree: bool)              // compare, ask the user if need be, send
    | TakeReply                      // the reply to a file
    | Copy(copying: Copying)         // copy_file to the backup
    | Order(repoOk: bool)            // the switch: read the repositories, send the request
    | TakeRepo | TakeAnswer
    | Serve(storing: Storing)        // one request up to its first reply
    | Solve(found: bool)             // the second reply to a GET request
    | Hang                           // a transfer after which client and server wait for each other
    | Break(stored: string)          // the connection or the client dies during a transfer

  /** `compare_files(...) == OK`. */
  predicate Same(a: Option<string>, b: Option<string>) {
    a.Some? && b.Some? && UntilEof(a.value) == UntilEof(b.value)
  }

  function After(w: Which): Client {
    if w == Solv then Decide(Yum) else Switch
  }

  predicate IsGet(c: Command) {
    c in {Install, Update, Erase, UpdateAll}
  }

  predicate MustSend(s: Sys, w: Which) {
    !s.hasId || !Same(s.local.At(w), s.backup.At(w))
  }

  /** A file is stored if some run of its transfer succeeds; what is stored of it when writing stops or the
      connection breaks is what some run has stored at some point. */
  ghost predicate CanServe(r: Request, storing: Storing) {
    match storing
    case Stored => r.SendFile? ==> Transfer.CanFinish(r.content)
    case CannotOpen => r.SendFile?
    case Partly(stored) => r.SendFile? && stored != r.content && Transfer.CanStore(r.content, stored)
  }

  predicate CanCopy(f: Option<string>, copying: Copying) {
    f.Some? && (copying.Short? ==> copying.kept < f.value)
  }

  /** A transfer is under way: the server has the request, the client waits for the reply. */
  predicate Sending(s: Sys) {
    s.client.Await? && s.requests != [] && s.requests[0].SendFile?
  }

  ghost predicate Enabled(s: Sys, a: Step) {
    match a
    case NewRun(_, _, _) => s.client.Ended?
    case Look(_) => s.client.Decide?
    case TakeReply => s.client.Await? && s.replies != []
    case Copy(copying) => s.client.Backup? && CanCopy(s.local.At(s.client.w), copying)
    case Order(_) => s.client.Switch?
    case TakeRepo => s.client.AwaitRepo? && s.replies != []
    case TakeAnswer => s.client.AwaitAnswer? && s.replies != []
    case Serve(storing) => s.server.Idle? && s.requests != [] && CanServe(s.requests[0], storing)
    case Solve(_) => s.server.Solving?
    case Hang => Sending(s) && s.server.Idle? && Transfer.CanHang(s.requests[0].content)
    case Break(stored) =>
      Sending(s) && (s.server.Idle? || s.server.Hanging?) && Transfer.CanStore(s.requests[0].content, stored)
  }

  function Issue(s: Sys, r: Request, client: Client): Sys {
    s.(requests := s.requests + [r], issued := s.issued + [r], client := client)
  }

  function GiveReply(s: Sys, a: Answer, server: Server): Sys {
    s.(replies := s.replies + [a], given := s.given + 1, server := server)
  }

  function Take(s: Sys, client: Client): Sys
    requires s.replies != []
  {
    s.(replies := s.replies[1..], taken := s.taken + 1, client := client)
  }

  /** client_main.c from the check of the id on, for one file. */
  function LookAt(s: Sys, w: Which, agree: bool): Sys {
    if !MustSend(s, w) then s.(client := After(w))
    else if s.hasId && !agree then s.(client := Ended(Success))
    else if s.local.At(w).None? then s.(client := Ended(FileError))
    else Issue(s, SendFile(w, s.local.At(w).value), Await(w))
  }

  function ServeFirst(s: Sys, storing: Storing): Sys
    requires Enabled(s, Serve(storing))
  {
    var r := s.requests[0];
    var s' := s.(requests := s.requests[1..]);
    match r
    case Get(_) => GiveReply(s', AnswerOk, Solving)
    case SendFile(w, content) =>
      match storing
      case Stored => GiveReply(s'.(copy := s.copy.With(w, Some(content)), sentNow := s.sentNow + {w}), AnswerOk, Idle)
      case CannotOpen => GiveReply(s', AnswerError, Closed(false))
      case Partly(stored) =>
        GiveReply(s'.(copy := s.copy.With(w, Some(stored)), failed := true), AnswerError, Closed(true))
  }

  function BackedUp(s: Sys, w: Which, copying: Copying): Files {
    match copying
    case Whole => s.backup.With(w, s.local.At(w))
    case Refused => s.backup
    case Short(kept) => s.backup.With(w, Some(kept))
  }

  function Do(s: Sys, a: Step): Sys
    requires Enabled(s, a)
  {
    match a
    case NewRun(hasId, command, local) =>
      Sys(hasId, command, local, s.backup, s.copy, Decide(Solv), Idle, [], [], {}, [], 0, 0, false, false)
    case Look(agree) => LookAt(s, s.client.w, agree)
    case TakeReply => Take(s, if s.replies[0] == AnswerOk then Backup(s.client.w) else Ended(NetworkingError))
    case Copy(copying) => s.(backup := BackedUp(s, s.client.w, copying), client := After(s.client.w))
    case Order(repoOk) =>
      if !IsGet(s.command) then s.(client := Ended(Success))
      else if !repoOk then s.(client := Ended(RepoError))
      else Issue(s, Get(s.command), AwaitRepo)
    case TakeRepo => Take(s, AwaitAnswer)
    case TakeAnswer => Take(s, Ended(Answered(s.replies[0])))
    case Serve(storing) => ServeFirst(s, storing)
    case Solve(found) => GiveReply(s, if found then AnswerOk else AnswerNoDep, Closed(true))
    case Hang => s.(server := Hanging)
    case Break(stored) =>
      s.(copy := s.copy.With(s.requests[0].w, Some(stored)), requests := [], server := Stranded, broken := true,
         client := Ended(NetworkingError))
  }

  ghost predicate Runs(s: Sys, steps: seq<Step>)
    decreases |steps|
  {
    steps == [] || (Enabled(s, steps[0]) && Runs(Do(s, steps[0]), steps[1..]))
  }

  function End(s: Sys, steps: seq<Step>): Sys
    requires Runs(s, steps)
    decreases |steps|
  {
    if steps == [] then s else End(Do(s, steps[0]), steps[1..])
  }

  /** Before the first run: no backup and no copy exists. */
  const BEGIN := Sys(false, NoOption, Files(None, None), Files(None, None), Files(None, None),
                     Ended(Success), Idle, [], [], {}, [], 0, 0, false, false)

  // ---------------------------------------------------------------- requests and replies

  /** Replies owed to a request. */
  function Owed(r: Request): nat {
    if r.Get? then 2 else 1
  }

  function OwedAll(rs: seq<Request>): nat {
    if rs == [] then 0 else OwedAll(rs[..|rs| - 1]) + Owed(rs[|rs| - 1])
  }

  predicate Only<T(==)>(xs: seq<T>, x: T) {
    |xs| == 1 && xs[0] == x
  }

  /** What may be in flight at each place of the client. */
  ghost predicate Channels(s: Sys) {
    match s.client
    case Await(w) =>
      s.local.At(w).Some? &&
      ((Only(s.requests, SendFile(w, s.local.At(w).value)) && |s.replies| == 0 &&
        (s.server == Idle || s.server == Hanging)) ||
       (|s.requests| == 0 && Only(s.replies, AnswerOk) && s.server == Idle) ||
       (|s.requests| == 0 && Only(s.replies, AnswerError) && s.server.Closed?))
    case AwaitRepo =>
      (Only(s.requests, Get(s.command)) && |s.replies| == 0 && s.server == Idle) ||
      (|s.requests| == 0 && Only(s.replies, AnswerOk) && s.server == Solving) ||
      (|s.requests| == 0 && |s.replies| == 2 && s.replies[0] == AnswerOk && s.server == Closed(true))
    case AwaitAnswer =>
      |s.requests| == 0 &&
      ((|s.replies| == 0 && s.server == Solving) || (|s.replies| == 1 && s.server == Closed(true)))
    case Ended(status) =>
      |s.requests| == 0 && |s.replies| == 0 && s.server != Solving && s.server != Hanging &&
      (s.server.Closed? <==> status.Answered? || (status == NetworkingError && !s.broken))
    case Backup(w) => s.local.At(w).Some? && |s.requests| == 0 && |s.replies| == 0 && s.server == Idle
    case _ => |s.requests| == 0 && |s.replies| == 0 && s.server == Idle
  }

  /** The replies still to be written. */
  function Pending(s: Sys): nat {
    (if s.requests == [] then 0 else Owed(s.requests[0])) + (if s.server == Solving then 1 else 0)
  }

  predicate LastIsGet(rs: seq<Request>) {
    rs != [] && rs[|rs| - 1].Get?
  }

  /** The channels, the accounts and `client_end`. */
  ghost predicate Matched(s: Sys) {
    Channels(s) &&
    s.given == s.taken + |s.replies| &&
    OwedAll(s.issued) == s.given + Pending(s) + (if s.broken then 1 else 0) &&
    (s.broken ==> s.client.Ended?) && (s.broken <==> s.server == Stranded) &&
    (s.server == Closed(true) <==> s.failed || (LastIsGet(s.issued) && s.given == OwedAll(s.issued))) &&
    (LastIsGet(s.issued) && !s.client.Ended? <==> s.client.AwaitRepo? || s.client.AwaitAnswer?)
  }

  lemma OwedOne(s: Sys, r: Request, client: Client)
    requires s.requests == []
    ensures var s' := Issue(s, r, client);
            s'.requests == [r] && OwedAll(s'.issued) == OwedAll(s.issued) + Owed(r) &&
            (LastIsGet(s'.issued) <==> r.Get?)
  {
    assert (s.issued + [r])[..|s.issued|] == s.issued;
  }

  lemma MatchedLook(s: Sys, agree: bool)
    requires Matched(s) && Enabled(s, Look(agree))
    ensures Matched(Do(s, Look(agree)))
  {
    var w := s.client.w;
    if MustSend(s, w) && s.local.At(w).Some? {
      OwedOne(s, SendFile(w, s.local.At(w).value), Await(w));
    }
  }

  lemma MatchedOrder(s: Sys, repoOk: bool)
    requires Matched(s) && Enabled(s, Order(repoOk))
    ensures Matched(Do(s, Order(repoOk)))
  {
    if IsGet(s.command) && repoOk {
      OwedOne(s, Get(s.command), AwaitRepo);
      assert Only(Do(s, Order(repoOk)).requests, Get(s.command));
    }
  }

  lemma MatchedTake(s: Sys, a: Step)
    requires Matched(s) && Enabled(s, a) && (a.TakeReply? || a.TakeRepo? || a.TakeAnswer?)
    ensures Matched(Do(s, a))
  {
  }

  lemma MatchedServe(s: Sys, storing: Storing)
    requires Matched(s) && Enabled(s, Serve(storing))
    ensures Matched(Do(s, Serve(storing)))
  {
  }

  lemma MatchedServer(s: Sys, a: Step)
    requires Matched(s) && Enabled(s, a) && (a.Solve? || a.Hang? || a.Break?)
    ensures Matched(Do(s, a))
  {
  }

  lemma MatchedStep(s: Sys, a: Step)
    requires Matched(s) && Enabled(s, a)
    ensures Matched(Do(s, a))
  {
    match a {
      case Look(agree) => MatchedLook(s, agree);
      case Order(repoOk) => MatchedOrder(s, repoOk);
      case TakeReply => MatchedTake(s, a);
      case TakeRepo => MatchedTake(s, a);
      case TakeAnswer => MatchedTake(s, a);
      case Serve(storing) => MatchedServe(s, storing);
      case Solve(_) => MatchedServer(s, a);
      case Hang => MatchedServer(s, a);
      case Break(_) => MatchedServer(s, a);
      case NewRun(_, _, _) =>
      case Copy(_) =>
    }
  }

  lemma {:induction false} MatchedRun(s: Sys, steps: seq<Step>)
    requires Matched(s) && Runs(s, steps)
    ensures Matched(End(s, steps))
    decreases |steps|
  {
    if steps != [] {
      MatchedStep(s, steps[0]);
      MatchedRun(Do(s, steps[0]), steps[1..]);
    }
  }

  /** Whenever the client is about to issue a request, and whenever it has ended without a broken
      transfer, both channels are empty and every request so far got exactly what it is owed: one reply
      for a file, two for a GET request, all of them read. `client_end` is set exactly when the second
      reply to a GET request was written or the server failed to write a file. */
  lemma SessionMatching(steps: seq<Step>)
    requires Runs(BEGIN, steps)
    ensures var s := End(BEGIN, steps);
            (s.client.Decide? || s.client.Switch? || s.client.Ended? ==> s.requests == [] && s.replies == []) &&
            (s.client.Decide? || s.client.Switch? ==> s.server == Idle && s.given == s.taken == OwedAll(s.issued)) &&
            (s.client.Ended? && !s.broken ==> s.given == s.taken == OwedAll(s.issued)) &&
            (s.server == Closed(true) <==> s.failed || (LastIsGet(s.issued) && s.given == OwedAll(s.issued)))
  {
    MatchedRun(BEGIN, steps);
  }

  /** Which runs let the server leave its loop: those that end with an answer, and those in which it
      rejected a file. After any other end it reads on from a connection nobody writes to. */
  lemma ServerLeavesIff(steps: seq<Step>)
    requires Runs(BEGIN, steps) && End(BEGIN, steps).client.Ended?
    ensures var s := End(BEGIN, steps);
            s.server.Closed? <==>
              s.client.status.Answered? || (s.client.status == NetworkingError && !s.broken)
  {
    MatchedRun(BEGIN, steps);
  }

  /** At most this many steps are left in the run. */
  function Rest(s: Sys): nat {
    match s.client
    case Decide(w) => if w == Solv then 13 else 9
    case Await(w) => (if w == Solv then 11 else 7) + (if s.requests != [] && s.server == Idle then 1 else 0)
    case Backup(w) => if w == Solv then 10 else 6
    case Switch => 5
    case AwaitRepo => 2 + 2 * |s.requests| + (if s.server == Solving then 1 else 0)
    case AwaitAnswer => 1 + (if s.server == Solving then 1 else 0)
    case Ended(_) => 0
  }

  lemma ServerNears(s: Sys, a: Step)
    requires Matched(s) && Enabled(s, a) && (a.Serve? || a.Solve? || a.Hang? || a.Break?)
    ensures Rest(Do(s, a)) < Rest(s)
  {
  }

  lemma StepNears(s: Sys, a: Step)
    requires Matched(s) && Enabled(s, a) && !a.NewRun?
    ensures Rest(Do(s, a)) < Rest(s)
  {
    if a.Serve? || a.Solve? || a.Hang? || a.Break? {
      ServerNears(s, a);
    }
  }

  /** Every run of the client has at most 13 steps; whether it ends or waits for ever is told below. */
  lemma {:induction false} RunEnds(s: Sys, steps: seq<Step>)
    requires Matched(s) && Runs(s, steps) && OneRun(steps)
    ensures |steps| + Rest(End(s, steps)) <= Rest(s) <= 13
    decreases |steps|
  {
    if steps != [] {
      StepNears(s, steps[0]);
      MatchedStep(s, steps[0]);
      RunEnds(Do(s, steps[0]), steps[1..]);
    }
  }

  /** Steps of one run of the client. */
  predicate OneRun(steps: seq<Step>) {
    forall i :: 0 <= i < |steps| ==> !steps[i].NewRun?
  }

  // ---------------------------------------------------------------- runs that wait for ever

  /** The client has not ended, and nothing but a broken connection goes on. */
  ghost predicate Stuck(s: Sys) {
    !s.client.Ended? && forall a: Step :: Enabled(s, a) ==> a.Break?
  }

  lemma NextStep(s: Sys) returns (a: Step)
    requires Matched(s) && !s.client.Ended? && s.server != Hanging
    ensures Enabled(s, a) && !a.NewRun? && !a.Break?
  {
    a :=
      if s.client.Decide? then Look(true)
      else if s.client.Backup? then Copy(Whole)
      else if s.client.Switch? then Order(true)
      else if s.requests != [] then Serve(if s.requests[0].SendFile? then CannotOpen else Stored)
      else if s.replies == [] then Solve(true)
      else if s.client.Await? then TakeReply
      else if s.client.AwaitRepo? then TakeRepo
      else TakeAnswer;
  }

  /** In every reachable state whose client has not ended, client and server wait for each other if and only
      if the transfer under way hangs. */
  lemma StuckIff(steps: seq<Step>)
    requires Runs(BEGIN, steps)
    ensures Stuck(End(BEGIN, steps)) <==> End(BEGIN, steps).server == Hanging
  {
    MatchedRun(BEGIN, steps);
    var s := End(BEGIN, steps);
    if s.server == Hanging {
      HangingSticks(s);
    } else if !s.client.Ended? {
      var a := NextStep(s);
    }
  }

  /** The file of a client about to start is sent if the user agrees, unless the run ends before. */
  predicate HasToSend(s: Sys, w: Which) {
    MustSend(s, w) && s.local.At(w).Some? && (w == Yum && MustSend(s, Solv) ==> s.local.solv.Some?)
  }

  /** A state of the run that began in `s0`. */
  ghost predicate OnTheWay(s0: Sys, s: Sys) {
    s.hasId == s0.hasId && s.local == s0.local &&
    match s.client
    case Decide(Solv) => s.backup == s0.backup
    case Decide(Yum) => s.backup.yum == s0.backup.yum && (MustSend(s0, Solv) ==> s0.local.solv.Some?)
    case Await(w) => HasToSend(s0, w) && (w == Solv ==> s.backup.yum == s0.backup.yum)
    case Backup(w) => HasToSend(s0, w) && (w == Solv ==> s.backup.yum == s0.backup.yum)
    case _ => true
  }

  lemma OnTheWayFile(s0: Sys, s: Sys, a: Step)
    requires Channels(s) && OnTheWay(s0, s) && Enabled(s, a) && (a.Look? || a.TakeReply? || a.Copy?)
    ensures OnTheWay(s0, Do(s, a))
  {
  }

  lemma OnTheWayServer(s0: Sys, s: Sys, a: Step)
    requires Channels(s) && OnTheWay(s0, s) && Enabled(s, a) && (a.Serve? || a.Solve? || a.Hang? || a.Break?)
    ensures OnTheWay(s0, Do(s, a))
  {
  }

  lemma OnTheWayStep(s0: Sys, s: Sys, a: Step)
    requires Channels(s) && OnTheWay(s0, s) && Enabled(s, a) && !a.NewRun?
    ensures OnTheWay(s0, Do(s, a))
  {
    if a.Look? || a.TakeReply? || a.Copy? {
      OnTheWayFile(s0, s, a);
    } else if a.Serve? || a.Solve? || a.Hang? || a.Break? {
      OnTheWayServer(s0, s, a);
    }
  }

  lemma {:induction false} OnTheWayRun(s0: Sys, s: Sys, steps: seq<Step>)
    requires Matched(s) && OnTheWay(s0, s) && Runs(s, steps) && OneRun(steps)
    ensures OnTheWay(s0, End(s, steps))
    decreases |steps|
  {
    if steps != [] {
      OnTheWayStep(s0, s, steps[0]);
      MatchedStep(s, steps[0]);
      OnTheWayRun(s0, Do(s, steps[0]), steps[1..]);
    }
  }

  /** A hanging transfer is one of a file that can hang. */
  ghost predicate HangsRightly(s: Sys) {
    s.server == Hanging ==> Sending(s) && Transfer.CanHang(s.requests[0].content)
  }

  lemma {:induction false} HangsRightlyRun(s: Sys, steps: seq<Step>)
    requires Matched(s) && HangsRightly(s) && Runs(s, steps)
    ensures HangsRightly(End(s, steps))
    decreases |steps|
  {
    if steps != [] {
      MatchedStep(s, steps[0]);
      HangsRightlyRun(Do(s, steps[0]), steps[1..]);
    }
  }

  /** Some course of the run of a client leaves it waiting for ever. */
  ghost predicate CanStick(s: Sys) {
    exists steps :: Runs(s, steps) && OneRun(steps) && Stuck(End(s, steps))
  }

  predicate HangingLength(f: Option<string>) {
    f.Some? && (|f.value| == 0 || |f.value| >= 2000)
  }

  /** A client that starts can get stuck if and only if one of the files it has to send is empty or has at
      least 2000 bytes. */
  lemma CanStickIff(s: Sys)
    requires Matched(s) && s.client == Decide(Solv)
    ensures CanStick(s) <==>
      exists w :: HasToSend(s, w) && (|s.local.At(w).value| == 0 || |s.local.At(w).value| >= 2000)
  {
    if CanStick(s) {
      var steps :| Runs(s, steps) && OneRun(steps) && Stuck(End(s, steps));
      var w := StuckFile(s, steps);
    }
    assert Runs(s, []) && OneRun([]) && End(s, []) == s && Leads(s, s);
    if HasToSend(s, Solv) && HangingLength(s.local.solv) {
      StickAt(s, s);
    } else if HasToSend(s, Yum) && HangingLength(s.local.yum) {
      var s' := PassSolv(s);
      StickAt(s, s');
    }
  }

  lemma StuckFile(s: Sys, steps: seq<Step>) returns (w: Which)
    requires Matched(s) && s.client == Decide(Solv) && Runs(s, steps) && OneRun(steps) && Stuck(End(s, steps))
    ensures HasToSend(s, w) && HangingLength(s.local.At(w))
  {
    var end := End(s, steps);
    MatchedRun(s, steps);
    OnTheWayRun(s, s, steps);
    HangsRightlyRun(s, steps);
    if end.server != Hanging {
      var a := NextStep(end);
    }
    w := end.client.w;
    Transfer.HangIff(end.requests[0].content);
  }

  /** Some steps of one run lead from one state to the other. */
  ghost predicate Leads(s0: Sys, s: Sys) {
    exists steps :: Runs(s0, steps) && OneRun(steps) && End(s0, steps) == s
  }

  /** One more step of the same run. */
  lemma Onward(s0: Sys, s: Sys, a: Step) returns (s': Sys)
    requires Leads(s0, s) && Matched(s) && Enabled(s, a) && !a.NewRun?
    ensures s' == Do(s, a) && Leads(s0, s') && Matched(s')
  {
    s' := Do(s, a);
    var steps :| Runs(s0, steps) && OneRun(steps) && End(s0, steps) == s;
    RunsSnoc(s0, steps, a);
    assert OneRun(steps + [a]);
    MatchedStep(s, a);
  }

  /** The client looks at a file that it has to send and can. */
  lemma SendAt(s0: Sys, s: Sys, w: Which, content: string) returns (s': Sys)
    requires Leads(s0, s) && Matched(s) && s.client == Decide(w)
    requires MustSend(s, w) && s.local.At(w) == Some(content)
    ensures Leads(s0, s') && Matched(s') && s' == Issue(s, SendFile(w, content), Await(w))
    ensures s'.requests == [SendFile(w, content)] && s'.replies == [] && s'.server == Idle
  {
    s' := Onward(s0, s, Look(true));
  }

  /** From the point where the client looks at a file that hangs. */
  lemma StickAt(s0: Sys, s: Sys)
    requires Leads(s0, s) && Matched(s) && s.client.Decide?
    requires MustSend(s, s.client.w) && HangingLength(s.local.At(s.client.w))
    ensures CanStick(s0)
  {
    var content := s.local.At(s.client.w).value;
    Transfer.HangIff(content);
    var s1 := SendAt(s0, s, s.client.w, content);
    var s2 := Onward(s0, s1, Hang);
    HangingSticks(s2);
    StuckLeads(s0, s2);
  }

  lemma HangingSticks(s: Sys)
    requires Matched(s) && s.server == Hanging
    ensures Stuck(s)
  {
  }

  lemma StuckLeads(s0: Sys, s: Sys)
    requires Leads(s0, s) && Stuck(s)
    ensures CanStick(s0)
  {
    var steps :| Runs(s0, steps) && OneRun(steps) && End(s0, steps) == s;
  }

  predicate Transferable(f: Option<string>) {
    f.Some? && f.value != ""
  }

  /** The client comes to its second file, with the first one sent if it has to be. */
  lemma PassSolv(s: Sys) returns (s': Sys)
    requires Leads(s, s) && Matched(s) && s.client == Decide(Solv) && (MustSend(s, Solv) ==> Transferable(s.local.solv))
    ensures Leads(s, s') && Matched(s') && s'.client == Decide(Yum)
    ensures s'.hasId == s.hasId && s'.local == s.local && s'.backup.yum == s.backup.yum
  {
    if MustSend(s, Solv) {
      var content := s.local.solv.value;
      Transfer.CanFinishIff(content);
      var s1 := SendAt(s, s, Solv, content);
      var s2 := Onward(s, s1, Serve(Stored));
      assert s2.replies == [AnswerOk] && s2.client == Await(Solv);
      var s3 := Onward(s, s2, TakeReply);
      s' := Onward(s, s3, Copy(Whole));
    } else {
      s' := Onward(s, s, Look(true));
    }
  }

  // ---------------------------------------------------------------- how a run ends

  /** A client that has just started, with a server that waits for it. */
  predicate Starting(s: Sys) {
    s == Sys(s.hasId, s.command, s.local, s.backup, s.copy, Decide(Solv), Idle, [], [], {}, [], 0, 0, false, false)
  }

  lemma NewRunStarts(s: Sys, a: Step)
    requires a.NewRun? && Enabled(s, a)
    ensures Starting(Do(s, a)) && Matched(Do(s, a))
    ensures var s' := Do(s, a);
            s'.hasId == a.hasId && s'.command == a.command && s'.local == a.local && s'.backup == s.backup &&
            s'.copy == s.copy
  {
  }

  /** The status a run ends with, told by its steps: what the last of them that matters decides, unless the
      run goes on. */
  function Judge(hasId: bool, command: Command, a: Step, v: Option<Status>): Option<Status> {
    match a
    case Look(agree) => Some(if hasId && !agree then Success else FileError)
    case Order(repoOk) =>
      if command == CheckDep || command == NoOption then Some(Success) else if repoOk then v else Some(RepoError)
    case Serve(Stored) => v
    case Serve(_) => Some(NetworkingError)
    case Break(_) => Some(NetworkingError)
    case Solve(found) => Some(Answered(if found then AnswerOk else AnswerNoDep))
    case _ => v
  }

  function Verdict(hasId: bool, command: Command, steps: seq<Step>, v: Option<Status>): Option<Status>
    decreases |steps|
  {
    if steps == [] then v else Verdict(hasId, command, steps[1..], Judge(hasId, command, steps[0], v))
  }

  /** What is decided before the client has ended. */
  ghost predicate Judged(s: Sys, v: Option<Status>) {
    match s.client
    case Await(_) => |s.replies| > 0 && s.replies[0] == AnswerError ==> v == Some(NetworkingError)
    case AwaitRepo => |s.replies| == 2 ==> v == Some(Answered(s.replies[1]))
    case AwaitAnswer => |s.replies| == 1 ==> v == Some(Answered(s.replies[0]))
    case Ended(status) => v == Some(status)
    case _ => true
  }

  lemma JudgedStep(s: Sys, a: Step, v: Option<Status>)
    requires Matched(s) && Judged(s, v) && Enabled(s, a) && !a.NewRun?
    ensures Judged(Do(s, a), Judge(s.hasId, s.command, a, v))
    ensures Do(s, a).hasId == s.hasId && Do(s, a).command == s.command
  {
  }

  lemma {:induction false} JudgedRun(s: Sys, steps: seq<Step>, v: Option<Status>)
    requires Matched(s) && Judged(s, v) && Runs(s, steps) && OneRun(steps)
    ensures Judged(End(s, steps), Verdict(s.hasId, s.command, steps, v))
    decreases |steps|
  {
    if steps != [] {
      var a, rest := steps[0], steps[1..];
      JudgedStep(s, a, v);
      MatchedStep(s, a);
      var s', v' := Do(s, a), Judge(s.hasId, s.command, a, v);
      JudgedRun(s', rest, v');
      assert End(s, steps) == End(s', rest);
    }
  }

  /** Every run that ends does so with the status its steps decide. */
  lemma RunVerdict(s: Sys, steps: seq<Step>)
    requires Starting(s) && Runs(s, steps) && OneRun(steps) && End(s, steps).client.Ended?
    ensures Some(End(s, steps).client.status) == Verdict(s.hasId, s.command, steps, None)
  {
    JudgedRun(s, steps, None);
  }

  /** The last solving of dependencies among the steps, and whether it succeeded. */
  function LastSolve(steps: seq<Step>): Option<bool> {
    if steps == [] then None
    else
      var last := steps[|steps| - 1];
      if last.Solve? then Some(last.found) else LastSolve(steps[..|steps| - 1])
  }

  lemma {:induction false} LastSolveFirst(a: Step, rest: seq<Step>)
    ensures LastSolve([a] + rest) ==
      if LastSolve(rest).Some? then LastSolve(rest) else if a.Solve? then Some(a.found) else None
  {
    if rest == [] {
      assert [a] + rest == [a] && [a][..0] == [];
    } else {
      var n := |rest| - 1;
      assert ([a] + rest)[..n + 1] == [a] + rest[..n];
      LastSolveFirst(a, rest[..n]);
    }
  }

  lemma {:induction false} VerdictOfSolve(hasId: bool, command: Command, steps: seq<Step>, v: Option<Status>,
                                          rc: Answer)
    requires Verdict(hasId, command, steps, v) == Some(Answered(rc))
    ensures match LastSolve(steps)
            case Some(found) => rc == if found then AnswerOk else AnswerNoDep
            case None => v == Some(Answered(rc))
    decreases |steps|
  {
    if steps != [] {
      VerdictOfSolve(hasId, command, steps[1..], Judge(hasId, command, steps[0], v), rc);
      LastSolveFirst(steps[0], steps[1..]);
      assert [steps[0]] + steps[1..] == steps;
    }
  }

  /** A run that ends with an answer ends with the one of its last solving: OK if that succeeded, and no
      dependencies otherwise. */
  lemma AnswerIsOfSolve(s: Sys, steps: seq<Step>)
    requires Starting(s) && Runs(s, steps) && OneRun(steps)
    requires End(s, steps).client.Ended? && End(s, steps).client.status.Answered?
    ensures LastSolve(steps).Some?
    ensures End(s, steps).client.status.rc == if LastSolve(steps).value then AnswerOk else AnswerNoDep
  {
    RunVerdict(s, steps);
    VerdictOfSolve(s.hasId, s.command, steps, None, End(s, steps).client.status.rc);
  }

  /** The first reply to a GET request is always OK. */
  lemma FirstReplyIsOk(steps: seq<Step>)
    requires Runs(BEGIN, steps) && End(BEGIN, steps).client.AwaitRepo? && End(BEGIN, steps).replies != []
    ensures End(BEGIN, steps).replies[0] == AnswerOk
  {
    MatchedRun(BEGIN, steps);
  }

  /** How the server has left its loop, told by the steps: a file that could not be opened is the only reason
      besides `client_end`. */
  function Closing(a: Step, c: Option<bool>): Option<bool> {
    match a
    case Serve(CannotOpen) => Some(false)
    case Serve(Partly(_)) => Some(true)
    case Solve(_) => Some(true)
    case _ => c
  }

  function ClosedBy(steps: seq<Step>, c: Option<bool>): Option<bool>
    decreases |steps|
  {
    if steps == [] then c else ClosedBy(steps[1..], Closing(steps[0], c))
  }

  ghost predicate ClosedAs(s: Sys, c: Option<bool>) {
    match s.server
    case Closed(b) => c == Some(b)
    case _ => c == None
  }

  lemma ClosedStep(s: Sys, a: Step, c: Option<bool>)
    requires Matched(s) && ClosedAs(s, c) && Enabled(s, a) && !a.NewRun?
    ensures ClosedAs(Do(s, a), Closing(a, c))
  {
  }

  lemma {:induction false} ClosedRun(s: Sys, steps: seq<Step>, c: Option<bool>)
    requires Matched(s) && ClosedAs(s, c) && Runs(s, steps) && OneRun(steps)
    ensures ClosedAs(End(s, steps), ClosedBy(steps, c))
    decreases |steps|
  {
    if steps != [] {
      ClosedStep(s, steps[0], c);
      MatchedStep(s, steps[0]);
      ClosedRun(Do(s, steps[0]), steps[1..], Closing(steps[0], c));
    }
  }

  /** In every run `client_end` is set exactly after the second reply to a GET request or a file that could not
      be written, and the status ends the loop exactly after a file that could not be opened. */
  lemma RunCloses(s: Sys, steps: seq<Step>, clientEnd: bool)
    requires Starting(s) && Runs(s, steps) && OneRun(steps)
    ensures End(s, steps).server == Closed(clientEnd) <==> ClosedBy(steps, None) == Some(clientEnd)
  {
    ClosedRun(s, steps, None);
  }

  // ---------------------------------------------------------------- what a run asks for

  /** The request for a file, if the client that starts has to send it. */
  function FileRequest(s: Sys, w: Which): seq<Request> {
    if MustSend(s, w) && s.local.At(w).Some? then [SendFile(w, s.local.At(w).value)] else []
  }

  /** The requests issued when the client has come to a place, in their order. */
  function IssuedAt(s0: Sys, c: Client): seq<Request>
    requires !c.Ended?
  {
    var solv, both := FileRequest(s0, Solv), FileRequest(s0, Solv) + FileRequest(s0, Yum);
    match c
    case Decide(w) => if w == Solv then [] else solv
    case Await(w) => if w == Solv then solv else both
    case Backup(w) => if w == Solv then solv else both
    case Switch => both
    case _ => both + [Get(s0.command)]
  }

  ghost predicate Issued(s0: Sys, s: Sys) {
    s.command == s0.command && OnTheWay(s0, s) &&
    (!s.client.Ended? ==> s.issued == IssuedAt(s0, s.client)) &&
    (s.client.Switch? || GetSent(s) ==> AllPresent(s0)) && (GetSent(s) ==> IsGet(s0.command))
  }

  /** No file that has to be sent is missing. */
  predicate AllPresent(s: Sys) {
    (MustSend(s, Solv) ==> s.local.solv.Some?) && (MustSend(s, Yum) ==> s.local.yum.Some?)
  }

  lemma IssuedLook(s0: Sys, s: Sys, agree: bool)
    requires Channels(s) && Issued(s0, s) && Enabled(s, Look(agree))
    ensures Issued(s0, Do(s, Look(agree)))
  {
    OnTheWayStep(s0, s, Look(agree));
    var w := s.client.w;
    assert MustSend(s, w) == MustSend(s0, w);
    assert [] + FileRequest(s0, w) == FileRequest(s0, w) && s.issued + [] == s.issued;
  }

  lemma IssuedOrder(s0: Sys, s: Sys, repoOk: bool)
    requires Channels(s) && Issued(s0, s) && Enabled(s, Order(repoOk))
    ensures Issued(s0, Do(s, Order(repoOk)))
  {
    OnTheWayStep(s0, s, Order(repoOk));
  }

  lemma IssuedCopy(s0: Sys, s: Sys, copying: Copying)
    requires Channels(s) && Issued(s0, s) && Enabled(s, Copy(copying))
    ensures Issued(s0, Do(s, Copy(copying)))
  {
    OnTheWayStep(s0, s, Copy(copying));
  }

  /** Steps between two requests. */
  predicate Waiting(a: Step) {
    !a.NewRun? && !a.Look? && !a.Order? && !a.Copy?
  }

  lemma SamePlaceServer(s0: Sys, s: Sys, a: Step)
    requires Channels(s) && Enabled(s, a) && (a.Serve? || a.Solve? || a.Hang? || a.Break?)
    ensures var c, c' := s.client, Do(s, a).client; c' == c || c'.Ended?
    ensures Do(s, a).issued == s.issued && !Do(s, a).client.Switch?
  {
  }

  lemma SamePlaceClient(s0: Sys, s: Sys, a: Step)
    requires Channels(s) && Enabled(s, a) && (a.TakeReply? || a.TakeRepo? || a.TakeAnswer?)
    ensures var c, c' := s.client, Do(s, a).client; c'.Ended? || (!c.Ended? && IssuedAt(s0, c') == IssuedAt(s0, c))
    ensures Do(s, a).issued == s.issued && !Do(s, a).client.Switch?
    ensures GetSent(Do(s, a)) ==> GetSent(s)
  {
  }

  lemma IssuedWait(s0: Sys, s: Sys, a: Step)
    requires Channels(s) && Issued(s0, s) && Enabled(s, a) && Waiting(a)
    ensures Issued(s0, Do(s, a))
  {
    OnTheWayStep(s0, s, a);
    if a.TakeReply? || a.TakeRepo? || a.TakeAnswer? {
      SamePlaceClient(s0, s, a);
    } else {
      SamePlaceServer(s0, s, a);
    }
  }

  lemma IssuedStep(s0: Sys, s: Sys, a: Step)
    requires Matched(s) && Issued(s0, s) && Enabled(s, a) && !a.NewRun?
    ensures Issued(s0, Do(s, a))
  {
    match a {
      case Look(agree) => IssuedLook(s0, s, agree);
      case Order(repoOk) => IssuedOrder(s0, s, repoOk);
      case Copy(copying) => IssuedCopy(s0, s, copying);
      case _ => IssuedWait(s0, s, a);
    }
  }

  lemma {:induction false} IssuedRun(s0: Sys, s: Sys, steps: seq<Step>)
    requires Matched(s) && Issued(s0, s) && Runs(s, steps) && OneRun(steps)
    ensures Issued(s0, End(s, steps))
    decreases |steps|
  {
    if steps != [] {
      IssuedStep(s0, s, steps[0]);
      MatchedStep(s, steps[0]);
      IssuedRun(s0, Do(s, steps[0]), steps[1..]);
    }
  }

  /** What a run has asked for when its GET request is under way: first `@System.solv`, then `yum.conf`, each if
      and only if there is no client id or the file differs from its backup, then the command. */
  lemma RunIssues(s: Sys, steps: seq<Step>)
    requires Starting(s) && Runs(s, steps) && OneRun(steps) && GetSent(End(s, steps))
    ensures var sendSolv, sendYum := !s.hasId || !Same(s.local.solv, s.backup.solv),
                                     !s.hasId || !Same(s.local.yum, s.backup.yum);
            (sendSolv ==> s.local.solv.Some?) && (sendYum ==> s.local.yum.Some?) &&
            End(s, steps).issued == (if sendSolv then [SendFile(Solv, s.local.solv.value)] else []) +
                                    (if sendYum then [SendFile(Yum, s.local.yum.value)] else []) + [Get(s.command)]
    ensures s.command == Install || s.command == Update || s.command == Erase || s.command == UpdateAll
  {
    IssuedRun(s, s, steps);
  }

  // ---------------------------------------------------------------- backups and copies

  /** No transfer is cut off, none stops early on the server, and every backup copy succeeds. */
  predicate Faultless(a: Step) {
    !a.Break? && (a.Copy? ==> a.copying == Whole) && !(a.Serve? && a.storing.Partly?)
  }

  /** A backup that exists is the server's copy. */
  predicate Mirrors(s: Sys, w: Which) {
    s.backup.At(w).None? || s.backup.At(w) == s.copy.At(w)
  }

  /** The client has dealt with the file in this run. */
  predicate Past(c: Client, w: Which) {
    c.Switch? || c.AwaitRepo? || c.AwaitAnswer? || (w == Solv && !c.Ended? && c.w == Yum)
  }

  /** Between the server's acceptance of a file and the end of its backup copy. */
  predicate BackupDue(s: Sys, w: Which) {
    s.client == Backup(w) || (s.client == Await(w) && Only(s.replies, AnswerOk))
  }

  /** What holds of a file at every place, faults or not. */
  ghost predicate Handled(s: Sys, w: Which) {
    (w in s.sentNow ==> Transferable(s.local.At(w)) && s.copy.At(w) == s.local.At(w)) &&
    (BackupDue(s, w) ==> w in s.sentNow) &&
    (!s.client.Ended? && !Past(s.client, w) && !BackupDue(s, w) ==> w !in s.sentNow) &&
    (Past(s.client, w) && w !in s.sentNow ==> Same(s.local.At(w), s.backup.At(w)))
  }

  lemma HandledServe(s: Sys, storing: Storing, w: Which)
    requires Matched(s) && Enabled(s, Serve(storing)) && Handled(s, w)
    ensures Handled(Do(s, Serve(storing)), w)
  {
    if storing == Stored && s.requests[0].SendFile? {
      Transfer.CanFinishIff(s.requests[0].content);
    }
  }

  lemma HandledServer(s: Sys, a: Step, w: Which)
    requires Matched(s) && Enabled(s, a) && Handled(s, w) && (a.Solve? || a.Hang? || a.Break?)
    ensures Handled(Do(s, a), w)
  {
  }

  lemma HandledFile(s: Sys, a: Step, w: Which)
    requires Matched(s) && Enabled(s, a) && Handled(s, w) && (a.Look? || a.TakeReply? || a.Copy?)
    ensures Handled(Do(s, a), w)
  {
  }

  lemma HandledStep(s: Sys, a: Step, w: Which)
    requires Matched(s) && Enabled(s, a) && Handled(s, w)
    ensures Handled(Do(s, a), w)
  {
    match a {
      case Serve(storing) => HandledServe(s, storing, w);
      case Solve(_) => HandledServer(s, a, w);
      case Hang => HandledServer(s, a, w);
      case Break(_) => HandledServer(s, a, w);
      case Look(_) => HandledFile(s, a, w);
      case TakeReply => HandledFile(s, a, w);
      case Copy(_) => HandledFile(s, a, w);
      case _ =>
    }
  }

  /** A file that the server accepted in this run is not empty: an empty one that is sent either hangs or is
      rejected. */
  lemma AcceptedNotEmpty(steps: seq<Step>, w: Which)
    requires Runs(BEGIN, steps) && w in End(BEGIN, steps).sentNow
    ensures Transferable(End(BEGIN, steps).local.At(w))
  {
    HandledRun(BEGIN, steps, w);
  }

  lemma MirrorServer(s: Sys, a: Step, w: Which)
    requires Matched(s) && Enabled(s, a) && Handled(s, w) && Faultless(a) && (a.Serve? || a.Solve? || a.Hang?)
    requires Mirrors(s, w) || BackupDue(s, w)
    ensures var s' := Do(s, a); Mirrors(s', w) || BackupDue(s', w)
  {
  }

  lemma MirrorClient(s: Sys, a: Step, w: Which)
    requires Matched(s) && Enabled(s, a) && Handled(s, w) && Faultless(a) && !(a.Serve? || a.Solve? || a.Hang?)
    requires Mirrors(s, w) || BackupDue(s, w)
    ensures var s' := Do(s, a); Mirrors(s', w) || BackupDue(s', w)
  {
  }

  lemma MirrorStep(s: Sys, a: Step, w: Which)
    requires Matched(s) && Enabled(s, a) && Handled(s, w) && Faultless(a)
    requires Mirrors(s, w) || BackupDue(s, w)
    ensures var s' := Do(s, a); Mirrors(s', w) || BackupDue(s', w)
  {
    if a.Serve? || a.Solve? || a.Hang? {
      MirrorServer(s, a, w);
    } else {
      MirrorClient(s, a, w);
    }
  }

  lemma {:induction false} HandledRun(s: Sys, steps: seq<Step>, w: Which)
    requires Matched(s) && Handled(s, w) && Runs(s, steps)
    ensures Handled(End(s, steps), w)
    decreases |steps|
  {
    if steps != [] {
      MatchedStep(s, steps[0]);
      HandledStep(s, steps[0], w);
      HandledRun(Do(s, steps[0]), steps[1..], w);
    }
  }

  lemma {:induction false} MirrorRun(s: Sys, steps: seq<Step>, w: Which)
    requires Matched(s) && Handled(s, w) && Runs(s, steps)
    requires forall i :: 0 <= i < |steps| ==> Faultless(steps[i])
    requires Mirrors(s, w) || BackupDue(s, w)
    ensures var s' := End(s, steps); Mirrors(s', w) || BackupDue(s', w)
    decreases |steps|
  {
    if steps != [] {
      MatchedStep(s, steps[0]);
      HandledStep(s, steps[0], w);
      MirrorStep(s, steps[0], w);
      MirrorRun(Do(s, steps[0]), steps[1..], w);
    }
  }

  /** The client has sent a GET request and waits for its replies. */
  predicate GetSent(s: Sys) {
    s.client.AwaitRepo? || s.client.AwaitAnswer?
  }

  /** What the last transfer of the file left on the server, unless a whole backup copy was made since:
      told by the events alone. */
  function Settle(s: Sys, a: Step, w: Which, left: Option<string>): Option<string>
    requires Enabled(s, a)
  {
    match a
    case Serve(Stored) => if s.requests[0].SendFile? && s.requests[0].w == w then Some(s.requests[0].content) else left
    case Serve(Partly(stored)) => if s.requests[0].w == w then Some(stored) else left
    case Break(stored) => if s.requests[0].w == w then Some(stored) else left
    case Copy(Whole) => if s.client.w == w then None else left
    case _ => left
  }

  function Left(s: Sys, steps: seq<Step>, w: Which, left: Option<string>): Option<string>
    requires Runs(s, steps)
    decreases |steps|
  {
    if steps == [] then left else Left(Do(s, steps[0]), steps[1..], w, Settle(s, steps[0], w, left))
  }

  ghost predicate Settled(s: Sys, w: Which, left: Option<string>) {
    if left.None? then Mirrors(s, w) && !BackupDue(s, w) else s.copy.At(w) == left
  }

  lemma SettledServe(s: Sys, storing: Storing, w: Which, left: Option<string>)
    requires Matched(s) && Enabled(s, Serve(storing)) && Handled(s, w) && Settled(s, w, left)
    ensures Settled(Do(s, Serve(storing)), w, Settle(s, Serve(storing), w, left))
  {
  }

  lemma SettledServer(s: Sys, a: Step, w: Which, left: Option<string>)
    requires Matched(s) && Enabled(s, a) && Handled(s, w) && Settled(s, w, left)
    requires a.Solve? || a.Hang? || a.Break?
    ensures Settled(Do(s, a), w, Settle(s, a, w, left))
  {
  }

  lemma SettledStep(s: Sys, a: Step, w: Which, left: Option<string>)
    requires Matched(s) && Enabled(s, a) && Handled(s, w) && Settled(s, w, left)
    ensures Settled(Do(s, a), w, Settle(s, a, w, left))
  {
    if a.Serve? {
      SettledServe(s, a.storing, w, left);
    } else if a.Solve? || a.Hang? || a.Break? {
      SettledServer(s, a, w, left);
    }
  }

  lemma {:induction false} SettledRun(s: Sys, steps: seq<Step>, w: Which, left: Option<string>)
    requires Matched(s) && Handled(s, w) && Runs(s, steps) && Settled(s, w, left)
    ensures Settled(End(s, steps), w, Left(s, steps, w, left))
    decreases |steps|
  {
    if steps != [] {
      MatchedStep(s, steps[0]);
      HandledStep(s, steps[0], w);
      SettledStep(s, steps[0], w, left);
      SettledRun(Do(s, steps[0]), steps[1..], w, Settle(s, steps[0], w, left));
    }
  }

  /** Over any number of runs, with any faults: a backup is the server's copy as long as every transfer of
      the file was followed by a whole backup copy. */
  lemma MirrorsWhenSettled(steps: seq<Step>, w: Which)
    requires Runs(BEGIN, steps) && Left(BEGIN, steps, w, None).None?
    ensures Mirrors(End(BEGIN, steps), w)
  {
    SettledRun(BEGIN, steps, w, None);
  }

  /** Over any number of runs, with any faults: when a GET request is under way the server's copy agrees
      with the client's file if and only if the file was sent in this run, or the last transfer was followed
      by a whole backup copy, or what it left happens to agree. Agreement is up to the first byte 0xFF. */
  lemma GetAgreesIff(steps: seq<Step>, w: Which)
    requires Runs(BEGIN, steps) && GetSent(End(BEGIN, steps))
    ensures var s, left := End(BEGIN, steps), Left(BEGIN, steps, w, None);
            Same(s.local.At(w), s.copy.At(w)) <==> w in s.sentNow || left.None? || Same(s.local.At(w), left)
  {
    MatchedRun(BEGIN, steps);
    HandledRun(BEGIN, steps, w);
    SettledRun(BEGIN, steps, w, None);
  }

  /** The same for equality of the bytes: where every transfer was followed by a whole backup copy, the
      client can tell from its own two files. */
  lemma GetEqualsIff(steps: seq<Step>, w: Which)
    requires Runs(BEGIN, steps) && GetSent(End(BEGIN, steps))
    ensures var s, left := End(BEGIN, steps), Left(BEGIN, steps, w, None);
            s.copy.At(w) == s.local.At(w) <==>
              w in s.sentNow || (if left.None? then s.backup.At(w) else left) == s.local.At(w)
  {
    MatchedRun(BEGIN, steps);
    HandledRun(BEGIN, steps, w);
    SettledRun(BEGIN, steps, w, None);
  }

  /** Over any number of faultless runs, refusals and rejections included: between runs a backup that
      exists is the server's copy, and whenever a GET request is under way the server's copies agree with
      the client's files. */
  lemma BackupsMirror(steps: seq<Step>, w: Which)
    requires Runs(BEGIN, steps) && forall i :: 0 <= i < |steps| ==> Faultless(steps[i])
    ensures var s := End(BEGIN, steps);
            (s.client.Ended? ==> Mirrors(s, w)) &&
            (GetSent(s) ==> Mirrors(s, w) && Same(s.local.At(w), s.copy.At(w)))
  {
    MatchedRun(BEGIN, steps);
    HandledRun(BEGIN, steps, w);
    MirrorRun(BEGIN, steps, w);
  }

  // ---------------------------------------------------------------- where the contents come from

  /** The beginning of the file that some client had when it started. */
  ghost predicate FromClient(past: seq<Step>, w: Which, f: Option<string>) {
    f.Some? ==> exists i ::
      0 <= i < |past| && past[i].NewRun? && past[i].local.At(w).Some? && f.value <= past[i].local.At(w).value
  }

  /** The files of the running client, the server's copies and the backups. */
  ghost predicate AllFromClient(past: seq<Step>, s: Sys, w: Which) {
    FromClient(past, w, s.local.At(w)) && FromClient(past, w, s.copy.At(w)) && FromClient(past, w, s.backup.At(w))
  }

  lemma FromClientKept(past: seq<Step>, a: Step, w: Which, f: Option<string>)
    requires FromClient(past, w, f)
    ensures FromClient(past + [a], w, f)
  {
    if f.Some? {
      var i :| 0 <= i < |past| && past[i].NewRun? && past[i].local.At(w).Some? && f.value <= past[i].local.At(w).value;
      assert (past + [a])[i] == past[i];
    }
  }

  lemma FromClientPart(past: seq<Step>, w: Which, f: Option<string>, g: Option<string>)
    requires FromClient(past, w, f) && f.Some? && g.Some? && g.value <= f.value
    ensures FromClient(past, w, g)
  {
    var i :| 0 <= i < |past| && past[i].NewRun? && past[i].local.At(w).Some? && f.value <= past[i].local.At(w).value;
    assert g.value <= past[i].local.At(w).value;
  }

  /** Each of the three files after a step is what it was, or a beginning of the client's. */
  lemma StepTakes(s: Sys, a: Step, w: Which)
    requires Matched(s) && Enabled(s, a) && !a.NewRun?
    ensures var s', local := Do(s, a), s.local.At(w);
            s'.local == s.local &&
            (s'.copy.At(w) == s.copy.At(w) || Part(s'.copy.At(w), local)) &&
            (s'.backup.At(w) == s.backup.At(w) || Part(s'.backup.At(w), local))
  {
    if a.Serve? && a.storing.Partly? {
      Transfer.CanStoreIff(s.requests[0].content, a.storing.stored);
    } else if a.Break? {
      Transfer.CanStoreIff(s.requests[0].content, a.stored);
    }
  }

  predicate Part(f: Option<string>, whole: Option<string>) {
    f.Some? && whole.Some? && f.value <= whole.value
  }

  lemma FromClientStep(past: seq<Step>, s: Sys, a: Step, w: Which)
    requires Matched(s) && AllFromClient(past, s, w) && Enabled(s, a)
    ensures AllFromClient(past + [a], Do(s, a), w)
  {
    var s' := Do(s, a);
    FromClientKept(past, a, w, s.copy.At(w));
    FromClientKept(past, a, w, s.backup.At(w));
    if a.NewRun? {
      assert (past + [a])[|past|] == a;
    } else {
      FromClientKept(past, a, w, s.local.At(w));
      StepTakes(s, a, w);
      if s'.copy.At(w) != s.copy.At(w) {
        FromClientPart(past + [a], w, s.local.At(w), s'.copy.At(w));
      }
      if s'.backup.At(w) != s.backup.At(w) {
        FromClientPart(past + [a], w, s.local.At(w), s'.backup.At(w));
      }
    }
  }

  lemma {:induction false} FromClientRun(past: seq<Step>, s: Sys, steps: seq<Step>, w: Which)
    requires Matched(s) && AllFromClient(past, s, w) && Runs(s, steps)
    ensures AllFromClient(past + steps, End(s, steps), w)
    decreases |steps|
  {
    if steps == [] {
      assert past + steps == past;
    } else {
      FromClientStep(past, s, steps[0], w);
      MatchedStep(s, steps[0]);
      FromClientRun(past + [steps[0]], Do(s, steps[0]), steps[1..], w);
      assert past + [steps[0]] + steps[1..] == past + steps;
    }
  }

  /** Over any runs, with any faults: what the server holds of a file, and what the backup holds, is the
      beginning of that file as some client had it, and never of the other file. */
  lemma CopiesComeFromClients(steps: seq<Step>, w: Which)
    requires Runs(BEGIN, steps)
    ensures FromClient(steps, w, End(BEGIN, steps).copy.At(w)) && FromClient(steps, w, End(BEGIN, steps).backup.At(w))
  {
    FromClientRun([], BEGIN, steps, w);
    assert [] + steps == steps;
  }

  // ---------------------------------------------------------------- equality of the bytes

  predicate CleanFile(f: Option<string>) {
    f.Some? ==> Clean(f.value)
  }

  /** The files of every run are free of byte 0xFF. */
  predicate CleanStep(a: Step) {
    a.NewRun? ==> CleanFile(a.local.solv) && CleanFile(a.local.yum)
  }

  predicate AllClean(s: Sys, w: Which) {
    CleanFile(s.local.At(w)) && CleanFile(s.copy.At(w)) && CleanFile(s.backup.At(w))
  }

  lemma CleanStepKeeps(s: Sys, a: Step, w: Which)
    requires Matched(s) && AllClean(s, w) && Enabled(s, a) && CleanStep(a) && Faultless(a)
    ensures AllClean(Do(s, a), w)
  {
  }

  lemma {:induction false} CleanRun(s: Sys, steps: seq<Step>, w: Which)
    requires Matched(s) && AllClean(s, w) && Runs(s, steps)
    requires forall i :: 0 <= i < |steps| ==> CleanStep(steps[i]) && Faultless(steps[i])
    ensures AllClean(End(s, steps), w)
    decreases |steps|
  {
    if steps != [] {
      MatchedStep(s, steps[0]);
      CleanStepKeeps(s, steps[0], w);
      CleanRun(Do(s, steps[0]), steps[1..], w);
    }
  }

  /** Over faultless runs the server solves on exactly the client's file if and only if the file was sent
      in this run or is its own backup, byte by byte. */
  lemma FaultlessEqualsIff(steps: seq<Step>, w: Which)
    requires Runs(BEGIN, steps) && GetSent(End(BEGIN, steps))
    requires forall i :: 0 <= i < |steps| ==> Faultless(steps[i])
    ensures var s := End(BEGIN, steps);
            s.copy.At(w) == s.local.At(w) <==> w in s.sentNow || s.backup.At(w) == s.local.At(w)
  {
    MatchedRun(BEGIN, steps);
    HandledRun(BEGIN, steps, w);
    MirrorRun(BEGIN, steps, w);
  }

  /** With files free of byte 0xFF the server solves on exactly the client's files. */
  lemma GetSeesLocalFiles(steps: seq<Step>, w: Which)
    requires Runs(BEGIN, steps) && GetSent(End(BEGIN, steps))
    requires forall i :: 0 <= i < |steps| ==> CleanStep(steps[i]) && Faultless(steps[i])
    ensures var s := End(BEGIN, steps); s.copy.At(w).Some? && s.copy.At(w) == s.local.At(w)
  {
    BackupsMirror(steps, w);
    CleanRun(BEGIN, steps, w);
    var s := End(BEGIN, steps);
    UntilEofClean(s.copy.At(w).value);
    UntilEofClean(s.local.At(w).value);
  }

  // ---------------------------------------------------------------- what the conditions are for

  ghost predicate Reachable(s: Sys) {
    exists steps :: Runs(BEGIN, steps) && End(BEGIN, steps) == s
  }

  lemma {:induction false} RunsSnoc(s: Sys, steps: seq<Step>, a: Step)
    requires Runs(s, steps) && Enabled(End(s, steps), a)
    ensures Runs(s, steps + [a]) && End(s, steps + [a]) == Do(End(s, steps), a)
    decreases |steps|
  {
    if steps == [] {
      assert [] + [a] == [a] && [a][1..] == [];
    } else {
      assert (steps + [a])[1..] == steps[1..] + [a];
      RunsSnoc(Do(s, steps[0]), steps[1..], a);
    }
  }

  lemma Go(s: Sys, a: Step) returns (s': Sys)
    requires Reachable(s) && Enabled(s, a)
    ensures Reachable(s') && s' == Do(s, a) && Matched(s')
  {
    s' := Do(s, a);
    var steps :| Runs(BEGIN, steps) && End(BEGIN, steps) == s;
    RunsSnoc(BEGIN, steps, a);
    MatchedRun(BEGIN, steps + [a]);
  }

  /** One file sent and accepted. */
  lemma SendOne(s: Sys) returns (s': Sys)
    requires Reachable(s) && Matched(s) && s.client.Decide? && Transferable(s.local.At(s.client.w))
    requires MustSend(s, s.client.w)
    ensures Reachable(s') && Matched(s')
    ensures var w := s.client.w;
            s'.client == Backup(w) && s'.hasId == s.hasId && s'.command == s.command && s'.local == s.local &&
            s'.copy == s.copy.With(w, s.local.At(w)) && s'.backup == s.backup
  {
    var w := s.client.w;
    Transfer.CanFinishIff(s.local.At(w).value);
    var s1 := Go(s, Look(true));
    assert s1 == Issue(s, SendFile(w, s.local.At(w).value), Await(w));
    assert s1.requests[0] == SendFile(w, s.local.At(w).value) && s1.server == Idle && s1.replies == [];
    var s2 := Go(s1, Serve(Stored));
    assert s2.replies == [AnswerOk] && s2.client == Await(w);
    s' := Go(s2, TakeReply);
  }

  /** One file sent, accepted and copied to its backup. */
  lemma SendAndCopy(s: Sys) returns (s': Sys)
    requires Reachable(s) && Matched(s) && s.client.Decide? && Transferable(s.local.At(s.client.w))
    requires MustSend(s, s.client.w)
    ensures Reachable(s') && Matched(s')
    ensures var w := s.client.w;
            s'.client == After(w) && s'.hasId == s.hasId && s'.command == s.command && s'.local == s.local &&
            s'.copy == s.copy.With(w, s.local.At(w)) && s'.backup == s.backup.With(w, s.local.At(w))
  {
    var s1 := SendOne(s);
    s' := Go(s1, Copy(Whole));
  }

  /** A first run that leaves both files on the server and in the backups. */
  lemma FirstRun(solv: string, yum: string) returns (s: Sys)
    requires solv != "" && yum != ""
    ensures Reachable(s) && Matched(s) && s.client.Ended?
    ensures s.backup == s.copy == Files(Some(solv), Some(yum))
  {
    assert Runs(BEGIN, []) && End(BEGIN, []) == BEGIN;
    var start := NewRun(false, Install, Files(Some(solv), Some(yum)));
    s := Go(BEGIN, start);
    s := SendAndCopy(s);
    s := SendAndCopy(s);
    s := Go(s, Order(false));
  }

  /** A later run in which both files look unchanged reaches its GET request without sending them. */
  lemma QuietRun(s: Sys, local: Files) returns (s': Sys)
    requires Reachable(s) && s.client.Ended?
    requires Same(local.solv, s.backup.solv) && Same(local.yum, s.backup.yum)
    ensures Reachable(s') && GetSent(s') && s'.local == local && s'.copy == s.copy
  {
    s' := Go(s, NewRun(true, Install, local));
    s' := Go(s', Look(true));
    s' := Go(s', Look(true));
    s' := Go(s', Order(true));
  }

  /** A change behind a byte 0xFF is never sent. */
  lemma ByteFFHidesChange(a: string, b: string, yum: string) returns (s: Sys)
    requires a != b && yum != ""
    ensures Reachable(s) && GetSent(s) && s.copy.solv != s.local.solv
  {
    var head := [EOF];
    s := FirstRun(head + b, yum);
    assert (head + a)[0] == EOF && (head + b)[0] == EOF;
    assert (head + a)[1..] == a && (head + b)[1..] == b;
    s := QuietRun(s, Files(Some(head + a), Some(yum)));
  }

  /** A run that sends a new `@System.solv` whose backup copy goes as given. */
  lemma RunWithCopy(s: Sys, local: Files, copying: Copying) returns (s': Sys)
    requires Reachable(s) && s.client.Ended? && CanCopy(local.solv, copying) && Transferable(local.solv)
    requires local.yum.Some? && Same(local.yum, s.backup.yum) && !Same(local.solv, s.backup.solv)
    ensures Reachable(s') && s'.client.Ended?
    ensures s'.copy == s.copy.With(Solv, local.solv) && s'.backup == BackedUp(s.(local := local), Solv, copying)
  {
    s' := Go(s, NewRun(true, CheckDep, local));
    s' := SendOne(s');
    s' := Go(s', Copy(copying));
    s' := EndQuietly(s');
  }

  /** The rest of a run that has nothing more to send and nothing to ask for. */
  lemma EndQuietly(s: Sys) returns (s': Sys)
    requires Reachable(s) && s.client == Decide(Yum) && !MustSend(s, Yum) && !IsGet(s.command)
    ensures Reachable(s') && s'.client.Ended? && s'.copy == s.copy && s'.backup == s.backup
  {
    s' := Go(s, Look(true));
    s' := Go(s', Order(true));
  }

  /** A backup copy that fails once leaves a stale backup: when the file later returns to its old
      content, the server keeps solving on the newer one. */
  lemma FailedBackupGoesStale(older: string, newer: string, yum: string) returns (s: Sys)
    requires UntilEof(older) != UntilEof(newer) && older != "" && newer != "" && yum != ""
    ensures Reachable(s) && GetSent(s) && s.local.solv == Some(older) && s.copy.solv == Some(newer)
  {
    s := FirstRun(older, yum);
    s := RunWithCopy(s, Files(Some(newer), Some(yum)), Refused);
    s := QuietRun(s, Files(Some(older), Some(yum)));
  }

  /** A backup copy that falls short does the same for a file that is cut to the same length. */
  lemma ShortBackupGoesStale(older: string, newer: string, kept: string, yum: string) returns (s: Sys)
    requires UntilEof(older) != UntilEof(newer) && kept < newer && older != "" && yum != ""
    ensures Reachable(s) && GetSent(s) && s.local.solv == Some(kept) && s.copy.solv == Some(newer)
  {
    s := FirstRun(older, yum);
    s := RunWithCopy(s, Files(Some(newer), Some(yum)), Short(kept));
    s := QuietRun(s, Files(Some(kept), Some(yum)));
  }

  /** A later run in which the transfer of a changed file does not end well. */
  lemma BadTransfer(s: Sys, local: Files, stored: string, breaks: bool) returns (s': Sys)
    requires Reachable(s) && Matched(s) && s.client.Ended?
    requires local.solv.Some? && stored < local.solv.value && !Same(local.solv, s.backup.solv)
    ensures Reachable(s') && s'.client.Ended?
    ensures s'.backup == s.backup && s'.copy == s.copy.With(Solv, Some(stored))
  {
    Transfer.CanStoreIff(local.solv.value, stored);
    var start := NewRun(true, Install, local);
    s' := Go(s, start);
    s' := Go(s', Look(true));
    if breaks {
      s' := Go(s', Break(stored));
    } else {
      s' := Go(s', Serve(Partly(stored)));
      s' := Go(s', TakeReply);
    }
  }

  /** A transfer that breaks, or that the server could not write to its end, leaves part of a file there:
      when the client's file returns to its old content, the server solves on that part. */
  lemma BadTransferGoesStale(older: string, newer: string, stored: string, yum: string, breaks: bool)
    returns (s: Sys)
    requires UntilEof(older) != UntilEof(newer) && stored < newer && UntilEof(stored) != UntilEof(older)
    requires older != "" && yum != ""
    ensures Reachable(s) && GetSent(s) && s.local.solv == Some(older) && s.copy.solv == Some(stored)
  {
    s := FirstRun(older, yum);
    s := BadTransfer(s, Files(Some(newer), Some(yum)), stored, breaks);
    s := QuietRun(s, Files(Some(older), Some(yum)));
  }
}
