/** The resource registry of mem_management.c as a sequence of entries: what each call does to it,
    and what holds after any sequence of calls. */
module RegistrySpec {

  /** Number of values of a C `int`; `sock_fd` is the low half of the union `Alloc_data`. */
  const FD_SPAN: nat := 0x1_0000_0000

  /** The null pointer. */
  const NULL: nat := 0

  datatype Kind = Socket | Ptr

  /** One list node: the tag, and the whole word held by the union. For a socket only the low half
      of the word is ever written; the high half is whatever `malloc` left there. */
  datatype Entry = Entry(kind: Kind, data: nat)

  /** What the operating system handed out. */
  datatype Resource = Fd(bits: nat) | Mem(addr: nat)

  /** The low half of a word read as `sock_fd`; a negative descriptor becomes its two's complement. */
  function Bits(word: int): nat {
    word % FD_SPAN
  }

  function ResourceOf(e: Entry): Resource {
    match e.kind
    case Socket => Fd(Bits(e.data))
    case Ptr => Mem(e.data)
  }

  /** The test of `ssds_gc_search`: the type asked for selects the union member compared, the tag of
      the list node is not looked at. */
  predicate Matches(e: Entry, kind: Kind, probe: int) {
    match kind
    case Socket => Bits(e.data) == Bits(probe)
    case Ptr => e.data == probe
  }

  /** Index of the first entry that the search accepts, or the length of the list. */
  function FirstMatch(es: seq<Entry>, kind: Kind, probe: int): (k: nat)
    ensures k <= |es|
    ensures k < |es| ==> Matches(es[k], kind, probe)
    ensures forall j :: 0 <= j < k ==> !Matches(es[j], kind, probe)
  {
    if es == [] || Matches(es[0], kind, probe) then 0 else 1 + FirstMatch(es[1..], kind, probe)
  }

  /** A block is found by its whole word, a descriptor by the four low bytes of the word. */
  lemma MatchesMeans(e: Entry, probe: int)
    ensures Matches(e, Ptr, probe) <==> e.data == probe
    ensures Matches(e, Socket, probe) <==> exists high: int :: e.data == probe + high * 0x1_0000_0000
  {
    if Matches(e, Socket, probe) {
      var high := e.data / 0x1_0000_0000 - probe / 0x1_0000_0000;
      assert e.data == probe + high * 0x1_0000_0000;
    }
  }

  predicate Found(es: seq<Entry>, kind: Kind, probe: int) {
    FirstMatch(es, kind, probe) < |es|
  }

  function Without(es: seq<Entry>, k: nat): seq<Entry>
    requires k <= |es|
  {
    if k == |es| then es else es[..k] + es[k+1..]
  }

  function Removed(es: seq<Entry>, kind: Kind, probe: int): seq<Entry> {
    Without(es, FirstMatch(es, kind, probe))
  }

  /** A call of the public interface together with the answer the operating system gives to it.
      `got` is the pointer returned (NULL when the allocation fails), `fd` the descriptor (negative on
      failure), `junk` the unwritten half of the union in the node that is pushed. */
  datatype Call =
    | Malloc(size: int, got: nat)
    | Calloc(count: int, size: int, got: nat)
    | Realloc(from: nat, size: int, got: nat)
    | Free(ptr: nat)
    | OpenSocket(fd: int, junk: nat)
    | Accept(fd: int, junk: nat)
    | Close(fd: int)

  /** `total` is the counter `allocated`; `log` is every resource passed to `free` or `close` so far. */
  datatype State = State(entries: seq<Entry>, numItems: int, total: int, log: seq<Resource>)

  const INITIAL := State([], 0, 0, [])

  function PtrEntry(ptr: nat): Entry {
    Entry(Ptr, ptr)
  }

  function SocketEntry(fd: int, junk: nat): Entry {
    Entry(Socket, Bits(fd) + junk * FD_SPAN)
  }

  function Acquire(s: State, ok: bool, e: Entry, bytes: int): State {
    s.(entries := if ok then [e] + s.entries else s.entries, numItems := s.numItems + 1, total := s.total + bytes)
  }

  function Release(s: State, kind: Kind, probe: int, r: Resource): State {
    s.(entries := Removed(s.entries, kind, probe), numItems := s.numItems - 1, log := s.log + [r])
  }

  function Step(s: State, c: Call): State {
    match c
    case Malloc(size, got) => Acquire(s, got != NULL, PtrEntry(got), size)
    case Calloc(count, size, got) => Acquire(s, got != NULL, PtrEntry(got), count * size)
    case Realloc(from, size, got) =>
      var s' := s.(total := s.total + size);
      if got == NULL || got == from then s'
      else s'.(entries := [PtrEntry(got)] + Removed(s.entries, Ptr, from))
    case Free(ptr) => Release(s, Ptr, ptr, Mem(ptr))
    case OpenSocket(fd, junk) => Acquire(s, fd >= 0, SocketEntry(fd, junk), 0)
    case Accept(fd, junk) => Acquire(s, fd >= 0, SocketEntry(fd, junk), 0)
    case Close(fd) => Release(s, Socket, fd, Fd(Bits(fd)))
  }

  function Run(s: State, calls: seq<Call>): State
    decreases |calls|
  {
    if calls == [] then s else Run(Step(s, calls[0]), calls[1..])
  }

  // ---------------------------------------------------------------- accounting

  /** An acquisition the operating system refused. */
  predicate Failed(c: Call) {
    match c
    case Malloc(_, got) => got == NULL
    case Calloc(_, _, got) => got == NULL
    case OpenSocket(fd, _) => fd < 0
    case Accept(fd, _) => fd < 0
    case _ => false
  }

  /** A release whose search comes back empty-handed. */
  predicate Missed(s: State, c: Call) {
    match c
    case Free(ptr) => !Found(s.entries, Ptr, ptr)
    case Close(fd) => !Found(s.entries, Socket, fd)
    case _ => false
  }

  /** A `realloc` that moved a block the registry did not know. */
  predicate Adopted(s: State, c: Call) {
    c.Realloc? && c.got != NULL && c.got != c.from && !Found(s.entries, Ptr, c.from)
  }

  datatype Tally = Tally(failed: nat, missed: nat, adopted: nat)

  function Count(s: State, calls: seq<Call>): Tally
    decreases |calls|
  {
    if calls == [] then Tally(0, 0, 0)
    else
      var rest := Count(Step(s, calls[0]), calls[1..]);
      Tally(rest.failed + (if Failed(calls[0]) then 1 else 0),
            rest.missed + (if Missed(s, calls[0]) then 1 else 0),
            rest.adopted + (if Adopted(s, calls[0]) then 1 else 0))
  }

  /** The counter `num_items` against the length of the list, after any calls at all. */
  lemma {:induction false} AccountingFrom(s: State, calls: seq<Call>)
    ensures var end, n := Run(s, calls), Count(s, calls);
            end.numItems - |end.entries| ==
            s.numItems - |s.entries| + n.failed - n.missed - n.adopted
    decreases |calls|
  {
    if calls != [] {
      AccountingFrom(Step(s, calls[0]), calls[1..]);
    }
  }

  lemma Accounting(calls: seq<Call>)
    ensures var end, n := Run(INITIAL, calls), Count(INITIAL, calls);
            end.numItems == |end.entries| + n.failed - n.missed - n.adopted
  {
    AccountingFrom(INITIAL, calls);
  }

  /** The bytes a call asks for, whether it gets them or not. */
  function Requested(c: Call): int {
    match c
    case Malloc(size, _) => size
    case Calloc(count, size, _) => count * size
    case Realloc(_, size, _) => size
    case _ => 0
  }

  function RequestedAll(calls: seq<Call>): int {
    if calls == [] then 0 else Requested(calls[0]) + RequestedAll(calls[1..])
  }

  /** The counter `allocated` never goes down: it adds up what was ever requested. */
  lemma {:induction false} TotalIsRequested(s: State, calls: seq<Call>)
    ensures Run(s, calls).total == s.total + RequestedAll(calls)
    decreases |calls|
  {
    if calls != [] {
      TotalIsRequested(Step(s, calls[0]), calls[1..]);
    }
  }

  // ---------------------------------------------------------------- tracking

  /** The resources a program holds after one more call, told by the calls alone: no list, no search. */
  function Holding(held: set<Resource>, c: Call): set<Resource> {
    match c
    case Malloc(_, got) => if got == NULL then held else held + {Mem(got)}
    case Calloc(_, _, got) => if got == NULL then held else held + {Mem(got)}
    case Realloc(from, _, got) => if got == NULL then held else held - {Mem(from)} + {Mem(got)}
    case Free(ptr) => held - {Mem(ptr)}
    case OpenSocket(fd, _) => if fd < 0 then held else held + {Fd(Bits(fd))}
    case Accept(fd, _) => if fd < 0 then held else held + {Fd(Bits(fd))}
    case Close(fd) => held - {Fd(Bits(fd))}
  }

  function Outstanding(held: set<Resource>, calls: seq<Call>): set<Resource>
    decreases |calls|
  {
    if calls == [] then held else Outstanding(Holding(held, calls[0]), calls[1..])
  }

  /** Releases and moves name resources that are held; the system never hands out one that still is. */
  predicate Lawful(held: set<Resource>, c: Call) {
    match c
    case Malloc(_, got) => Mem(got) !in held
    case Calloc(_, _, got) => Mem(got) !in held
    case Realloc(from, size, got) => size > 0 && Mem(from) in held && (got != from ==> Mem(got) !in held)
    case Free(ptr) => Mem(ptr) in held
    case OpenSocket(fd, _) => fd < 0 || Fd(Bits(fd)) !in held
    case Accept(fd, _) => fd < 0 || Fd(Bits(fd)) !in held
    case Close(fd) => Fd(Bits(fd)) in held
  }

  /** No held pointer ends in the four bytes of a held descriptor. */
  ghost predicate NoCollision(held: set<Resource>) {
    forall m, f :: m in held && f in held && m.Mem? && f.Fd? ==> Bits(m.addr) != f.bits
  }

  ghost predicate LawfulRun(held: set<Resource>, calls: seq<Call>)
    decreases |calls|
  {
    NoCollision(held) &&
    (calls != [] ==> Lawful(held, calls[0]) && LawfulRun(Holding(held, calls[0]), calls[1..]))
  }

  /** The list holds each held resource exactly once and nothing else. */
  ghost predicate Tracks(es: seq<Entry>, held: set<Resource>) {
    (forall i :: 0 <= i < |es| ==> ResourceOf(es[i]) in held) &&
    (forall r :: r in held ==> exists i :: 0 <= i < |es| && ResourceOf(es[i]) == r) &&
    (forall i, j :: 0 <= i < j < |es| ==> ResourceOf(es[i]) != ResourceOf(es[j]))
  }

  function Probe(kind: Kind, probe: int): Resource
    requires kind == Ptr ==> probe >= 0
  {
    match kind
    case Socket => Fd(Bits(probe))
    case Ptr => Mem(probe)
  }

  lemma TracksPush(es: seq<Entry>, held: set<Resource>, e: Entry)
    requires Tracks(es, held) && ResourceOf(e) !in held
    ensures Tracks([e] + es, held + {ResourceOf(e)})
  {
    var es' := [e] + es;
    forall r | r in held + {ResourceOf(e)}
      ensures exists i :: 0 <= i < |es'| && ResourceOf(es'[i]) == r
    {
      if r == ResourceOf(e) {
        assert es'[0] == e;
      } else {
        var i :| 0 <= i < |es| && ResourceOf(es[i]) == r;
        assert es'[i+1] == es[i];
      }
    }
  }

  lemma TracksDrop(es: seq<Entry>, held: set<Resource>, k: nat)
    requires Tracks(es, held) && k < |es|
    ensures Tracks(Without(es, k), held - {ResourceOf(es[k])})
  {
    var es' := Without(es, k);
    forall r | r in held - {ResourceOf(es[k])}
      ensures exists i :: 0 <= i < |es'| && ResourceOf(es'[i]) == r
    {
      var i :| 0 <= i < |es| && ResourceOf(es[i]) == r;
      assert es'[if i < k then i else i - 1] == es[i];
    }
  }

  lemma HeldIsFound(es: seq<Entry>, held: set<Resource>, kind: Kind, probe: int) returns (i: nat)
    requires kind == Ptr ==> probe >= 0
    requires Tracks(es, held) && Probe(kind, probe) in held
    ensures FirstMatch(es, kind, probe) <= i < |es| && ResourceOf(es[i]) == Probe(kind, probe)
  {
    i :| 0 <= i < |es| && ResourceOf(es[i]) == Probe(kind, probe);
    assert Matches(es[i], kind, probe);
  }

  lemma WrongDropKeeps(es: seq<Entry>, held: set<Resource>, k: nat, i: nat)
    requires k < |es| && i < |es| && i != k
    ensures !Tracks(Without(es, k), held - {ResourceOf(es[i])})
  {
    assert Without(es, k)[if i < k then i else i - 1] == es[i];
  }

  /** When a release of a held resource is exact. The search is blind to the tag, so it takes the
      first node whose word agrees; the release drops the resource that was asked for if and only if
      that node carries the kind that was asked for. */
  lemma ReleaseExact(es: seq<Entry>, held: set<Resource>, kind: Kind, probe: int)
    requires kind == Ptr ==> probe >= 0
    requires Tracks(es, held) && Probe(kind, probe) in held
    ensures Found(es, kind, probe)
    ensures Tracks(Removed(es, kind, probe), held - {Probe(kind, probe)}) <==>
            es[FirstMatch(es, kind, probe)].kind == kind
  {
    var i := HeldIsFound(es, held, kind, probe);
    var k := FirstMatch(es, kind, probe);
    if es[k].kind == kind {
      TracksDrop(es, held, k);
    } else {
      WrongDropKeeps(es, held, k, i);
    }
  }

  /** Without collisions the search meets the right kind. */
  lemma NoCollisionFindsRight(es: seq<Entry>, held: set<Resource>, kind: Kind, probe: int)
    requires kind == Ptr ==> probe >= 0
    requires Tracks(es, held) && NoCollision(held) && Probe(kind, probe) in held
    ensures Found(es, kind, probe) && es[FirstMatch(es, kind, probe)].kind == kind
  {
    var i := HeldIsFound(es, held, kind, probe);
    var e := es[FirstMatch(es, kind, probe)];
    assert ResourceOf(e) in held;
  }

  lemma SocketWord(fd: int, junk: nat)
    ensures ResourceOf(SocketEntry(fd, junk)) == Fd(Bits(fd))
  {
    assert (Bits(fd) + junk * FD_SPAN) % FD_SPAN == Bits(fd);
  }

  /** What the blind search must meet for a call to take the right node off the list. */
  predicate FindsRight(es: seq<Entry>, c: Call) {
    match c
    case Free(ptr) => Found(es, Ptr, ptr) && es[FirstMatch(es, Ptr, ptr)].kind == Ptr
    case Close(fd) => Found(es, Socket, fd) && es[FirstMatch(es, Socket, fd)].kind == Socket
    case Realloc(from, _, got) =>
      got != NULL && got != from ==> Found(es, Ptr, from) && es[FirstMatch(es, Ptr, from)].kind == Ptr
    case _ => true
  }

  /** One lawful call, collisions allowed: the list still holds what is held if and only if the search
      meets a node of the right kind. */
  lemma TracksStepIff(s: State, held: set<Resource>, c: Call)
    requires Tracks(s.entries, held) && Lawful(held, c)
    ensures Tracks(Step(s, c).entries, Holding(held, c)) <==> FindsRight(s.entries, c)
  {
    match c {
      case Malloc(_, got) => if got != NULL { TracksPush(s.entries, held, PtrEntry(got)); }
      case Calloc(_, _, got) => if got != NULL { TracksPush(s.entries, held, PtrEntry(got)); }
      case OpenSocket(fd, junk) =>
        SocketWord(fd, junk);
        if fd >= 0 { TracksPush(s.entries, held, SocketEntry(fd, junk)); }
      case Accept(fd, junk) =>
        SocketWord(fd, junk);
        if fd >= 0 { TracksPush(s.entries, held, SocketEntry(fd, junk)); }
      case Free(ptr) => ReleaseExact(s.entries, held, Ptr, ptr);
      case Close(fd) => ReleaseExact(s.entries, held, Socket, fd);
      case Realloc(from, _, got) =>
        if got == from {
          assert held - {Mem(from)} + {Mem(got)} == held;
        } else if got != NULL {
          MoveExact(s.entries, held, from, got);
        }
    }
  }

  /** A block that moves: the old node must be the one that goes. */
  lemma MoveExact(es: seq<Entry>, held: set<Resource>, from: nat, got: nat)
    requires Tracks(es, held) && Mem(from) in held && Mem(got) !in held
    ensures Found(es, Ptr, from)
    ensures Tracks([PtrEntry(got)] + Removed(es, Ptr, from), held - {Mem(from)} + {Mem(got)}) <==>
            es[FirstMatch(es, Ptr, from)].kind == Ptr
  {
    var i := HeldIsFound(es, held, Ptr, from);
    var k := FirstMatch(es, Ptr, from);
    if es[k].kind == Ptr {
      TracksDrop(es, held, k);
      TracksPush(Without(es, k), held - {Mem(from)}, PtrEntry(got));
    } else {
      WrongMoveKeeps(es, held, k, i, got);
    }
  }

  lemma WrongMoveKeeps(es: seq<Entry>, held: set<Resource>, k: nat, i: nat, got: nat)
    requires k < |es| && i < |es| && i != k && ResourceOf(es[i]) != Mem(got)
    ensures !Tracks([PtrEntry(got)] + Without(es, k), held - {ResourceOf(es[i])} + {Mem(got)})
  {
    var rest := Without(es, k);
    var h := if i < k then i else i - 1;
    assert rest[h] == es[i] && ([PtrEntry(got)] + rest)[h + 1] == rest[h];
  }

  /** One lawful call without collisions. */
  lemma TracksStep(s: State, held: set<Resource>, c: Call)
    requires Tracks(s.entries, held) && NoCollision(held) && Lawful(held, c)
    ensures Tracks(Step(s, c).entries, Holding(held, c))
  {
    TracksStepIff(s, held, c);
    match c {
      case Free(ptr) => NoCollisionFindsRight(s.entries, held, Ptr, ptr);
      case Close(fd) => NoCollisionFindsRight(s.entries, held, Socket, fd);
      case Realloc(from, _, _) => NoCollisionFindsRight(s.entries, held, Ptr, from);
      case _ =>
    }
  }

  predicate LawfulCalls(held: set<Resource>, calls: seq<Call>)
    decreases |calls|
  {
    calls != [] ==> Lawful(held, calls[0]) && LawfulCalls(Holding(held, calls[0]), calls[1..])
  }

  predicate AllFindRight(s: State, calls: seq<Call>)
    decreases |calls|
  {
    calls != [] ==> FindsRight(s.entries, calls[0]) && AllFindRight(Step(s, calls[0]), calls[1..])
  }

  /** Before and after each of the calls the list is exactly what is held. */
  ghost predicate TracksAlong(s: State, held: set<Resource>, calls: seq<Call>)
    decreases |calls|
  {
    Tracks(s.entries, held) &&
    (calls != [] ==> TracksAlong(Step(s, calls[0]), Holding(held, calls[0]), calls[1..]))
  }

  /** When tracking holds throughout a run, collisions allowed. */
  lemma {:induction false} TrackingIff(s: State, held: set<Resource>, calls: seq<Call>)
    requires Tracks(s.entries, held) && LawfulCalls(held, calls)
    ensures TracksAlong(s, held, calls) <==> AllFindRight(s, calls)
    decreases |calls|
  {
    if calls != [] {
      TracksStepIff(s, held, calls[0]);
      if FindsRight(s.entries, calls[0]) {
        TrackingIff(Step(s, calls[0]), Holding(held, calls[0]), calls[1..]);
      } else {
        assert !TracksAlong(Step(s, calls[0]), Holding(held, calls[0]), calls[1..]);
      }
    }
  }

  /** Drops the first entry of that resource. */
  function Drop(order: seq<Entry>, r: Resource): seq<Entry> {
    if order == [] then [] else if ResourceOf(order[0]) == r then order[1..] else [order[0]] + Drop(order[1..], r)
  }

  /** What is held, newest first, after one more call: told by the calls alone, no search. */
  function Newest(order: seq<Entry>, c: Call): seq<Entry> {
    match c
    case Malloc(_, got) => if got == NULL then order else [PtrEntry(got)] + order
    case Calloc(_, _, got) => if got == NULL then order else [PtrEntry(got)] + order
    case Realloc(from, _, got) =>
      if got == NULL || got == from then order else [PtrEntry(got)] + Drop(order, Mem(from))
    case Free(ptr) => Drop(order, Mem(ptr))
    case OpenSocket(fd, junk) => if fd < 0 then order else [SocketEntry(fd, junk)] + order
    case Accept(fd, junk) => if fd < 0 then order else [SocketEntry(fd, junk)] + order
    case Close(fd) => Drop(order, Fd(Bits(fd)))
  }

  /** Nothing of the other kind with the same word was acquired after the resource and is still held. */
  ghost predicate Clear(order: seq<Entry>, kind: Kind, probe: int)
    requires kind == Ptr ==> probe >= 0
  {
    forall i, j :: 0 <= i < j < |order| && ResourceOf(order[j]) == Probe(kind, probe) && order[i].kind != kind ==>
      !Matches(order[i], kind, probe)
  }

  ghost predicate ClearCall(order: seq<Entry>, c: Call) {
    match c
    case Free(ptr) => Clear(order, Ptr, ptr)
    case Close(fd) => Clear(order, Socket, fd)
    case Realloc(from, _, got) => got != NULL && got != from ==> Clear(order, Ptr, from)
    case _ => true
  }

  /** Every release and move of the run is clear. */
  ghost predicate AllClear(order: seq<Entry>, calls: seq<Call>)
    decreases |calls|
  {
    calls != [] ==> ClearCall(order, calls[0]) && AllClear(Newest(order, calls[0]), calls[1..])
  }

  lemma {:induction false} DropAt(order: seq<Entry>, k: nat)
    requires k < |order| && forall i :: 0 <= i < k ==> ResourceOf(order[i]) != ResourceOf(order[k])
    ensures Drop(order, ResourceOf(order[k])) == Without(order, k)
  {
    if k > 0 {
      assert order[1..][k - 1] == order[k];
      DropAt(order[1..], k - 1);
      assert [order[0]] + Without(order[1..], k - 1) == Without(order, k);
    }
  }

  /** A held resource: the search meets the right kind if and only if nothing masks the resource, and then it
      takes that very entry. */
  lemma ClearFindsRight(es: seq<Entry>, held: set<Resource>, kind: Kind, probe: int)
    requires kind == Ptr ==> probe >= 0
    requires Tracks(es, held) && Probe(kind, probe) in held
    ensures Found(es, kind, probe)
    ensures es[FirstMatch(es, kind, probe)].kind == kind <==> Clear(es, kind, probe)
    ensures Clear(es, kind, probe) ==> Removed(es, kind, probe) == Drop(es, Probe(kind, probe))
  {
    var i := HeldIsFound(es, held, kind, probe);
    var k := FirstMatch(es, kind, probe);
    if es[k].kind == kind {
      assert ResourceOf(es[k]) == Probe(kind, probe) && k == i;
      DropAt(es, k);
    } else {
      assert !Clear(es, kind, probe);
    }
  }

  lemma ClearStep(s: State, held: set<Resource>, c: Call)
    requires Tracks(s.entries, held) && Lawful(held, c)
    ensures FindsRight(s.entries, c) <==> ClearCall(s.entries, c)
    ensures ClearCall(s.entries, c) ==> Step(s, c).entries == Newest(s.entries, c)
  {
    match c {
      case Free(ptr) => ClearFindsRight(s.entries, held, Ptr, ptr);
      case Close(fd) => ClearFindsRight(s.entries, held, Socket, fd);
      case Realloc(from, _, _) => ClearFindsRight(s.entries, held, Ptr, from);
      case _ =>
    }
  }

  /** Tracking throughout a run, told by the calls alone: it holds if and only if no release or move is of a
      resource that a later one of the other kind masks. */
  lemma {:induction false} TrackingIffClear(s: State, held: set<Resource>, calls: seq<Call>)
    requires Tracks(s.entries, held) && LawfulCalls(held, calls)
    ensures TracksAlong(s, held, calls) <==> AllClear(s.entries, calls)
    decreases |calls|
  {
    if calls != [] {
      TracksStepIff(s, held, calls[0]);
      ClearStep(s, held, calls[0]);
      if ClearCall(s.entries, calls[0]) {
        TrackingIffClear(Step(s, calls[0]), Holding(held, calls[0]), calls[1..]);
      } else {
        assert !TracksAlong(Step(s, calls[0]), Holding(held, calls[0]), calls[1..]);
      }
    }
  }

  lemma {:induction false} AlongEnd(s: State, held: set<Resource>, calls: seq<Call>)
    requires TracksAlong(s, held, calls)
    ensures Tracks(Run(s, calls).entries, Outstanding(held, calls))
    decreases |calls|
  {
    if calls != [] {
      AlongEnd(Step(s, calls[0]), Holding(held, calls[0]), calls[1..]);
    }
  }

  /** After any lawful and clear sequence of calls the list is exactly the set of outstanding resources. */
  lemma Tracking(calls: seq<Call>)
    requires LawfulCalls({}, calls) && AllClear([], calls)
    ensures Tracks(Run(INITIAL, calls).entries, Outstanding({}, calls))
  {
    TrackingIffClear(INITIAL, {}, calls);
    AlongEnd(INITIAL, {}, calls);
  }

  /** Where no held pointer ever ends in a held descriptor, every call is clear. */
  lemma {:induction false} NoCollisionClear(s: State, held: set<Resource>, calls: seq<Call>)
    requires Tracks(s.entries, held) && LawfulRun(held, calls)
    ensures LawfulCalls(held, calls) && AllClear(s.entries, calls)
    decreases |calls|
  {
    if calls != [] {
      TracksStep(s, held, calls[0]);
      TracksStepIff(s, held, calls[0]);
      ClearStep(s, held, calls[0]);
      NoCollisionClear(Step(s, calls[0]), Holding(held, calls[0]), calls[1..]);
    }
  }

  /** Without the collision rule tracking fails: closing descriptor 16 drops the block whose address
      ends in 16 and keeps the closed descriptor, so the final cleanup closes it a second time. */
  lemma CollisionLosesPointer(junk: nat)
    ensures var calls := [OpenSocket(16, junk), Malloc(8, 7 * FD_SPAN + 16), Close(16)];
            LawfulCalls({}, calls) && Outstanding({}, calls) == {Mem(7 * FD_SPAN + 16)} &&
            Run(INITIAL, calls).entries == [SocketEntry(16, junk)]
  {
    var a, b, c := OpenSocket(16, junk), Malloc(8, 7 * FD_SPAN + 16), Close(16);
    var s1 := Step(INITIAL, a);
    var s2 := Step(s1, b);
    assert s2.entries == [PtrEntry(7 * FD_SPAN + 16), SocketEntry(16, junk)];
    assert FirstMatch(s2.entries, Socket, 16) == 0;
    assert Step(s2, c).entries == [SocketEntry(16, junk)];
    assert [a, b, c][1..] == [b, c] && [b, c][1..] == [c] && [c][1..] == [];
    assert Run(s2, [c]) == Step(s2, c);
    assert Run(s1, [b, c]) == Run(s2, [c]);
    var h1 := Holding({}, a);
    var h2 := Holding(h1, b);
    assert LawfulCalls(h2, [c]) && LawfulCalls(h1, [b, c]);
    assert Outstanding(h2, [c]) == Holding(h2, c);
    assert Outstanding(h1, [b, c]) == Outstanding(h2, [c]);
  }

  /** What `ssds_gc_cleanup` asks of the system for one list: every node once, null blocks skipped. */
  function Releases(es: seq<Entry>): seq<Resource> {
    if es == [] then [] else ReleasesOf(es[0]) + Releases(es[1..])
  }

  function ReleasesOf(e: Entry): seq<Resource> {
    if e == PtrEntry(NULL) then [] else [ResourceOf(e)]
  }

  lemma ReleasesFrom(es: seq<Entry>, k: nat, log: seq<Resource>, all: seq<Resource>)
    requires k < |es| && log + Releases(es[k..]) == all
    ensures log + ReleasesOf(es[k]) + Releases(es[k + 1..]) == all
  {
    assert es[k..][1..] == es[k + 1..];
    assert log + (ReleasesOf(es[k]) + Releases(es[k + 1..])) == log + ReleasesOf(es[k]) + Releases(es[k + 1..]);
  }

  lemma {:induction false} ReleasesAre(es: seq<Entry>)
    ensures forall r :: r in Releases(es) <==>
              r != Mem(NULL) && exists i :: 0 <= i < |es| && ResourceOf(es[i]) == r
  {
    if es != [] {
      ReleasesAre(es[1..]);
      forall r | r != Mem(NULL) && exists i :: 0 <= i < |es| && ResourceOf(es[i]) == r
        ensures r in Releases(es)
      {
        var i :| 0 <= i < |es| && ResourceOf(es[i]) == r;
        if i > 0 {
          assert es[1..][i-1] == es[i];
        }
      }
      forall r | r in Releases(es)
        ensures r != Mem(NULL) && exists i :: 0 <= i < |es| && ResourceOf(es[i]) == r
      {
        if r in Releases(es[1..]) {
          var i :| 0 <= i < |es[1..]| && ResourceOf(es[1..][i]) == r;
          assert es[i+1] == es[1..][i];
        } else {
          assert ResourceOf(es[0]) == r;
        }
      }
    }
  }

  /** Without null blocks: one release for every entry, in their order. */
  lemma {:induction false} ReleasesInOrder(es: seq<Entry>)
    requires forall i :: 0 <= i < |es| ==> es[i] != Entry(Ptr, 0)
    ensures |Releases(es)| == |es|
    ensures forall i :: 0 <= i < |es| ==>
      Releases(es)[i] == if es[i].kind == Ptr then Mem(es[i].data) else Fd(es[i].data % 0x1_0000_0000)
  {
    if es != [] {
      ReleasesInOrder(es[1..]);
    }
  }

  lemma {:induction false} ReleasesOnce(es: seq<Entry>)
    requires forall i, j :: 0 <= i < j < |es| ==> ResourceOf(es[i]) != ResourceOf(es[j])
    ensures forall i, j :: 0 <= i < j < |Releases(es)| ==> Releases(es)[i] != Releases(es)[j]
  {
    if es != [] {
      ReleasesOnce(es[1..]);
      ReleasesAre(es[1..]);
      assert ResourceOf(es[0]) !in Releases(es[1..]);
    }
  }

  /** Cleanup after any lawful and clear run gives back every outstanding resource, each exactly once. */
  lemma CleanupReleasesHeld(calls: seq<Call>)
    requires LawfulCalls({}, calls) && AllClear([], calls)
    ensures var log := Releases(Run(INITIAL, calls).entries);
            (forall r :: r in log <==> r in Outstanding({}, calls)) &&
            (forall i, j :: 0 <= i < j < |log| ==> log[i] != log[j])
  {
    Tracking(calls);
    var es := Run(INITIAL, calls).entries;
    ReleasesAre(es);
    ReleasesOnce(es);
    NeverNull({}, calls);
  }

  lemma {:induction false} NeverNull(held: set<Resource>, calls: seq<Call>)
    requires Mem(NULL) !in held && LawfulCalls(held, calls)
    ensures Mem(NULL) !in Outstanding(held, calls)
    decreases |calls|
  {
    if calls != [] {
      NeverNull(Holding(held, calls[0]), calls[1..]);
    }
  }

  // ---------------------------------------------------------------- no room for a node

  /** Calls that put a node on the list. */
  predicate Pushes(c: Call) {
    match c
    case Malloc(_, got) => got != NULL
    case Calloc(_, _, got) => got != NULL
    case Realloc(from, _, got) => got != NULL && got != from
    case OpenSocket(fd, _) => fd >= 0
    case Accept(fd, _) => fd >= 0
    case _ => false
  }

  /** What the call has handed out when there is no room for its node. */
  function NewResource(c: Call): Resource
    requires Pushes(c)
  {
    match c
    case Malloc(_, got) => Mem(got)
    case Calloc(_, _, got) => Mem(got)
    case Realloc(_, _, got) => Mem(got)
    case OpenSocket(fd, _) => Fd(Bits(fd))
    case Accept(fd, _) => Fd(Bits(fd))
  }

  /** Then the registry is cleaned up and the program ends. */
  function Exit(s: State, c: Call): State
    requires Pushes(c)
  {
    INITIAL.(log := s.log + Releases(Step(s, c).entries[1..]))
  }

  /** That cleanup gives back everything held but the new resource, each exactly once. */
  lemma ExitGivesBack(s: State, held: set<Resource>, c: Call, r: Resource)
    requires Tracks(s.entries, held) && Mem(NULL) !in held && Lawful(held, c) && ClearCall(s.entries, c) && Pushes(c)
    ensures multiset(Releases(Step(s, c).entries[1..]))[r] == If(r in Holding(held, c) && r != NewResource(c))
  {
    TracksStepIff(s, held, c);
    ClearStep(s, held, c);
    NewFirst(s, c);
    RestReleases(Step(s, c).entries, Holding(held, c), r);
  }

  lemma NewFirst(s: State, c: Call)
    requires Pushes(c)
    ensures Step(s, c).entries != [] && ResourceOf(Step(s, c).entries[0]) == NewResource(c)
  {
    if c.OpenSocket? || c.Accept? {
      SocketWord(c.fd, c.junk);
    }
  }

  lemma RestReleases(es: seq<Entry>, held: set<Resource>, r: Resource)
    requires Tracks(es, held) && es != [] && (Mem(NULL) in held ==> ResourceOf(es[0]) == Mem(NULL))
    ensures multiset(Releases(es[1..]))[r] == If(r in held && r != ResourceOf(es[0]))
  {
    TracksDrop(es, held, 0);
    assert Without(es, 0) == es[1..];
    ReleasesTracked(es[1..], held - {ResourceOf(es[0])}, r);
  }

  /** Cleaning up a list gives back what it tracks, each resource once. */
  lemma ReleasesTracked(es: seq<Entry>, held: set<Resource>, r: Resource)
    requires Tracks(es, held) && Mem(NULL) !in held
    ensures multiset(Releases(es))[r] == If(r in held)
  {
    ReleasesAre(es);
    ReleasesOnce(es);
    CountOnce(Releases(es), r);
  }

  // ---------------------------------------------------------------- conservation

  function If(b: bool): nat {
    if b then 1 else 0
  }

  /** How often a call makes the system hand out the resource. */
  function HandsOut(c: Call, r: Resource): nat {
    match c
    case Malloc(_, got) => If(got != NULL && r == Mem(got))
    case Calloc(_, _, got) => If(got != NULL && r == Mem(got))
    case Realloc(from, _, got) => If(got != NULL && got != from && r == Mem(got))
    case OpenSocket(fd, _) => If(fd >= 0 && r == Fd(Bits(fd)))
    case Accept(fd, _) => If(fd >= 0 && r == Fd(Bits(fd)))
    case _ => 0
  }

  /** How often a call moves a block away from the address. */
  function Vacates(c: Call, r: Resource): nat {
    If(c.Realloc? && c.got != NULL && c.got != c.from && r == Mem(c.from))
  }

  function HandedOut(calls: seq<Call>, r: Resource): nat {
    if calls == [] then 0 else HandsOut(calls[0], r) + HandedOut(calls[1..], r)
  }

  function Vacated(calls: seq<Call>, r: Resource): nat {
    if calls == [] then 0 else Vacates(calls[0], r) + Vacated(calls[1..], r)
  }

  lemma BalanceStep(s: State, held: set<Resource>, c: Call, r: Resource)
    requires Lawful(held, c)
    ensures multiset(Step(s, c).log)[r] + If(r in Holding(held, c)) + Vacates(c, r) ==
            multiset(s.log)[r] + If(r in held) + HandsOut(c, r)
  {
  }

  lemma {:induction false} Balance(s: State, held: set<Resource>, calls: seq<Call>, r: Resource)
    requires LawfulCalls(held, calls)
    ensures multiset(Run(s, calls).log)[r] + If(r in Outstanding(held, calls)) + Vacated(calls, r) ==
            multiset(s.log)[r] + If(r in held) + HandedOut(calls, r)
    decreases |calls|
  {
    if calls != [] {
      BalanceStep(s, held, calls[0], r);
      Balance(Step(s, calls[0]), Holding(held, calls[0]), calls[1..], r);
    }
  }

  lemma {:induction false} CountOnce(s: seq<Resource>, r: Resource)
    requires forall i, j :: 0 <= i < j < |s| ==> s[i] != s[j]
    ensures multiset(s)[r] == If(r in s)
  {
    if s != [] {
      CountOnce(s[1..], r);
      assert s == [s[0]] + s[1..];
    }
  }

  /** Over a lawful and clear run and the cleanup that follows, the system gets every resource back exactly as
      often as it handed it out, not counting the addresses that a move had given up already. */
  lemma EverythingGoesBackOnce(calls: seq<Call>, r: Resource)
    requires LawfulCalls({}, calls) && AllClear([], calls)
    ensures var end := Run(INITIAL, calls);
            multiset(end.log + Releases(end.entries))[r] + Vacated(calls, r) == HandedOut(calls, r)
  {
    var end := Run(INITIAL, calls);
    Balance(INITIAL, {}, calls, r);
    Tracking(calls);
    NeverNull({}, calls);
    ReleasesTracked(end.entries, Outstanding({}, calls), r);
  }
}
