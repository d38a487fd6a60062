/** The linked registry of mem_management.c: a doubly linked list of nodes rewritten in place,
    with its two counters. */
module Registry {
  import opened RegistrySpec

  class Item {
    const kind: Kind
    const data: nat
    var next: Item?
    var prev: Item?
    ghost var live: bool   // false once the node has been given back to `free`

    constructor (kind: Kind, data: nat)
      ensures this.kind == kind && this.data == data
      ensures next == null && prev == null && live
    {
      this.kind, this.data := kind, data;
      next, prev, live := null, null, true;
    }

    /** `free(item)`: a node can be freed only once. */
    ghost method Dispose()
      requires live
      modifies `live
      ensures !live
    {
      live := false;
    }
  }

  ghost function At(its: seq<Item>, i: int): Item? {
    if 0 <= i < |its| then its[i] else null
  }

  /** `next` and `prev` are mutually inverse along `its`, which starts at `top` and ends in null. */
  ghost predicate Linked(top: Item?, its: seq<Item>)
    reads its
  {
    top == At(its, 0) &&
    (forall i {:trigger its[i].next} :: 0 <= i < |its| ==> its[i].next == At(its, i + 1)) &&
    (forall i {:trigger its[i].prev} :: 0 <= i < |its| ==> its[i].prev == At(its, i - 1))
  }

  /** No node is met twice: two equal nodes would have equal successors up to the end of the list. */
  lemma {:induction false} Acyclic(top: Item?, its: seq<Item>, i: nat, j: nat)
    requires Linked(top, its) && i < j < |its|
    ensures its[i] != its[j]
    decreases |its| - j
  {
    assert its[i].next == At(its, i + 1) && its[j].next == At(its, j + 1);
    if j + 1 < |its| {
      Acyclic(top, its, i + 1, j + 1);
    }
  }

  lemma Distinct(top: Item?, its: seq<Item>)
    requires Linked(top, its)
    ensures forall i, j :: 0 <= i < j < |its| ==> its[i] != its[j]
  {
    forall i, j | 0 <= i < j < |its|
      ensures its[i] != its[j]
    {
      Acyclic(top, its, i, j);
    }
  }

  /** The links agree with `its`, except that node `k` is stepped over in both directions. */
  ghost predicate Bypassed(top: Item?, its: seq<Item>, k: nat)
    reads its
  {
    k < |its| &&
    top == At(its, if k == 0 then 1 else 0) &&
    (forall i {:trigger its[i].next} :: 0 <= i < |its| && i != k ==>
       its[i].next == At(its, if i + 1 == k then k + 1 else i + 1)) &&
    (forall i {:trigger its[i].prev} :: 0 <= i < |its| && i != k ==>
       its[i].prev == At(its, if i - 1 == k then k - 1 else i - 1))
  }

  lemma BypassedDrop(top: Item?, its: seq<Item>, k: nat)
    requires Bypassed(top, its, k)
    ensures Linked(top, its[..k] + its[k+1..])
  {
    var rest := its[..k] + its[k+1..];
    assert forall j {:trigger rest[j]} :: 0 <= j < |rest| ==> rest[j] == its[if j < k then j else j + 1];
  }

  lemma LinkedFront(item: Item, its: seq<Item>)
    requires item.next == At(its, 0) && item.prev == null
    requires forall i {:trigger its[i].next} :: 0 <= i < |its| ==> its[i].next == At(its, i + 1)
    requires forall i {:trigger its[i].prev} :: 0 <= i < |its| ==> its[i].prev == if i == 0 then item else its[i - 1]
    ensures Linked(item, [item] + its)
  {
    var all := [item] + its;
    assert forall j {:trigger all[j]} :: 0 < j < |all| ==> all[j] == its[j - 1];
  }

  class Gc {
    var ready: bool        // global_gc != NULL
    var top: Item?
    var numItems: int
    var total: int         // the counter `allocated`
    ghost var items: seq<Item>
    ghost var entries: seq<Entry>
    ghost var nodes: set<Item>     // every node ever linked
    ghost var log: seq<Resource>   // every resource passed to `free` or `close`, in order

    ghost predicate Valid()
      reads this, nodes
    {
      (forall i :: 0 <= i < |items| ==> items[i] in nodes) &&
      Linked(top, items) &&
      (forall i {:trigger items[i].live} :: 0 <= i < |items| ==> items[i].live) &&
      |entries| == |items| &&
      (forall i :: 0 <= i < |items| ==> entries[i] == Entry(items[i].kind, items[i].data))
    }

    ghost function View(): State
      reads this
    {
      State(entries, numItems, total, log)
    }

    constructor ()
      ensures Valid() && !ready && View() == INITIAL && nodes == {}
    {
      ready, top, numItems, total := false, null, 0, 0;
      items, entries, nodes, log := [], [], {}, [];
    }

    /** A second call forgets what the list held; the counters stay. */
    method Init()
      requires Valid()
      modifies this
      ensures Valid() && ready && top == null && nodes == old(nodes)
      ensures View() == old(View()).(entries := [])
    {
      ready, top := true, null;
      items, entries := [], [];
    }

    method Search(data: int, kind: Kind) returns (item: Item?)
      requires Valid() && ready
      ensures item == At(items, FirstMatch(entries, kind, data))
    {
      item := top;
      ghost var k := 0;
      while item != null
        invariant 0 <= k <= |items| && item == At(items, k)
        invariant forall j :: 0 <= j < k ==> !Matches(entries[j], kind, data)
        decreases |items| - k
      {
        match kind {
          case Socket => if Bits(item.data) == Bits(data) { return; }
          case Ptr => if item.data == data { return; }
        }
        item := item.next;
        k := k + 1;
      }
    }

    /** Rewrites the links around one node: the only node, the last, the first or one in between. */
    method Bypass(item: Item, ghost k: nat)
      requires Valid() && item == At(items, k)
      modifies `top, nodes
      ensures Bypassed(top, items, k)
      ensures forall x :: x in nodes ==> x.live == old(x.live)
    {
      Distinct(top, items);
      if item.next == null && item.prev == null {
        top := null;
      } else if item.next == null && item.prev != null {
        item.prev.next := null;
      } else if item.next != null && item.prev == null {
        item.next.prev := null;
        top := item.next;
      } else if item.next != null && item.prev != null {
        item.prev.next := item.next;
        item.next.prev := item.prev;
      }
    }

    method Unlink(item: Item, ghost k: nat)
      requires Valid() && item == At(items, k)
      modifies this, nodes
      ensures Valid() && nodes == old(nodes) && ready == old(ready)
      ensures View() == old(View()).(entries := Without(old(entries), k))
      ensures !item.live
    {
      Distinct(top, items);
      Bypass(item, k);
      BypassedDrop(top, items, k);
      ghost var rest := items[..k] + items[k+1..];
      assert forall i {:trigger rest[i]} :: 0 <= i < |rest| ==> rest[i] == items[if i < k then i else i + 1];
      items, entries := rest, Without(entries, k);
      item.Dispose();
    }

    method Remove(data: int, kind: Kind)
      requires Valid() && ready
      modifies this, nodes
      ensures Valid() && ready && nodes == old(nodes)
      ensures View() == old(View()).(entries := Removed(old(entries), kind, data))
    {
      var item := Search(data, kind);
      if item != null {
        Unlink(item, FirstMatch(entries, kind, data));
      }
    }

    /** `fits` tells whether there is memory for the node. Without it the registry is cleaned up and the
        program ends. */
    method Push(e: Entry, fits: bool) returns (exits: bool)
      requires Valid() && ready
      modifies this, nodes
      ensures Valid() && exits == !fits && ready == !exits && fresh(nodes - old(nodes))
      ensures View() == if exits then INITIAL.(log := old(log) + Releases(old(entries)))
                        else old(View()).(entries := [e] + old(entries))
    {
      exits := !fits;
      if exits {
        Cleanup();
      } else {
        Link(e);
      }
    }

    /** The new node in front of the others. */
    method Link(e: Entry)
      requires Valid() && ready
      modifies this, nodes
      ensures Valid() && ready && fresh(nodes - old(nodes))
      ensures View() == old(View()).(entries := [e] + old(entries))
    {
      Distinct(top, items);
      var item := new Item(e.kind, e.data);
      if top == null {
        top := item;
      } else {
        top.prev := item;
        item.next := top;
        top := item;
      }
      LinkedFront(item, items);
      items := [item] + items;
      nodes := nodes + {item};
      entries := [e] + entries;
    }

    /** What every call makes of the registry. */
    twostate predicate Performed(c: Call, fits: bool, exits: bool)
      reads this
    {
      (exits <==> Pushes(c) && !fits) && ready == !exits &&
      View() == if exits then Exit(old(View()), c) else Step(old(View()), c)
    }

    method Malloc(size: int, got: nat, fits: bool) returns (ptr: nat, exits: bool)
      requires Valid() && ready
      modifies this, nodes
      ensures Valid() && fresh(nodes - old(nodes)) && Performed(Call.Malloc(size, got), fits, exits)
      ensures ptr == got && (exits <==> got != 0 && !fits)
      ensures !exits ==> numItems == old(numItems) + 1 && total == old(total) + size && log == old(log)
      ensures !exits ==> entries == if got == 0 then old(entries) else [Entry(Ptr, got)] + old(entries)
    {
      numItems := numItems + 1;
      total := total + size;
      ptr, exits := got, false;
      if ptr != NULL {
        exits := Push(PtrEntry(ptr), fits);
      }
    }

    method Calloc(count: int, size: int, got: nat, fits: bool) returns (ptr: nat, exits: bool)
      requires Valid() && ready
      modifies this, nodes
      ensures Valid() && fresh(nodes - old(nodes)) && Performed(Call.Calloc(count, size, got), fits, exits)
      ensures ptr == got && (exits <==> got != 0 && !fits)
      ensures !exits ==> numItems == old(numItems) + 1 && total == old(total) + count * size && log == old(log)
      ensures !exits ==> entries == if got == 0 then old(entries) else [Entry(Ptr, got)] + old(entries)
    {
      numItems := numItems + 1;
      total := total + count * size;
      ptr, exits := got, false;
      if ptr != NULL {
        exits := Push(PtrEntry(ptr), fits);
      }
    }

    /** `got` is what `realloc` answers: NULL leaves the old block tracked, an unchanged address
        leaves the list alone, a new address replaces the old node. */
    method Realloc(from: nat, size: int, got: nat, fits: bool) returns (ptr: nat, exits: bool)
      requires Valid() && ready
      modifies this, nodes
      ensures Valid() && fresh(nodes - old(nodes)) && Performed(Call.Realloc(from, size, got), fits, exits)
      ensures ptr == got && (exits <==> got != 0 && got != from && !fits)
      ensures !exits ==> numItems == old(numItems) && total == old(total) + size && log == old(log)
      ensures !exits && (got == 0 || got == from) ==> entries == old(entries)
      ensures !exits && got != 0 && got != from ==>
        var k := FirstMatch(old(entries), Ptr, from);
        entries == [Entry(Ptr, got)] +
          if k < |old(entries)| then old(entries)[..k] + old(entries)[k + 1..] else old(entries)
    {
      total := total + size;
      ptr, exits := got, false;
      if ptr != NULL && ptr != from {
        Remove(from, Ptr);
        exits := Push(PtrEntry(ptr), fits);
      }
    }

    method Free(ptr: nat)
      requires Valid() && ready
      modifies this, nodes
      ensures Valid() && ready && nodes == old(nodes)
      ensures View() == Step(old(View()), Call.Free(ptr))
      ensures numItems == old(numItems) - 1 && total == old(total) && log == old(log) + [Mem(ptr)]
      ensures var k := FirstMatch(old(entries), Ptr, ptr);
        entries == if k < |old(entries)| then old(entries)[..k] + old(entries)[k + 1..] else old(entries)
    {
      numItems := numItems - 1;
      Remove(ptr, Ptr);
      log := log + [Mem(ptr)];
    }

    method OpenSocket(fd: int, junk: nat, fits: bool) returns (sock: int, exits: bool)
      requires Valid() && ready
      modifies this, nodes
      ensures Valid() && fresh(nodes - old(nodes)) && Performed(Call.OpenSocket(fd, junk), fits, exits)
      ensures sock == (if fd < 0 then -1 else fd) && (exits <==> fd >= 0 && !fits)
      ensures !exits ==> numItems == old(numItems) + 1 && total == old(total) && log == old(log)
      ensures !exits && fd < 0 ==> entries == old(entries)
      ensures !exits && 0 <= fd < 0x1_0000_0000 ==>
        entries == [Entry(Socket, fd + junk * 0x1_0000_0000)] + old(entries)
    {
      numItems := numItems + 1;
      if fd < 0 {
        return -1, false;
      }
      sock := fd;
      exits := Push(SocketEntry(fd, junk), fits);
    }

    method Accept(fd: int, junk: nat, fits: bool) returns (sock: int, exits: bool)
      requires Valid() && ready
      modifies this, nodes
      ensures Valid() && fresh(nodes - old(nodes)) && Performed(Call.Accept(fd, junk), fits, exits)
      ensures sock == (if fd < 0 then -1 else fd) && (exits <==> fd >= 0 && !fits)
      ensures !exits ==> numItems == old(numItems) + 1 && total == old(total) && log == old(log)
      ensures !exits && fd < 0 ==> entries == old(entries)
      ensures !exits && 0 <= fd < 0x1_0000_0000 ==>
        entries == [Entry(Socket, fd + junk * 0x1_0000_0000)] + old(entries)
    {
      numItems := numItems + 1;
      if fd < 0 {
        return -1, false;
      }
      sock := fd;
      exits := Push(SocketEntry(fd, junk), fits);
    }

    method Close(sock: int)
      requires Valid() && ready
      modifies this, nodes
      ensures Valid() && ready && nodes == old(nodes)
      ensures View() == Step(old(View()), Call.Close(sock))
      ensures numItems == old(numItems) - 1 && total == old(total)
      ensures log == old(log) + [Fd(sock % 0x1_0000_0000)]
      ensures var k := FirstMatch(old(entries), Socket, sock);
        entries == if k < |old(entries)| then old(entries)[..k] + old(entries)[k + 1..] else old(entries)
    {
      numItems := numItems - 1;
      Remove(sock, Socket);
      log := log + [Fd(Bits(sock))];
    }

    method Perform(c: Call, fits: bool) returns (exits: bool)
      requires Valid() && ready
      modifies this, nodes
      ensures Valid() && fresh(nodes - old(nodes)) && Performed(c, fits, exits)
    {
      exits := false;
      match c {
        case Malloc(size, got) =>
          var ptr;
          ptr, exits := Malloc(size, got, fits);
        case Calloc(count, size, got) =>
          var ptr;
          ptr, exits := Calloc(count, size, got, fits);
        case Realloc(from, size, got) =>
          var ptr;
          ptr, exits := Realloc(from, size, got, fits);
        case Free(ptr) => Free(ptr);
        case OpenSocket(fd, junk) =>
          var sock;
          sock, exits := OpenSocket(fd, junk, fits);
        case Accept(fd, junk) =>
          var sock;
          sock, exits := Accept(fd, junk, fits);
        case Close(fd) => Close(fd);
      }
    }

    /** Any sequence of calls, each with room for its node: the linked list does what the sequence of entries
        does. */
    method PerformAll(calls: seq<Call>)
      requires Valid() && ready
      modifies this, nodes
      ensures Valid() && ready && fresh(nodes - old(nodes))
      ensures View() == Run(old(View()), calls)
      decreases |calls|
    {
      if calls != [] {
        var exits := Perform(calls[0], true);
        PerformAll(calls[1..]);
      }
    }

    /** The switch of the cleanup loop: `close` for a socket, `free` for a block that is not null. */
    method GiveBack(item: Item)
      requires item.live
      modifies `log
      ensures log == old(log) + ReleasesOf(Entry(item.kind, item.data))
      ensures item.kind == Socket ==> log == old(log) + [Fd(item.data % 0x1_0000_0000)]
      ensures item.kind == Ptr ==> log == if item.data == 0 then old(log) else old(log) + [Mem(item.data)]
    {
      match item.kind {
        case Socket => log := log + [Fd(Bits(item.data))];
        case Ptr => if item.data != NULL { log := log + [Mem(item.data)]; }
      }
    }

    /** One turn of the cleanup loop: the successor is read first, then the node goes. */
    method ReleaseItem(item: Item) returns (next: Item?)
      requires item.live
      modifies `log, item`live
      ensures next == item.next && !item.live
      ensures log == old(log) + ReleasesOf(Entry(item.kind, item.data))
    {
      next := item.next;
      GiveBack(item);
      item.Dispose();
    }

    /** Gives back every tracked resource and every node. Each node is read while it is still live
        and disposed of once; the system sees the releases in list order. */
    method Cleanup()
      requires Valid() && ready
      modifies this, nodes
      ensures Valid() && !ready && nodes == old(nodes)
      ensures View() == INITIAL.(log := old(log) + Releases(old(entries)))
      ensures forall x :: x in old(items) ==> !x.live
    {
      Distinct(top, items);
      var item := top;
      ghost var k := 0;
      while item != null
        invariant 0 <= k <= |items| && items == old(items) && nodes == old(nodes) && item == At(items, k)
        invariant forall i {:trigger items[i].next} :: 0 <= i < |items| ==> items[i].next == At(items, i + 1)
        invariant forall i {:trigger items[i].live} :: 0 <= i < |items| ==> items[i].live == (k <= i)
        invariant entries == old(entries)
        invariant log + Releases(entries[k..]) == old(log) + Releases(entries)
        decreases |items| - k
      {
        ReleasesFrom(entries, k, log, old(log) + Releases(entries));
        item := ReleaseItem(item);
        k := k + 1;
      }
      assert entries[k..] == [];
      ready, top := false, null;
      items, entries := [], [];
      total, numItems := 0, 0;
    }
  }

  /** Replays any sequence of calls on a fresh registry and cleans it up: the system sees the
      releases the calls ask for, then one release for every entry still in the list. */
  method Lifetime(calls: seq<Call>) returns (gc: Gc)
    ensures fresh(gc) && gc.Valid() && !gc.ready && gc.top == null
    ensures var end := Run(INITIAL, calls); gc.View() == INITIAL.(log := end.log + Releases(end.entries))
  {
    gc := new Gc();
    gc.Init();
    gc.PerformAll(calls);
    gc.Cleanup();
  }
}
