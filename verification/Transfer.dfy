/** One file on its way from the client to the server: the sending loop of `ssds_send_file`, a byte
    stream that may be cut anywhere, and the server's loop of nested receives. The loops are modelled with
    failing reads and writes; in the two together the connection stays open and nothing fails. */
module Transfer {
  import opened Stdio
  import opened Receive

  /** The client's buffer. */
  const CHUNK: nat := 131072

  // ---------------------------------------------------------------- the server's loop

  /** `held` are the bytes of the full reads of the receive call in progress, `stored` what was written
      to the file before; `done` once the loop was left because all announced bytes were written. */
  datatype Server = Server(stored: string, held: string, done: bool)

  const IDLE := Server("", "", false)

  /** One read. A full one keeps the receive call going; any other ends it, and the server writes what
      the call returned and compares its count with the announced size. A failed read makes that one byte
      less than was gathered; when it is the first of its call there is nothing to write. */
  function OnRead(s: Server, r: Reading, size: int): Server {
    match r
    case Data(bytes) =>
      if |bytes| == MAX_INPUT_LEN then s.(held := s.held + bytes) else Wrote(s.stored + s.held + bytes, size)
    case Failed => Wrote(s.stored + OneShort(s.held), size)
  }

  function Wrote(stored: string, size: int): Server {
    Server(stored, "", |stored| == size)
  }

  function OneShort(t: string): string {
    if t == "" then "" else t[..|t| - 1]
  }

  /** What a receive call returns after `n` full reads and the one that ended it. */
  function Returned(script: seq<Reading>, n: nat): string
    requires n < |script|
  {
    var all := Gathered(script[..n + 1]);
    if script[n].Data? then all else OneShort(all)
  }

  function OnReads(s: Server, taken: seq<Reading>, size: int): Server
    decreases |taken|
  {
    if taken == [] then s
    else OnRead(OnReads(s, taken[..|taken| - 1], size), taken[|taken| - 1], size)
  }

  lemma OnReadsNext(s: Server, taken: seq<Reading>, i: nat, size: int)
    requires i < |taken|
    ensures OnReads(s, taken[..i + 1], size) == OnRead(OnReads(s, taken[..i], size), taken[i], size)
  {
    assert taken[..i + 1][..i] == taken[..i];
  }

  lemma OnReadsSnoc(s: Server, taken: seq<Reading>, r: Reading, size: int)
    ensures OnReads(s, taken + [r], size) == OnRead(OnReads(s, taken, size), r, size)
  {
    assert (taken + [r])[..|taken|] == taken;
  }

  predicate NoErrors(script: seq<Reading>) {
    forall i :: 0 <= i < |script| ==> script[i].Data?
  }

  lemma {:induction false} OnReadsConcat(s: Server, a: seq<Reading>, b: seq<Reading>, size: int)
    ensures OnReads(s, a + b, size) == OnReads(OnReads(s, a, size), b, size)
    decreases |b|
  {
    if b == [] {
      assert a + b == a;
    } else {
      assert (a + b)[..|a + b| - 1] == a + b[..|b| - 1];
      OnReadsConcat(s, a, b[..|b| - 1], size);
    }
  }

  /** The full reads of one receive call only pile up. */
  lemma {:induction false} FullReads(s: Server, script: seq<Reading>, n: nat, size: int)
    requires n <= |script| && s.held == ""
    requires forall i :: 0 <= i < n ==> Count(script[i]) == MAX_INPUT_LEN
    ensures OnReads(s, script[..n], size) == s.(held := Gathered(script[..n]))
  {
    if n > 0 {
      FullReads(s, script, n - 1, size);
      OnReadsNext(s, script, n - 1, size);
      GatheredNext(script, n - 1);
    }
  }

  /** One whole receive call, unless its first read fails. */
  lemma OneReceive(s: Server, script: seq<Reading>, n: nat, size: int)
    requires n < |script| && s.held == "" && n == Fulls(script, MAX_INPUT_LEN) && (n > 0 || script[n].Data?)
    ensures OnReads(s, script[..n + 1], size) == Wrote(s.stored + Returned(script, n), size)
  {
    FullReads(s, script, n, size);
    OnReadsNext(s, script, n, size);
    GatheredNext(script, n);
    var all := Gathered(script[..n]);
    if script[n].Data? {
      assert s.stored + all + script[n].bytes == s.stored + (all + script[n].bytes);
    } else {
      assert all + "" == all;
    }
  }

  /** How one turn of the loop goes: so many bytes were written, the receive call never returns, its first
      read failed, or the write fell short. */
  datatype Written = Bytes(count: int) | Waits | NotRead | NotWritten

  /** How the loop ends, or that it does not. */
  datatype Ending = Complete | Waiting | ReadFailed | WriteFailed

  /** Whether a disk with that many bytes left takes the content; `None` takes everything. */
  predicate Takes(room: Option<nat>, content: string) {
    room.Some? ==> |content| <= room.value
  }

  /** The loop of the SEND_* cases of `ssds_server_process`. `used` reads were made. When a receive call
      begins with a failed read the source goes on with a freed buffer; the model ends there. */
  method StoreFile(sock: Socket, out: File, size: int, room: Option<nat>) returns (ending: Ending, ghost used: nat)
    requires Fits(sock.script, MAX_INPUT_LEN) && out.content == ""
    modifies sock, out
    ensures var script := old(sock.script); used <= |script| && sock.script == script[used..]
    ensures Takes(room, out.content) && Ends(old(sock.script), used, size, room, ending, out.content)
  {
    ghost var script := sock.script;
    var bytesWritten := 0;
    used := 0;
    while true
      invariant used <= |script| && sock.script == script[used..]
      invariant OnReads(IDLE, script[..used], size) == Server(out.content, "", false)
      invariant bytesWritten == |out.content| && Takes(room, out.content)
      decreases |script| - used
    {
      var turn;
      turn, used := StoreTurn(sock, out, size, room, script, used);
      match turn {
        case Waits => return Waiting, used;
        case NotRead => return ReadFailed, used;
        case NotWritten => return WriteFailed, used;
        case Bytes(count) =>
          bytesWritten := bytesWritten + count;
          if bytesWritten == size {
            return Complete, used;
          }
      }
    }
  }

  /** What each ending means for the file, in terms of the reads that were made. */
  ghost predicate Ends(script: seq<Reading>, used: nat, size: int, room: Option<nat>, ending: Ending, content: string)
    requires used <= |script|
  {
    var s := OnReads(IDLE, script[..used], size);
    match ending
    case Complete => s == Server(content, "", true)
    case Waiting => used == |script| && !s.done && s.stored == content
    case ReadFailed =>
      used > 0 && script[used - 1].Failed? && OnReads(IDLE, script[..used - 1], size) == Server(content, "", false)
    case WriteFailed => !Takes(room, s.stored) && content == s.stored[..room.value]
  }

  /** A file that arrives in one read of less than 2000 bytes is stored at once; one that fills the read is
      held back, and the server waits for more. */
  method StoreOneRead(bytes: string) returns (ending: Ending, stored: string)
    requires |bytes| <= 2000
    ensures |bytes| < 2000 ==> ending == Complete && stored == bytes
    ensures |bytes| == 2000 ==> ending == Waiting && stored == ""
  {
    var script := [Data(bytes)];
    var sock := new Socket(script);
    var out := new File("");
    ghost var used;
    ending, used := StoreFile(sock, out, |bytes|, None);
    stored := out.content;
    OneRead(bytes);
    assert script[..0] == [] && script[..1] == script;
  }

  lemma OneRead(bytes: string)
    requires |bytes| <= 2000
    ensures OnReads(IDLE, [], |bytes|) == IDLE
    ensures OnReads(IDLE, [Data(bytes)], |bytes|) ==
            if |bytes| < 2000 then Server(bytes, "", true) else Server("", bytes, false)
  {
    assert [Data(bytes)][..0] == [];
    assert "" + "" + bytes == bytes && "" + bytes == bytes;
  }

  /** One turn of the loop, in terms of all reads. */
  method StoreTurn(sock: Socket, out: File, size: int, room: Option<nat>, ghost script: seq<Reading>, ghost used: nat)
    returns (turn: Written, ghost next: nat)
    requires Fits(script, MAX_INPUT_LEN) && used <= |script| && sock.script == script[used..]
    requires OnReads(IDLE, script[..used], size) == Server(out.content, "", false) && Takes(room, out.content)
    modifies sock, out
    ensures next <= |script| && sock.script == script[next..] && Takes(room, out.content)
    ensures match turn
      case Bytes(count) =>
        used < next && |out.content| == |old(out.content)| + count &&
        OnReads(IDLE, script[..next], size) == Server(out.content, "", |out.content| == size)
      case Waits => Ends(script, next, size, room, Waiting, out.content)
      case NotRead => Ends(script, next, size, room, ReadFailed, out.content)
      case NotWritten => Ends(script, next, size, room, WriteFailed, out.content)
  {
    ghost var rest := script[used..];
    ghost var n := Fulls(rest, MAX_INPUT_LEN);
    next := if n < |rest| then used + n + 1 else |script|;
    TurnReads(script, used, rest, n, next, out.content, size);
    turn := StoreOnce(sock, out, room);
  }

  lemma TurnReads(script: seq<Reading>, used: nat, rest: seq<Reading>, n: nat, next: nat, content: string, size: int)
    requires used <= |script| && rest == script[used..] && n == Fulls(rest, MAX_INPUT_LEN)
    requires next == if n < |rest| then used + n + 1 else |script|
    requires OnReads(IDLE, script[..used], size) == Server(content, "", false)
    ensures next <= |script| && (n < |rest| ==> rest[n + 1..] == script[next..])
    ensures if n == |rest| then OnReads(IDLE, script[..next], size) == Server(content, Gathered(rest), false)
            else if n > 0 || rest[0].Data? then
              OnReads(IDLE, script[..next], size) == Wrote(content + Returned(rest, n), size)
            else script[next - 1].Failed? && next - 1 == used
  {
    if n == |rest| {
      InReceive(script, used, rest, content, size);
      assert script[..|script|] == script;
    } else if n > 0 || rest[0].Data? {
      AfterReceive(script, used, rest, n, next, content, size);
    } else {
      assert rest[1..] == script[next..];
    }
  }

  /** One receive call and the write of what it returned. */
  method StoreOnce(sock: Socket, out: File, room: Option<nat>) returns (turn: Written)
    requires Fits(sock.script, MAX_INPUT_LEN) && Takes(room, out.content)
    modifies sock, out
    ensures var script := old(sock.script);
      var n := Fulls(script, MAX_INPUT_LEN);
      if n == |script| then turn == Waits && sock.script == [] && out.content == old(out.content)
      else
        sock.script == script[n + 1..] &&
        if n == 0 && script[0].Failed? then turn == NotRead && out.content == old(out.content)
        else
          var all := old(out.content) + Returned(script, n);
          if Takes(room, all) then turn == Bytes(|Returned(script, n)|) && out.content == all
          else turn == NotWritten && out.content == all[..room.value]
  {
    ghost var script := sock.script;
    ghost var n := Fulls(script, MAX_INPUT_LEN);
    var bytesRead, buffer, freed := RecvAsConfigured(sock);
    if bytesRead.None? {
      return Waits;
    }
    if freed {
      return NotRead;
    }
    CountedBytes(script, n, buffer);
    var all := out.content + buffer[..bytesRead.value];
    if Takes(room, all) {
      out.content := all;
      turn := Bytes(bytesRead.value);
    } else {
      out.content := all[..room.value];
      turn := NotWritten;
    }
  }

  /** The count that `sock_solv_recv` returns cuts what it returns out of its buffer. */
  lemma CountedBytes(script: seq<Reading>, n: nat, buffer: array<char>)
    requires n < |script| && Fits(script, MAX_INPUT_LEN) && n == Fulls(script, MAX_INPUT_LEN)
    requires (n > 0 || script[0].Data?) && Received(script, MAX_INPUT_LEN, n, buffer)
    ensures var count := n * MAX_INPUT_LEN + Count(script[n]);
            0 <= count == |Returned(script, n)| <= buffer.Length && buffer[..count] == Returned(script, n)
  {
    ReceivedMeans(script, MAX_INPUT_LEN, n, buffer);
    GatheredNext(script, n);
    FullLength(script, MAX_INPUT_LEN, n);
    var all := Gathered(script[..n + 1]);
    assert buffer[..|Returned(script, n)|] == buffer[..|all|][..|Returned(script, n)|];
  }

  /** A receive call that starts at read `used` and returns. */
  lemma AfterReceive(script: seq<Reading>, used: nat, rest: seq<Reading>, n: nat, next: nat, content: string, size: int)
    requires used <= |script| && rest == script[used..] && n == Fulls(rest, MAX_INPUT_LEN) && n < |rest|
    requires n > 0 || rest[n].Data?
    requires next == used + n + 1 && OnReads(IDLE, script[..used], size) == Server(content, "", false)
    ensures next <= |script| && rest[n + 1..] == script[next..]
    ensures OnReads(IDLE, script[..next], size) == Wrote(content + Returned(rest, n), size)
  {
    OneReceive(Server(content, "", false), rest, n, size);
    assert rest[..n + 1] == script[used..next];
    Splice(script, used, rest[..n + 1], next, size);
  }

  /** A receive call that starts at read `used` and waits for more. */
  lemma InReceive(script: seq<Reading>, used: nat, rest: seq<Reading>, content: string, size: int)
    requires used <= |script| && rest == script[used..] && |rest| == Fulls(rest, MAX_INPUT_LEN)
    requires OnReads(IDLE, script[..used], size) == Server(content, "", false)
    ensures OnReads(IDLE, script, size) == Server(content, Gathered(rest), false)
  {
    FullReads(Server(content, "", false), rest, |rest|, size);
    assert rest[..|rest|] == rest && script[..|script|] == script;
    Splice(script, used, rest, |script|, size);
  }

  lemma Splice(script: seq<Reading>, used: nat, more: seq<Reading>, next: nat, size: int)
    requires used <= next <= |script| && more == script[used..next]
    ensures OnReads(IDLE, script[..next], size) == OnReads(OnReads(IDLE, script[..used], size), more, size)
  {
    assert script[..next] == script[..used] + more;
    OnReadsConcat(IDLE, script[..used], more, size);
  }

  /** A client that has gone away: from then on every read returns no data. The first such read ends the
      receive call in progress; the server leaves its loop exactly when that makes the count right, and
      otherwise reads on for ever. */
  lemma {:induction false} ClosedConnection(s: Server, size: int, n: nat)
    requires n > 0
    ensures OnReads(s, seq(n, _ => Data("")), size) ==
            Server(s.stored + s.held, "", |s.stored| + |s.held| == size)
  {
    var nothing := seq(n, _ => Data(""));
    assert nothing[..n - 1] == seq(n - 1, _ => Data(""));
    assert s.stored + s.held + "" == s.stored + s.held == s.stored + s.held + "" + "";
    if n > 1 {
      ClosedConnection(s, size, n - 1);
    } else {
      assert nothing[..0] == [];
    }
  }

  /** How many receive calls were ended by a failed read after full ones. */
  function Lost(s: Server, taken: seq<Reading>, size: int): nat
    decreases |taken|
  {
    if taken == [] then 0
    else
      var front, last := taken[..|taken| - 1], taken[|taken| - 1];
      Lost(s, front, size) + (if last.Failed? && OnReads(s, front, size).held != "" then 1 else 0)
  }

  /** Each of them loses one byte for good. */
  lemma {:induction false} LostBytes(s: Server, taken: seq<Reading>, size: int)
    ensures var end := OnReads(s, taken, size);
            |end.stored| + |end.held| + Lost(s, taken, size) == |s.stored| + |s.held| + |Gathered(taken)|
    decreases |taken|
  {
    if taken != [] {
      LostBytes(s, taken[..|taken| - 1], size);
    }
  }

  lemma {:induction false} DoneIsExact(taken: seq<Reading>, size: int)
    ensures OnReads(IDLE, taken, size).done ==> |OnReads(IDLE, taken, size).stored| == size
    decreases |taken|
  {
    if taken != [] {
      DoneIsExact(taken[..|taken| - 1], size);
    }
  }

  /** When a byte was lost and no more arrive than were announced, the count never becomes right: the server
      does not leave its loop by the equality test. */
  lemma LostByteSpins(taken: seq<Reading>, size: int)
    requires |Gathered(taken)| <= size && Lost(IDLE, taken, size) > 0
    ensures !OnReads(IDLE, taken, size).done && |OnReads(IDLE, taken, size).stored| < size
  {
    LostBytes(IDLE, taken, size);
    DoneIsExact(taken, size);
  }

  // ---------------------------------------------------------------- the client's loop

  function Concat(writes: seq<string>): string {
    if writes == [] then "" else Concat(writes[..|writes| - 1]) + writes[|writes| - 1]
  }

  lemma ConcatSnoc(writes: seq<string>, piece: string)
    ensures Concat(writes + [piece]) == Concat(writes) + piece
  {
    assert (writes + [piece])[..|writes|] == writes;
  }

  predicate AllFull(writes: seq<string>) {
    forall i :: 0 <= i < |writes| ==> |writes[i]| == CHUNK
  }

  /** Full chunks, then possibly one shorter piece that is not empty. */
  predicate Chunked(writes: seq<string>) {
    writes != [] ==> AllFull(writes[..|writes| - 1]) && 0 < |writes[|writes| - 1]| <= CHUNK
  }

  /** The writes carry the first `pos` bytes of the content, in full chunks as long as some are left. */
  predicate Sent(content: string, pos: nat, writes: seq<string>) {
    pos <= |content| && Concat(writes) == content[..pos] && Chunked(writes) && (pos < |content| ==> AllFull(writes))
  }

  lemma OneMore(content: string, pos: nat, writes: seq<string>, piece: string, end: nat)
    requires Sent(content, pos, writes) && pos < end <= |content| && piece == content[pos..end]
    requires end - pos <= CHUNK && (end < |content| ==> end - pos == CHUNK)
    ensures Sent(content, end, writes + [piece])
  {
    ConcatSnoc(writes, piece);
    assert content[..end] == content[..pos] + piece;
    assert (writes + [piece])[..|writes|] == writes;
  }

  /** `fread(buffer, 1, CHUNK, f)`. */
  method Fread(f: File) returns (piece: string)
    requires f.pos <= |f.content|
    modifies f`pos
    ensures f.pos == if |f.content| - old(f.pos) < 131072 then |f.content| else old(f.pos) + 131072
    ensures piece == f.content[old(f.pos)..f.pos]
  {
    var end := if |f.content| - f.pos < CHUNK then |f.content| else f.pos + CHUNK;
    piece := f.content[f.pos..end];
    f.pos := end;
  }

  /** Reads until nothing is left; every piece is written to the socket. */
  method SendFile(f: File) returns (writes: seq<string>)
    requires f.pos == 0
    modifies f`pos
    ensures Concat(writes) == f.content && Chunked(writes)
    ensures forall i :: 0 <= i < |writes| - 1 ==> |writes[i]| == 131072
    ensures writes != [] ==> 1 <= |writes[|writes| - 1]| <= 131072
  {
    writes := [];
    var piece := Fread(f);
    while piece != ""
      invariant f.pos <= |f.content| && |piece| <= f.pos && piece == f.content[f.pos - |piece|..f.pos]
      invariant |piece| <= CHUNK && (f.pos < |f.content| ==> |piece| == CHUNK)
      invariant Sent(f.content, f.pos - |piece|, writes)
      decreases |f.content| - f.pos + |piece|
    {
      OneMore(f.content, f.pos - |piece|, writes, piece, f.pos);
      writes := writes + [piece];
      piece := Fread(f);
    }
  }

  // ---------------------------------------------------------------- the two together

  /** `sent` bytes were written by the client, `wire` are those not read yet, `reads` all reads so far.
      `ended`: the client has met the end of its file and waits for the reply. */
  datatype Sys = Sys(sent: nat, ended: bool, wire: string, taken: seq<Reading>, server: Server,
                     replied: bool, finished: bool)

  const BEGIN := Sys(0, false, "", [], IDLE, false, false)

  /** Send: one piece of the file. End: the read at the end of the file. Recv: a read of the server that
      returns `n` bytes. Reply: the answer of the server. Finish: the client has it. */
  datatype Action = Send | End | Recv(n: nat) | Reply | Finish

  function Piece(file: string, sent: nat): nat {
    if sent + CHUNK <= |file| then CHUNK else if sent <= |file| then |file| - sent else 0
  }

  predicate Enabled(file: string, s: Sys, a: Action) {
    match a
    case Send => !s.ended && s.sent < |file|
    case End => !s.ended && s.sent == |file|
    case Recv(n) => !s.server.done && 1 <= n <= MAX_INPUT_LEN && n <= |s.wire|
    case Reply => s.server.done && !s.replied
    case Finish => s.ended && s.replied && !s.finished
  }

  function Apply(file: string, s: Sys, a: Action): Sys
    requires Enabled(file, s, a)
  {
    match a
    case Send =>
      var n := Piece(file, s.sent);
      s.(wire := s.wire + file[s.sent..s.sent + n], sent := s.sent + n)
    case End => s.(ended := true)
    case Recv(n) =>
      var r := Data(s.wire[..n]);
      s.(wire := s.wire[n..], taken := s.taken + [r], server := OnRead(s.server, r, |file|))
    case Reply => s.(replied := true)
    case Finish => s.(finished := true)
  }

  predicate Runs(file: string, s: Sys, acts: seq<Action>)
    decreases |acts|
  {
    acts == [] || (Enabled(file, s, acts[0]) && Runs(file, Apply(file, s, acts[0]), acts[1..]))
  }

  function After(file: string, s: Sys, acts: seq<Action>): Sys
    requires Runs(file, s, acts)
    decreases |acts|
  {
    if acts == [] then s else After(file, Apply(file, s, acts[0]), acts[1..])
  }

  /** What the Send steps of a run write to the socket. */
  function Writes(file: string, s: Sys, acts: seq<Action>): seq<string>
    requires Runs(file, s, acts)
    decreases |acts|
  {
    if acts == [] then []
    else (if acts[0].Send? && s.sent <= |file| then [file[s.sent..s.sent + Piece(file, s.sent)]] else []) +
         Writes(file, Apply(file, s, acts[0]), acts[1..])
  }

  predicate LastFull(taken: seq<Reading>) {
    taken != [] && Count(taken[|taken| - 1]) == MAX_INPUT_LEN
  }

  ghost predicate Inv(file: string, s: Sys) {
    s.sent <= |file| &&
    s.server.stored + s.server.held + s.wire == file[..s.sent] &&
    s.server == OnReads(IDLE, s.taken, |file|) &&
    (if s.server.done then s.server.stored == file && s.server.held == "" && file != ""
     else |s.server.stored| < |file| || file == "") &&
    (s.taken != [] ==> file != "") &&
    (LastFull(s.taken) <==> s.server.held != "") &&
    (s.server.held != "" ==> |s.server.held| >= MAX_INPUT_LEN) &&
    (s.ended ==> s.sent == |file|) &&
    (s.replied ==> s.server.done) &&
    (s.finished ==> s.ended && s.replied)
  }

  lemma Cut(stored: string, held: string, wire: string, n: nat, all: string)
    requires n <= |wire| && stored + held + wire == all
    ensures stored + (held + wire[..n]) + wire[n..] == all
    ensures (stored + held + wire[..n]) + "" + wire[n..] == all
  {
    assert wire == wire[..n] + wire[n..];
  }

  lemma RecvKeeps(file: string, s: Sys, n: nat)
    requires Inv(file, s) && Enabled(file, s, Recv(n))
    ensures Inv(file, Apply(file, s, Recv(n)))
  {
    OnReadsSnoc(IDLE, s.taken, Data(s.wire[..n]), |file|);
    Cut(s.server.stored, s.server.held, s.wire, n, file[..s.sent]);
    var s' := Apply(file, s, Recv(n));
    assert s'.taken[|s.taken|] == Data(s.wire[..n]);
    AllThere(file, s.sent, s'.server.stored, s'.server.held, s'.wire);
  }

  /** As many bytes as the file has are the file. */
  lemma AllThere(file: string, sent: nat, stored: string, held: string, wire: string)
    requires sent <= |file| && stored + held + wire == file[..sent]
    ensures |stored| <= |file| && (|stored| == |file| ==> stored == file && held == "" && wire == "")
  {
    assert |stored + held + wire| == |stored| + |held| + |wire|;
    if |stored| == |file| {
      assert file[..sent] == file && stored + "" + "" == stored;
    }
  }

  lemma StepKeeps(file: string, s: Sys, a: Action)
    requires Inv(file, s) && Enabled(file, s, a)
    ensures Inv(file, Apply(file, s, a))
  {
    match a {
      case Send =>
        var n := Piece(file, s.sent);
        assert file[..s.sent + n] == file[..s.sent] + file[s.sent..s.sent + n];
        var front := s.server.stored + s.server.held;
        assert front + (s.wire + file[s.sent..s.sent + n]) == (front + s.wire) + file[s.sent..s.sent + n];
      case Recv(n) => RecvKeeps(file, s, n);
      case _ =>
    }
  }

  lemma {:induction false} RunKeeps(file: string, s: Sys, acts: seq<Action>)
    requires Inv(file, s) && Runs(file, s, acts)
    ensures Inv(file, After(file, s, acts))
    decreases |acts|
  {
    if acts != [] {
      StepKeeps(file, s, acts[0]);
      RunKeeps(file, Apply(file, s, acts[0]), acts[1..]);
    }
  }

  /** Whatever the order of steps and however the stream is cut, the server's file is a prefix of the
      client's, the count never exceeds the announced size, and a loop left by the equality test has
      stored the file exactly. */
  lemma Safety(file: string, acts: seq<Action>)
    requires Runs(file, BEGIN, acts)
    ensures var s := After(file, BEGIN, acts);
            s.server.stored <= file && |s.server.stored| <= |file| &&
            (s.server.done ==> s.server.stored == file) && (s.finished ==> s.server.stored == file) &&
            s.server == OnReads(IDLE, s.taken, |file|)
  {
    RunKeeps(file, BEGIN, acts);
    var s := After(file, BEGIN, acts);
    assert s.server.stored <= s.server.stored + s.server.held + s.wire;
  }

  // ---------------------------------------------------------------- progress

  ghost predicate Stuck(file: string, s: Sys) {
    !s.finished && forall a :: !Enabled(file, s, a)
  }

  /** The states without a next step: the client waits for its answer, everything was delivered, and
      either the file is empty or the last read was full, so that the receive call waits for more. */
  lemma StuckIff(file: string, s: Sys)
    requires Inv(file, s)
    ensures Stuck(file, s) <==>
      s.ended && s.wire == "" && (file == "" || (s.taken != [] && Count(s.taken[|s.taken| - 1]) == 2000))
  {
    if Stuck(file, s) {
      assert !Enabled(file, s, Send) && !Enabled(file, s, End);
      assert !Enabled(file, s, Reply) && !Enabled(file, s, Finish);
      assert !Enabled(file, s, Recv(1));
      assert file[..s.sent] == file;
    }
  }

  function Measure(file: string, s: Sys): int {
    2 * (|file| - s.sent) + |s.wire| + (if s.ended then 0 else 1) + (if s.replied then 0 else 1) +
    (if s.finished then 0 else 1)
  }

  lemma StepDecreases(file: string, s: Sys, a: Action)
    requires Inv(file, s) && Enabled(file, s, a)
    ensures 0 <= Measure(file, Apply(file, s, a)) < Measure(file, s)
  {
    StepKeeps(file, s, a);
  }

  lemma {:induction false} RunShort(file: string, s: Sys, acts: seq<Action>)
    requires Inv(file, s) && Runs(file, s, acts)
    ensures |acts| <= Measure(file, s)
    decreases |acts|
  {
    if acts != [] {
      StepKeeps(file, s, acts[0]);
      StepDecreases(file, s, acts[0]);
      RunShort(file, Apply(file, s, acts[0]), acts[1..]);
    }
  }

  /** Every run ends after at most `2 * |file| + 3` steps. A run that cannot go on has finished, with the
      file stored, if and only if the file is not empty and the last read was short. */
  lemma Outcome(file: string, acts: seq<Action>)
    requires Runs(file, BEGIN, acts)
    ensures |acts| <= 2 * |file| + 3
    ensures var s := After(file, BEGIN, acts);
            (forall a :: !Enabled(file, s, a)) ==>
              (s.finished <==> file != "" && !(s.taken != [] && Count(s.taken[|s.taken| - 1]) == 2000)) &&
              (s.finished ==> s.server.stored == file)
  {
    RunShort(file, BEGIN, acts);
    RunKeeps(file, BEGIN, acts);
    StuckIff(file, After(file, BEGIN, acts));
  }

  /** A client that leaves once the server has read everything sent: the server leaves its loop if and
      only if the whole file was sent. A transfer that hangs thus ends well when the client gives up. */
  lemma ClientGone(file: string, s: Sys, n: nat)
    requires Inv(file, s) && s.wire == "" && n > 0
    ensures OnReads(IDLE, s.taken + seq(n, _ => Data("")), |file|) ==
            Server(file[..s.sent], "", s.sent == |file|)
  {
    OnReadsConcat(IDLE, s.taken, seq(n, _ => Data("")), |file|);
    ClosedConnection(s.server, |file|, n);
    assert s.server.stored + s.server.held + "" == s.server.stored + s.server.held;
  }

  // ---------------------------------------------------------------- the loops in a run

  /** The Send steps of a run write full chunks and a last piece, in the order of the file. */
  lemma {:induction false} WritesSent(file: string, s: Sys, acts: seq<Action>, before: seq<string>)
    requires Runs(file, s, acts) && Sent(file, s.sent, before)
    ensures Sent(file, After(file, s, acts).sent, before + Writes(file, s, acts))
    decreases |acts|
  {
    if acts == [] {
      assert before + [] == before;
    } else {
      var s', rest := Apply(file, s, acts[0]), Writes(file, Apply(file, s, acts[0]), acts[1..]);
      if acts[0].Send? {
        var piece := file[s.sent..s'.sent];
        OneMore(file, s.sent, before, piece, s'.sent);
        WritesSent(file, s', acts[1..], before + [piece]);
        assert before + [piece] + rest == before + ([piece] + rest);
      } else {
        WritesSent(file, s', acts[1..], before);
        assert [] + rest == rest;
      }
    }
  }

  lemma {:induction false} FullWrites(writes: seq<string>)
    requires AllFull(writes)
    ensures |Concat(writes)| == |writes| * CHUNK
  {
    if writes != [] {
      FullWrites(writes[..|writes| - 1]);
    }
  }

  lemma {:induction false} FullWritesUnique(a: seq<string>, b: seq<string>)
    requires AllFull(a) && AllFull(b) && |a| == |b| && Concat(a) == Concat(b)
    ensures a == b
    decreases |a|
  {
    if a != [] {
      var n := |a| - 1;
      FullWrites(a[..n]);
      FullWrites(b[..n]);
      Parts(Concat(a[..n]), a[n], Concat(b[..n]), b[n]);
      FullWritesUnique(a[..n], b[..n]);
      assert a == a[..n] + [a[n]] && b == b[..n] + [b[n]];
    }
  }

  lemma Parts(a: string, b: string, c: string, d: string)
    requires a + b == c + d && |a| == |c|
    ensures a == c && b == d
  {
    assert a == (a + b)[..|a|] && c == (c + d)[..|c|];
    assert b == (a + b)[|a|..] && d == (c + d)[|c|..];
  }

  /** A text can be cut into chunks in one way only. */
  lemma ChunksUnique(a: seq<string>, b: seq<string>)
    requires Chunked(a) && Chunked(b) && Concat(a) == Concat(b)
    ensures a == b
  {
    if a != [] && b != [] {
      var m, n := |a| - 1, |b| - 1;
      FullWrites(a[..m]);
      FullWrites(b[..n]);
      assert m * CHUNK + |a[m]| == n * CHUNK + |b[n]|;
      SameCount(m, n, |a[m]|, |b[n]|);
      Parts(Concat(a[..m]), a[m], Concat(b[..n]), b[n]);
      FullWritesUnique(a[..m], b[..n]);
      assert a == a[..m] + [a[m]] && b == b[..n] + [b[n]];
    }
  }

  lemma SameCount(m: nat, n: nat, x: nat, y: nat)
    requires m * CHUNK + x == n * CHUNK + y && 0 < x <= CHUNK && 0 < y <= CHUNK
    ensures m == n && x == y
  {
  }

  /** The sending loop writes what the Send steps of any run to its end write. */
  method SendInRun(f: File, ghost acts: seq<Action>) returns (writes: seq<string>)
    requires f.pos == 0 && Runs(f.content, BEGIN, acts) && After(f.content, BEGIN, acts).ended
    modifies f`pos
    ensures writes == Writes(f.content, BEGIN, acts)
  {
    writes := SendFile(f);
    ghost var file, steps := f.content, Writes(f.content, BEGIN, acts);
    WritesSent(file, BEGIN, acts, []);
    RunKeeps(file, BEGIN, acts);
    assert [] + steps == steps && file[..|file|] == file;
    ChunksUnique(writes, steps);
  }

  /** What a run leaves for the receiving loop: reads that fit, none behind the end of the loop. */
  ghost predicate Readable(file: string, s: Sys) {
    Fits(s.taken, MAX_INPUT_LEN) && NoErrors(s.taken) && s.server == OnReads(IDLE, s.taken, |file|) &&
    forall i :: 0 <= i < |s.taken| ==> !OnReads(IDLE, s.taken[..i], |file|).done
  }

  lemma ReadableStep(file: string, s: Sys, a: Action)
    requires Readable(file, s) && Enabled(file, s, a)
    ensures Readable(file, Apply(file, s, a))
  {
    if a.Recv? {
      var r := Data(s.wire[..a.n]);
      OnReadsSnoc(IDLE, s.taken, r, |file|);
      NotDoneBefore(s.taken, r, |file|);
    }
  }

  lemma NotDoneBefore(taken: seq<Reading>, r: Reading, size: int)
    requires forall i :: 0 <= i < |taken| ==> !OnReads(IDLE, taken[..i], size).done
    requires !OnReads(IDLE, taken, size).done
    ensures forall i :: 0 <= i < |taken + [r]| ==> !OnReads(IDLE, (taken + [r])[..i], size).done
  {
    forall i | 0 <= i < |taken + [r]|
      ensures !OnReads(IDLE, (taken + [r])[..i], size).done
    {
      assert (taken + [r])[..i] == taken[..i];
      if i == |taken| {
        assert taken[..i] == taken;
      }
    }
  }

  lemma {:induction false} ReadableRun(file: string, s: Sys, acts: seq<Action>)
    requires Readable(file, s) && Runs(file, s, acts)
    ensures Readable(file, After(file, s, acts))
    decreases |acts|
  {
    if acts != [] {
      ReadableStep(file, s, acts[0]);
      ReadableRun(file, Apply(file, s, acts[0]), acts[1..]);
    }
  }

  /** The server's loop on the reads of any run ends with what the run's server holds. */
  method StoreInRun(file: string, acts: seq<Action>) returns (done: bool, stored: string)
    requires Runs(file, BEGIN, acts)
    ensures var s := After(file, BEGIN, acts).server;
            done == s.done && stored == s.stored && stored <= file && (done ==> stored == file)
  {
    ReadableRun(file, BEGIN, acts);
    Safety(file, acts);
    var taken := After(file, BEGIN, acts).taken;
    var sock := new Socket(taken);
    var out := new File("");
    ghost var used;
    var ending;
    ending, used := StoreFile(sock, out, |file|, None);
    assert taken[..|taken|] == taken;
    done, stored := ending == Complete, out.content;
  }

  // ---------------------------------------------------------------- which files can hang

  lemma {:induction false} RunsConcat(file: string, s: Sys, a: seq<Action>, b: seq<Action>)
    requires Runs(file, s, a) && Runs(file, After(file, s, a), b)
    ensures Runs(file, s, a + b) && After(file, s, a + b) == After(file, After(file, s, a), b)
    decreases |a|
  {
    if a == [] {
      assert a + b == b;
    } else {
      assert (a + b)[1..] == a[1..] + b;
      RunsConcat(file, Apply(file, s, a[0]), a[1..], b);
    }
  }

  lemma RunOne(file: string, s: Sys, a: Action)
    requires Enabled(file, s, a)
    ensures Runs(file, s, [a]) && After(file, s, [a]) == Apply(file, s, a)
  {
    assert [a][1..] == [];
  }

  /** The client may deliver its whole file before the server reads anything. */
  lemma {:induction false} Deliver(file: string, sent: nat) returns (acts: seq<Action>)
    requires sent <= |file|
    ensures var s := BEGIN.(sent := sent, wire := file[..sent]);
            Runs(file, s, acts) &&
            After(file, s, acts) == BEGIN.(sent := |file|, wire := file, ended := true)
    decreases |file| - sent
  {
    var s := BEGIN.(sent := sent, wire := file[..sent]);
    if sent == |file| {
      acts := [End];
      assert file[..sent] == file;
      RunOne(file, s, End);
    } else {
      var n := Piece(file, sent);
      assert file[..sent + n] == file[..sent] + file[sent..sent + n];
      var rest := Deliver(file, sent + n);
      acts := [Send] + rest;
      assert acts[1..] == rest;
    }
  }

  /** The server may take single bytes as long as some remain. */
  lemma {:induction false} Dribble(file: string, s: Sys, n: nat) returns (acts: seq<Action>)
    requires Inv(file, s) && s.ended && !s.server.done && s.server.held == "" && n < |s.wire|
    ensures Runs(file, s, acts)
    ensures var s' := After(file, s, acts);
            Inv(file, s') && s'.ended && !s'.server.done && s'.server.held == "" && |s'.wire| == |s.wire| - n
    decreases n
  {
    if n == 0 {
      acts := [];
    } else {
      var s1 := Apply(file, s, Recv(1));
      RecvKeeps(file, s, 1);
      assert file[..s.sent] == file;
      assert |s1.server.stored + s1.server.held + s1.wire| == |file|;
      var rest := Dribble(file, s1, n - 1);
      acts := [Recv(1)] + rest;
      assert acts[1..] == rest;
    }
  }

  /** A run in which the server has read and stored the first `n` bytes one by one. */
  lemma DribbleFrom(file: string, n: nat) returns (acts: seq<Action>)
    requires n < |file|
    ensures Runs(file, BEGIN, acts)
    ensures var s := After(file, BEGIN, acts);
            Inv(file, s) && s.ended && !s.server.done && s.server.held == "" && |s.wire| == |file| - n
  {
    assert file[..0] == "";
    acts := Deliver(file, 0);
    RunKeeps(file, BEGIN, acts);
    var bytes := Dribble(file, After(file, BEGIN, acts), n);
    RunsConcat(file, BEGIN, acts, bytes);
    acts := acts + bytes;
  }

  lemma Then(file: string, acts: seq<Action>, a: Action) returns (more: seq<Action>)
    requires Runs(file, BEGIN, acts) && Enabled(file, After(file, BEGIN, acts), a)
    ensures Runs(file, BEGIN, more) && After(file, BEGIN, more) == Apply(file, After(file, BEGIN, acts), a)
  {
    RunOne(file, After(file, BEGIN, acts), a);
    RunsConcat(file, BEGIN, acts, [a]);
    more := acts + [a];
  }

  lemma StoringRun(file: string) returns (acts: seq<Action>)
    requires file != ""
    ensures Runs(file, BEGIN, acts)
    ensures var s := After(file, BEGIN, acts); Inv(file, s) && s.ended && s.server.done && !s.replied && !s.finished
  {
    acts := DribbleFrom(file, |file| - 1);
    var s := After(file, BEGIN, acts);
    var s' := Apply(file, s, Recv(1));
    RecvKeeps(file, s, 1);
    assert file[..s.sent] == file;
    assert |s'.server.stored + s'.server.held + s'.wire| == |file|;
    acts := Then(file, acts, Recv(1));
  }

  ghost predicate CanFinish(file: string) {
    exists acts :: Runs(file, BEGIN, acts) && After(file, BEGIN, acts).finished
  }

  /** Some transfer of the file succeeds if and only if the file is not empty. */
  lemma CanFinishIff(file: string)
    ensures CanFinish(file) <==> file != ""
  {
    if CanFinish(file) {
      var acts :| Runs(file, BEGIN, acts) && After(file, BEGIN, acts).finished;
      RunKeeps(file, BEGIN, acts);
    } else if file != "" {
      var acts := StoringRun(file);
      acts := Then(file, acts, Reply);
      acts := Then(file, acts, Finish);
    }
  }

  ghost predicate CanStore(file: string, stored: string) {
    exists acts :: Runs(file, BEGIN, acts) && After(file, BEGIN, acts).server.stored == stored
  }

  /** At some point of some run the server's file is any given prefix of the client's. */
  lemma CanStoreIff(file: string, stored: string)
    ensures CanStore(file, stored) <==> stored <= file
  {
    if CanStore(file, stored) {
      var acts :| Runs(file, BEGIN, acts) && After(file, BEGIN, acts).server.stored == stored;
      Safety(file, acts);
    }
    if stored <= file {
      var acts := PrefixRun(file, stored);
    }
  }

  lemma PrefixRun(file: string, stored: string) returns (acts: seq<Action>)
    requires stored <= file
    ensures Runs(file, BEGIN, acts) && After(file, BEGIN, acts).server.stored == stored
  {
    if stored == "" {
      acts := [];
    } else if stored == file {
      acts := StoringRun(file);
    } else {
      acts := DribbleFrom(file, |stored|);
      var s := After(file, BEGIN, acts);
      assert file[..s.sent] == file && s.server.stored + "" + s.wire == s.server.stored + s.wire;
      assert s.server.stored == file[..|stored|];
    }
  }

  ghost predicate CanHang(file: string) {
    exists acts :: Runs(file, BEGIN, acts) && Stuck(file, After(file, BEGIN, acts))
  }

  lemma HangingRun(file: string) returns (acts: seq<Action>)
    requires file == "" || |file| >= MAX_INPUT_LEN
    ensures Runs(file, BEGIN, acts) && Stuck(file, After(file, BEGIN, acts))
  {
    if file == "" {
      assert file[..0] == "";
      acts := Deliver(file, 0);
    } else {
      acts := DribbleFrom(file, |file| - MAX_INPUT_LEN);
      acts := Then(file, acts, Recv(MAX_INPUT_LEN));
    }
    RunKeeps(file, BEGIN, acts);
    StuckIff(file, After(file, BEGIN, acts));
  }

  /** A transfer can hang if and only if the file is empty or has at least 2000 bytes. */
  lemma HangIff(file: string)
    ensures CanHang(file) <==> |file| == 0 || |file| >= 2000
  {
    if CanHang(file) {
      var acts :| Runs(file, BEGIN, acts) && Stuck(file, After(file, BEGIN, acts));
      RunKeeps(file, BEGIN, acts);
      StuckIff(file, After(file, BEGIN, acts));
    } else if file == "" || |file| >= MAX_INPUT_LEN {
      var acts := HangingRun(file);
    }
  }
}
