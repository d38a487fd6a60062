/** The chunked receive of network_util.c: reads of at most `M` bytes, gathered in a buffer that grows
    by `B` bytes at a time. `B` is any positive multiple of `M`; both are 2000 as configured. */
module Receive {
  import opened Stdio

  const MAX_INPUT_LEN: nat := 2000
  const BUFF_SIZE: nat := 2000

  /** The answer to one `ssds_read`; no data at all means the peer has closed the connection. */
  datatype Reading = Data(bytes: string) | Failed

  /** The number returned by the read. */
  function Count(r: Reading): int {
    match r
    case Data(bytes) => |bytes|
    case Failed => -1
  }

  predicate Fits(script: seq<Reading>, M: nat) {
    forall i :: 0 <= i < |script| ==> Count(script[i]) <= M
  }

  function Gathered(script: seq<Reading>): string {
    if script == [] then ""
    else
      var last := script[|script| - 1];
      Gathered(script[..|script| - 1]) + (if last.Data? then last.bytes else "")
  }

  /** How many reads come back full before the first that does not. */
  function Fulls(script: seq<Reading>, M: nat): (n: nat)
    ensures n <= |script|
    ensures n < |script| ==> Count(script[n]) != M
    ensures forall i :: 0 <= i < n ==> Count(script[i]) == M
  {
    if script == [] || Count(script[0]) != M then 0 else 1 + Fulls(script[1..], M)
  }

  function Zeros(n: nat): (z: string)
    ensures |z| == n
  {
    seq(n, _ => '\0')
  }

  lemma FullsIs(script: seq<Reading>, M: nat, n: nat)
    requires n <= |script| && (n < |script| ==> Count(script[n]) != M)
    requires forall i :: 0 <= i < n ==> Count(script[i]) == M
    ensures Fulls(script, M) == n
  {
    assert !(Fulls(script, M) < n);
  }

  lemma GatheredNext(script: seq<Reading>, i: nat)
    requires i < |script|
    ensures Gathered(script[..i + 1]) == Gathered(script[..i]) + (if script[i].Data? then script[i].bytes else "")
  {
    assert script[..i + 1][..i] == script[..i];
  }

  lemma {:induction false} FullLength(script: seq<Reading>, M: nat, n: nat)
    requires n <= |script| && forall i :: 0 <= i < n ==> Count(script[i]) == M
    ensures |Gathered(script[..n])| == n * M
  {
    if n > 0 {
      FullLength(script, M, n - 1);
      GatheredNext(script, n - 1);
    }
  }

  // ---------------------------------------------------------------- the socket and memory

  class Socket {
    /** What the reads to come will answer; a read behind the end of the script would wait forever. */
    var script: seq<Reading>

    constructor (script: seq<Reading>)
      ensures this.script == script
    {
      this.script := script;
    }

    /** `None` when the read does not return. */
    method Read(buf: array<char>) returns (ret: Option<int>)
      requires Fits(script, buf.Length)
      modifies this, buf
      ensures ret.None? <==> old(script) == []
      ensures ret.None? ==> script == [] && buf[..] == old(buf[..])
      ensures ret.Some? ==> script == old(script)[1..] && ret.value == Count(old(script)[0])
      ensures ret.Some? ==> ret.value == if old(script)[0].Data? then |old(script)[0].bytes| else -1
      ensures ret.Some? ==>
        var got := if old(script)[0].Data? then old(script)[0].bytes else "";
        buf[..] == got + old(buf[..])[|got|..]
    {
      if script == [] {
        return None;
      }
      var answer := script[0];
      script := script[1..];
      if answer.Data? {
        forall i | 0 <= i < |answer.bytes| {
          buf[i] := answer.bytes[i];
        }
      }
      ret := Some(Count(answer));
    }
  }

  /** `malloc` or `calloc` followed by `memset` to zero. */
  method Cleared(n: nat) returns (a: array<char>)
    ensures fresh(a) && a[..] == Zeros(n)
  {
    a := new char[n](_ => '\0');
  }

  method Clear(a: array<char>)
    modifies a
    ensures a[..] == Zeros(a.Length)
  {
    forall i | 0 <= i < a.Length {
      a[i] := '\0';
    }
  }

  /** `memcpy(dst + at, src, src.Length)`: the write must stay inside the destination. */
  method Copy(dst: array<char>, at: nat, src: array<char>)
    requires at + src.Length <= dst.Length && dst != src
    modifies dst
    ensures dst[..at + src.Length] == old(dst[..at]) + src[..]
  {
    forall i | 0 <= i < src.Length {
      dst[at + i] := src[i];
    }
  }

  // ---------------------------------------------------------------- arithmetic of the growth test

  lemma Times(a: nat, b: nat, m: nat)
    ensures a <= b ==> a * m <= b * m
    ensures a < b ==> a * m + m <= b * m
  {
    if a < b {
      assert (a + 1) * m <= b * m;
    }
  }

  /** Before the copy of chunk number `count` the buffer of `size * B` bytes has room for it, whether or
      not the test made it grow. */
  lemma GrowthTest(count: nat, size: nat, M: nat, k: nat)
    requires M > 0 && k > 0 && count <= size * k
    ensures count * M >= size * (k * M) <==> count == size * k
    ensures var size' := if count * M >= size * (k * M) then size + 1 else size;
            (count + 1) * M <= size' * (k * M) && count + 1 <= size' * k
  {
    assert size * (k * M) == (size * k) * M;
    Times(count, size * k, M);
    assert (size + 1) * k == size * k + k;
    assert (size + 1) * (k * M) == ((size + 1) * k) * M;
    Times(count + 1, (size + 1) * k, M);
    assert (count + 1) * M == count * M + M;
  }

  // ---------------------------------------------------------------- the two receive functions

  /** What the gathering buffer holds after `n` full reads and the one that ended them. */
  function Filled(script: seq<Reading>, M: nat, n: nat): string
    requires n < |script| && Fits(script, M)
    requires forall i :: 0 <= i < n ==> Count(script[i]) == M
  {
    FullLength(script, M, n);
    GatheredNext(script, n);
    assert (n + 1) * M == n * M + M;
    Gathered(script[..n + 1]) + Zeros((n + 1) * M - |Gathered(script[..n + 1])|)
  }

  /** One turn of the loop that gathers chunk number `readCount`, after `readCount` full ones. */
  method NextChunk(sock: Socket, reply: array<char>, buffer: array<char>, readCount: nat, buffSize: nat,
                   M: nat, k: nat, B: nat, ghost script: seq<Reading>, ghost head: nat)
    returns (ret: Option<int>, buffer': array<char>, buffSize': nat)
    requires M > 0 && k > 0 && B == k * M && reply.Length == M && buffer != reply
    requires readCount <= |script| && sock.script == script[readCount..] && Fits(script, M)
    requires readCount <= buffSize * k && buffer.Length == buffSize * B
    requires head == readCount * M && head <= buffer.Length
    requires k == 1 ==> buffSize == readCount
    requires forall i :: 0 <= i < readCount ==> Count(script[i]) == M
    requires buffer[..head] == Gathered(script[..readCount])
    modifies sock, reply, buffer
    ensures buffer' == buffer || fresh(buffer')
    ensures ret.None? <==> readCount == |script|
    ensures readCount + 1 <= buffSize' * k && buffer'.Length == buffSize' * B
    ensures (readCount + 1) * M == head + M && head + M <= buffer'.Length
    ensures k == 1 ==> buffSize' == readCount + 1 && buffer'.Length == head + M
    ensures ret.Some? ==> sock.script == script[readCount + 1..] && ret.value == Count(script[readCount])
    ensures ret.Some? ==> buffer'[..head + M] == Filled(script, M, readCount)
    ensures ret == Some(M) ==> buffer'[..head + M] == Gathered(script[..readCount + 1])
    ensures ret.None? ==> sock.script == []
  {
    buffer', buffSize' := buffer, buffSize;
    Clear(reply);
    GrowthTest(readCount, buffSize, M, k);
    if readCount * M >= buffSize * B {
      buffSize' := buffSize + 1;
      Times(buffSize, buffSize', B);
      buffer' := GrowTo(buffer, buffSize' * B, readCount * M);
    }
    ret := sock.Read(reply);
    assert (readCount + 1) * M == readCount * M + M;
    if ret.Some? {
      ghost var before := buffer'[..head];
      Copy(buffer', readCount * M, reply);
      Chunk(script, M, readCount, before, reply[..], buffer'[..head + M]);
    }
  }

  /** The result of the reads up to the first that is not full. */
  ghost predicate Received(script: seq<Reading>, M: nat, n: nat, buffer: array<char>)
    requires n < |script| && Fits(script, M) && forall i :: 0 <= i < n ==> Count(script[i]) == M
    reads buffer
  {
    (n + 1) * M <= buffer.Length && buffer[..(n + 1) * M] == Filled(script, M, n)
  }

  /** Between two turns: chunks `0..readCount` were full and are gathered. */
  ghost predicate Gathering(sock: Socket, buffer: array<char>, script: seq<Reading>, readCount: nat, buffSize: nat,
                            total: int, M: nat, k: nat, B: nat)
    reads sock, buffer
  {
    readCount + 1 <= |script| && sock.script == script[readCount + 1..] &&
    readCount + 1 <= buffSize * k && buffer.Length == buffSize * B && (k == 1 ==> buffSize == readCount + 1) &&
    total == (readCount + 1) * M && 0 <= total <= buffer.Length &&
    (forall i :: 0 <= i <= readCount ==> Count(script[i]) == M) &&
    buffer[..total] == Gathered(script[..readCount + 1])
  }

  /** The loop was left: all reads up to the first that is not full are gathered. */
  ghost predicate Drained(sock: Socket, buffer: array<char>, script: seq<Reading>, n: nat, total: int,
                          M: nat, k: nat)
    requires n < |script| && Fits(script, M) && n == Fulls(script, M)
    reads sock, buffer
  {
    sock.script == script[n + 1..] && total == n * M + Count(script[n]) && Received(script, M, n, buffer) &&
    (k == 1 ==> buffer.Length == (n + 1) * M)
  }

  /** One turn of the loop and its test. */
  method Turn(sock: Socket, reply: array<char>, buffer: array<char>, readCount: nat, buffSize: nat, total: int,
              M: nat, k: nat, B: nat, ghost script: seq<Reading>)
    returns (ret: Option<int>, buffer': array<char>, buffSize': nat, total': int)
    requires M > 0 && k > 0 && B == k * M && reply.Length == M && buffer != reply && Fits(script, M)
    requires Gathering(sock, buffer, script, readCount, buffSize, total, M, k, B)
    modifies sock, reply, buffer
    ensures buffer' == buffer || fresh(buffer')
    ensures ret.None? ==> Fulls(script, M) == |script| && sock.script == []
    ensures ret.Some? && ret.value < M ==>
              readCount + 1 == Fulls(script, M) < |script| &&
              Drained(sock, buffer', script, readCount + 1, total', M, k)
    ensures ret.Some? && ret.value >= M ==>
              Gathering(sock, buffer', script, readCount + 1, buffSize', total', M, k, B)
  {
    ret, buffer', buffSize' := NextChunk(sock, reply, buffer, readCount + 1, buffSize, M, k, B, script, total);
    total' := if ret.Some? then total + ret.value else total;
    if ret.None? || ret.value < M {
      FullsIs(script, M, readCount + 1);
    }
  }

  /** The do/while loop, shared word for word by both functions: `reply` is full already. `total`
      starts at the size of that first read and adds up what the later ones return. */
  method Drain(sock: Socket, reply: array<char>, M: nat, k: nat, B: nat, ghost script: seq<Reading>)
    returns (done: bool, buffer: array<char>, total: int)
    requires M > 0 && k > 0 && B == k * M && reply.Length == M
    requires |script| > 0 && script[1..] == sock.script && Fits(script, M)
    requires script[0].Data? && reply[..] == script[0].bytes
    modifies sock, reply
    ensures fresh(buffer)
    ensures var n := Fulls(script, M);
            if n < |script| then done && Drained(sock, buffer, script, n, total, M, k)
            else !done && sock.script == []
  {
    buffer := Cleared(B);
    total := M;
    var readCount, buffSize := 0, 1;
    GrowthTest(0, 1, M, k);
    Copy(buffer, 0, reply);
    assert script[..1] == [script[0]] && Gathered(script[..0]) == "";
    GatheredNext(script, 0);
    while true
      invariant fresh(buffer) && Gathering(sock, buffer, script, readCount, buffSize, total, M, k, B)
      decreases |script| - readCount
    {
      var ret;
      ret, buffer, buffSize, total := Turn(sock, reply, buffer, readCount, buffSize, total, M, k, B, script);
      readCount := readCount + 1;
      if ret.None? {
        done := false;
        return;
      }
      if ret.value < M {
        done := true;
        return;
      }
    }
  }

  method GrowTo(a: array<char>, n: nat, keep: nat) returns (b: array<char>)
    requires keep <= a.Length <= n
    ensures fresh(b) && b.Length == n && b[..keep] == a[..keep]
  {
    b := Realloc(a, n);
    assert b[..keep] == b[..a.Length][..keep];
  }

  /** One more chunk behind the gathered bytes: full, or padded with zeros. */
  lemma Chunk(script: seq<Reading>, M: nat, n: nat, before: string, reply: string, after: string)
    requires n < |script| && Fits(script, M) && |reply| == M
    requires forall i :: 0 <= i < n ==> Count(script[i]) == M
    requires before == Gathered(script[..n]) && after == before + reply
    requires var got := if script[n].Data? then script[n].bytes else ""; reply == got + Zeros(M)[|got|..]
    ensures after == Filled(script, M, n)
    ensures Count(script[n]) == M ==> after == Gathered(script[..n + 1])
  {
    var got := if script[n].Data? then script[n].bytes else "";
    GatheredNext(script, n);
    FullLength(script, M, n);
    assert (n + 1) * M == n * M + M;
    assert Zeros(M)[|got|..] == Zeros(M - |got|);
    assert before + (got + Zeros(M - |got|)) == (before + got) + Zeros(M - |got|);
    if |got| == M {
      assert got + "" == got;
    }
  }

  /** What a receiver can rely on: the gathered bytes stand at the front of the buffer and at least one
      zero byte follows them; their number is the sum of what the reads returned, less one when the last
      read failed. */
  lemma ReceivedMeans(script: seq<Reading>, M: nat, n: nat, buffer: array<char>)
    requires M > 0 && n < |script| && Fits(script, M) && n == Fulls(script, M) && Received(script, M, n, buffer)
    ensures var got := Gathered(script[..n + 1]);
            |got| < buffer.Length && buffer[..|got|] == got && buffer[|got|] == '\0' &&
            n * M + Count(script[n]) == if script[n].Failed? then |got| - 1 else |got|
  {
    var got := Gathered(script[..n + 1]);
    var whole, head := (n + 1) * M, n * M;
    GatheredNext(script, n);
    FullLength(script, M, n);
    assert whole == head + M && Count(script[n]) < M && |got| < whole;
    Padded(buffer[..whole], got, whole - |got|);
    assert buffer[..|got|] == buffer[..whole][..|got|] && buffer[|got|] == buffer[..whole][|got|];
  }

  lemma Padded(all: string, got: string, pad: nat)
    requires all == got + Zeros(pad) && pad > 0
    ensures |got| < |all| && all[..|got|] == got && all[|got|] == '\0'
  {
    assert all[|got|] == Zeros(pad)[0];
  }

  /** The first read is not full: no second buffer is needed. */
  lemma ShortFirst(script: seq<Reading>, M: nat, buffer: array<char>)
    requires script != [] && Fits(script, M) && buffer.Length == M && Count(script[0]) < M
    requires var got := if script[0].Data? then script[0].bytes else ""; buffer[..] == got + Zeros(M)[|got|..]
    ensures Fulls(script, M) == 0 && Received(script, M, 0, buffer)
  {
    assert script[..0] == [] && buffer[..M] == buffer[..];
    Chunk(script, M, 0, "", buffer[..], buffer[..]);
  }

  /** `sock_solv_recv`: the number of bytes and the buffer; `None` when a read never returns. After a failed
      first read the caller gets a buffer that was freed. */
  method SockSolvRecv(sock: Socket, M: nat, k: nat) returns (ret: Option<int>, buffer: array<char>, freed: bool)
    requires M > 0 && k > 0 && Fits(sock.script, M)
    modifies sock
    ensures fresh(buffer)
    ensures var script := old(sock.script);
            var n := Fulls(script, M);
            if n == |script| then ret.None? && sock.script == []
            else ret == Some(n * M + Count(script[n])) && sock.script == script[n + 1..] &&
                 (freed <==> n == 0 && script[0].Failed?) && (!freed ==> Received(script, M, n, buffer)) &&
                 (k == 1 && !freed ==> buffer.Length == (n + 1) * M)
  {
    ghost var script := sock.script;
    buffer := Cleared(M);
    freed := false;
    ret := sock.Read(buffer);
    if ret.None? {
      return;
    }
    if ret.value == -1 {
      freed := true;
      return;
    }
    if ret.value == M {
      var done, buff, total := Drain(sock, buffer, M, k, k * M, script);
      buffer := buff;
      ret := if done then Some(total) else None;
    } else {
      ShortFirst(script, M, buffer);
    }
  }

  /** The same with the constants of the source: every read asks for 2000 bytes, and the buffer ends up with
      2000 for each of them. */
  method RecvAsConfigured(sock: Socket) returns (ret: Option<int>, buffer: array<char>, freed: bool)
    requires Fits(sock.script, 2000)
    modifies sock
    ensures fresh(buffer)
    ensures var script := old(sock.script);
            var n := Fulls(script, 2000);
            if n == |script| then ret.None? && sock.script == []
            else ret == Some(n * 2000 + Count(script[n])) && sock.script == script[n + 1..] &&
                 (freed <==> n == 0 && script[0].Failed?) && (!freed ==> Received(script, 2000, n, buffer)) &&
                 (!freed ==> buffer.Length == (n + 1) * 2000)
  {
    ret, buffer, freed := SockSolvRecv(sock, MAX_INPUT_LEN, BUFF_SIZE / MAX_INPUT_LEN);
  }

  /** `sock_recv`: the buffer, or null when the first read fails. */
  method SockRecv(sock: Socket, M: nat, k: nat) returns (returned: bool, buffer: array?<char>)
    requires M > 0 && k > 0 && Fits(sock.script, M)
    modifies sock
    ensures buffer != null ==> fresh(buffer)
    ensures var script := old(sock.script);
            var n := Fulls(script, M);
            if n == |script| then !returned && sock.script == []
            else returned && sock.script == script[n + 1..] &&
                 (buffer == null <==> n == 0 && script[0].Failed?) &&
                 (buffer != null ==> Received(script, M, n, buffer))
  {
    ghost var script := sock.script;
    var reply := Cleared(M);
    buffer := reply;
    var ret := sock.Read(reply);
    returned := ret.Some?;
    if ret.None? {
      return;
    }
    if ret.value == -1 {
      buffer := null;
      return;
    }
    if ret.value == M {
      var done, buff, total := Drain(sock, reply, M, k, k * M, script);
      returned, buffer := done, buff;
    } else {
      ShortFirst(script, M, reply);
    }
  }
}
