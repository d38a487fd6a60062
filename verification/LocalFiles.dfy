/** `compare_files` and `copy_file` of client.c. A file that could not be opened is null. */
module LocalFiles {
  import opened Stdio

  datatype Status = OK | FILE_ERROR

  /** Reads both files in step as signed characters, so that a byte 0xFF counts as the end. */
  method CompareFiles(f1: File?, f2: File?) returns (rc: Status)
    requires f1 != null && f2 != null ==> f1 != f2 && f1.pos == 0 && f2.pos == 0
    modifies if f1 == null || f2 == null then {} else {f1, f2}
    ensures f1 == null || f2 == null ==> rc == FILE_ERROR
    ensures f1 != null && f2 != null ==>
      f1.content == old(f1.content) && f2.content == old(f2.content) &&
      (rc == OK <==> UntilEof(f1.content) == UntilEof(f2.content))
  {
    if f1 == null || f2 == null {
      return FILE_ERROR;
    }
    var ch1 := f1.Fgetc();
    var ch2 := f2.Fgetc();
    ghost var i := 0;   // position of ch1 and ch2
    while ch1 != EOF && ch2 != EOF && ch1 == ch2
      invariant f1.content == old(f1.content) && f2.content == old(f2.content)
      invariant i <= |f1.content| && i <= |f2.content|
      invariant ch1 == CharAt(f1.content, i) && ch2 == CharAt(f2.content, i)
      invariant f1.pos == (if i < |f1.content| then i + 1 else i) && f2.pos == (if i < |f2.content| then i + 1 else i)
      invariant UntilEof(f1.content) == UntilEof(f2.content) <==> UntilEof(f1.content[i..]) == UntilEof(f2.content[i..])
      decreases |f1.content| - i
    {
      assert f1.content[i..][1..] == f1.content[i + 1..] && f2.content[i..][1..] == f2.content[i + 1..];
      SameHead(f1.content[i..], f2.content[i..]);
      ch1 := f1.Fgetc();
      ch2 := f2.Fgetc();
      i := i + 1;
    }
    Heads(f1.content, i);
    Heads(f2.content, i);
    rc := if ch1 == ch2 then OK else FILE_ERROR;
  }

  lemma SameHead(a: string, b: string)
    requires a != "" && b != "" && a[0] == b[0] != EOF
    ensures UntilEof(a) == UntilEof(b) <==> UntilEof(a[1..]) == UntilEof(b[1..])
  {
    assert UntilEof(a)[1..] == UntilEof(a[1..]) && UntilEof(b)[1..] == UntilEof(b[1..]);
  }

  lemma Heads(content: string, i: nat)
    requires i <= |content|
    ensures if CharAt(content, i) == EOF then UntilEof(content[i..]) == ""
            else UntilEof(content[i..]) != "" && UntilEof(content[i..])[0] == CharAt(content, i)
  {
  }

  /** For files without a byte 0xFF the comparison is equality. */
  lemma CompareIsEquality(a: string, b: string)
    requires Clean(a) && Clean(b)
    ensures UntilEof(a) == UntilEof(b) <==> a == b
  {
    UntilEofClean(a);
    UntilEofClean(b);
  }

  /** Byte by byte; opening the destination empties it even when the source cannot be opened. The disk
      takes `room` bytes, and writes behind them fail without being noticed. */
  method CopyFile(s: File?, d: File?, room: nat) returns (rc: Status)
    requires s != null ==> s.pos == 0 && s != d
    modifies (if s == null then {} else {s}) + (if d == null then {} else {d})
    ensures rc == OK <==> s != null && d != null
    ensures s != null ==> s.content == old(s.content)
    ensures d != null && s == null ==> d.content == ""
    ensures d != null && s != null ==>
      d.content == if room < |s.content| then s.content[..room] else s.content
  {
    if d != null {
      d.content := "";
    }
    if s == null || d == null {
      return FILE_ERROR;
    }
    while s.pos < |s.content|
      invariant s.pos <= |s.content| && d.content == UpTo(s.content[..s.pos], room)
      invariant s.content == old(s.content)
    {
      assert s.content[..s.pos + 1] == s.content[..s.pos] + [s.content[s.pos]];
      if |d.content| < room {
        d.content := d.content + [s.content[s.pos]];
      }
      s.pos := s.pos + 1;
    }
    assert s.content[..s.pos] == s.content;
    rc := OK;
  }

  function UpTo(content: string, room: nat): string {
    if room < |content| then content[..room] else content
  }

  /** A copy that fits compares equal, whatever the bytes. One that was cut off, although it succeeded, is
      told apart if no byte 0xFF is in the way. */
  method CopyThenCompare(s: File, d: File, room: nat) returns (rc: Status)
    requires s.pos == 0 && s != d
    modifies s, d
    ensures s.content == old(s.content)
    ensures d.content == if room < |s.content| then s.content[..room] else s.content
    ensures room >= |s.content| ==> rc == OK
    ensures Clean(s.content) ==> (rc == OK <==> room >= |s.content|)
  {
    var copied := CopyFile(s, d, room);
    s.pos, d.pos := 0, 0;
    rc := CompareFiles(s, d);
    if Clean(s.content) {
      CompareIsEquality(s.content, d.content);
    }
  }
}
