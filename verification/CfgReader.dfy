/** The reading half of cfg_parsing.c: a loop over characters whose helpers move the file position,
    and a value buffer grown in place. */
module CfgReader {
  import opened Stdio
  import opened CfgSpec

  const DEFAULT_ADDRESS := "127.0.0.1"
  const DEFAULT_PORT := 2345

  /** The file holds `str[1..len+1]` at position `at`. */
  predicate Agrees(content: string, at: nat, str: string, len: nat)
    requires len < |str|
  {
    at + len <= |content| && content[at..at + len] == str[1..len + 1]
  }

  lemma AgreesCharwise(content: string, at: nat, str: string, len: nat)
    requires len < |str| && Clean(str) && at <= |content|
    ensures Agrees(content, at, str, len) <==>
            forall j :: 1 <= j <= len ==> CharAt(content, at + j - 1) == str[j]
  {
    if at + len > |content| {
      assert CharAt(content, at + (|content| - at + 1) - 1) != str[|content| - at + 1];
    } else if forall j :: 1 <= j <= len ==> CharAt(content, at + j - 1) == str[j] {
      forall i {:trigger content[at..at + len][i]} | 0 <= i < len
        ensures content[at..at + len][i] == str[1..len + 1][i]
      {
        assert CharAt(content, at + (i + 1) - 1) == str[i + 1];
      }
    }
    if Agrees(content, at, str, len) {
      forall j | 1 <= j <= len
        ensures CharAt(content, at + j - 1) == str[j]
      {
        assert content[at..at + len][j - 1] == str[1..len + 1][j - 1];
      }
    }
  }

  /** Compares the character already read, at `at`, and the next `len - 1` ones with `str[1..len+1]`.
      It reads all of them even after a mismatch. */
  method Compare(file: File, str: string, len: nat, state: char, actC: char, ghost at: nat)
    returns (state': char, actC': char)
    requires 1 <= len < |str| && Clean(str)
    requires at <= |file.content| && file.pos == Min(at + 1, |file.content|) && actC == CharAt(file.content, at)
    modifies file`pos
    ensures file.pos == Min(at + len, |file.content|)
    ensures actC' == CharAt(file.content, at + len - 1)
    ensures state' == if Agrees(file.content, at, str, len) then state else 'c'
  {
    state', actC' := state, actC;
    var i1 := 1;
    while i1 <= len
      invariant 1 <= i1 <= len + 1
      invariant var last := Min(i1, len);
                file.pos == Min(at + last, |file.content|) && actC' == CharAt(file.content, at + last - 1)
      invariant state' ==
        if forall j :: 1 <= j < i1 ==> CharAt(file.content, at + j - 1) == str[j] then state else 'c'
    {
      if actC' != str[i1] {
        state' := 'c';
      }
      if i1 < len {
        actC' := file.Fgetc();
      }
      i1 := i1 + 1;
    }
    AgreesCharwise(file.content, at, str, len);
  }

  /** Stores one character behind the `len` already there, growing the buffer by five when it is full.
      One cell stays free for the terminator. */
  method Store(value: array<char>, len: nat, room: nat, c: char) returns (value': array<char>, room': nat)
    requires len <= room && value.Length == room + 1
    modifies value
    ensures value' == value || fresh(value')
    ensures len < room' && value'.Length == room' + 1
    ensures value'[..len + 1] == old(value[..len]) + [c]
  {
    value', room' := value, room;
    if len == room {
      room' := room + 5;
      value' := Realloc(value, room' + 1);
      assert value'[..room + 1][..len] == value[..room + 1][..len];
    }
    value'[len] := c;
  }

  /** Reads up to the end of the line into a buffer that grows by five, then cuts it to the limit.
      `value[len]` is the terminator. */
  method FileReadValue(file: File, maxLength: nat) returns (value: array<char>, len: nat)
    requires file.pos <= |file.content|
    modifies file`pos
    ensures fresh(value) && len < value.Length && value[len] == '\0'
    ensures var end := LineEnd(file.content, old(file.pos));
            value[..len] == Shortened(file.content[old(file.pos)..end], maxLength) &&
            file.pos == Min(end + 1, |file.content|)
    ensures var line := file.content[old(file.pos)..LineEnd(file.content, old(file.pos))];
            if maxLength == 0 || |line| < maxLength then value[..len] == line
            else len == maxLength - 1 && value[..len] == line[..maxLength - 1]
  {
    ghost var start, end := file.pos, LineEnd(file.content, file.pos);
    var room := 5;
    value := new char[6];
    len := 0;
    var c := file.Fgetc();
    while c != '\n' && c != EOF
      invariant fresh(value) && len <= room && value.Length == room + 1
      invariant start + len <= |file.content| && LineEnd(file.content, start + len) == end
      invariant c == CharAt(file.content, start + len)
      invariant file.pos == Min(start + len + 1, |file.content|)
      invariant value[..len] == file.content[start..start + len]
      decreases |file.content| - start - len
    {
      assert file.content[start..start + len + 1] == file.content[start..start + len] + [c];
      value, room := Store(value, len, room, c);
      len := len + 1;
      c := file.Fgetc();
    }
    value, len := Terminate(value, len, maxLength);
  }

  method Terminate(value: array<char>, len: nat, maxLength: nat) returns (value': array<char>, len': nat)
    requires len < value.Length
    modifies value
    ensures value' == value || fresh(value')
    ensures len' < value'.Length && value'[len'] == '\0'
    ensures value'[..len'] == Shortened(old(value[..len]), maxLength)
    ensures if maxLength == 0 || len < maxLength then len' == len && value'[..len'] == old(value[..len])
            else len' == maxLength - 1 && value'[..len'] == old(value[..maxLength - 1])
  {
    value[len] := '\0';
    value', len' := value, len;
    if len >= maxLength && maxLength != 0 {
      value[maxLength - 1] := '\0';
      len' := maxLength - 1;
      value' := Realloc(value, maxLength);
      assert value'[len'] == value'[..maxLength][len'] == value[..maxLength][len'];
      assert value'[..len'] == value'[..maxLength][..len'] == value[..maxLength][..len'];
    }
  }

  /** One of the four key cases of the loop: `actC` is the character after the initial, read at `at`. */
  method ReadKey(file: File, k: Key, limit: nat, actC: char, ghost at: nat)
    returns (actC': char, value: Option<string>)
    requires at <= |file.content| && file.pos == Min(at + 1, |file.content|)
    requires actC == CharAt(file.content, at)
    modifies file`pos
    ensures var to := at + |Text(k)| - 1;
      actC' == CharAt(file.content, to - 1) &&
      if Agrees(file.content, at, Text(k), |Text(k)| - 1) then
        var end := LineEnd(file.content, to);
        value == Some(Shortened(file.content[to..end], limit)) && file.pos == Min(end + 1, |file.content|)
      else value == None && file.pos == Min(to, |file.content|)
  {
    var m := |Text(k)|;
    var state;
    state, actC' := Compare(file, Text(k), m - 1, '=', actC, at);
    if state == '=' {
      var buffer, len := FileReadValue(file, limit);
      value := Some(buffer[..len]);
    } else {
      value := None;
    }
  }

  lemma KeyDisagrees(content: string, at: nat, k: Key, cfg: Config)
    requires at <= |content| && Feed(INIT, content[..at]) == Scan(Matching(k, 1, true), cfg)
    requires !Agrees(content, at, Text(k), |Text(k)| - 1)
    ensures var to := at + |Text(k)| - 1;
      if CharAt(content, to - 1) == EOF then Scanned(content) == cfg
      else to <= |content| && Feed(INIT, content[..to]) == Scan(Skip, cfg)
  {
    var s := Scan(Matching(k, 1, true), cfg);
    var to := at + |Text(k)| - 1;
    if to > |content| {
      FeedMatching(s, content[at..]);
      AdvanceAll(content, at);
    } else {
      FeedMatching(s, content[at..to]);
      Advance(content, at, to);
      if CharAt(content, to - 1) == EOF {
        Halts(content, to);
      }
    }
  }

  lemma KeyAgrees(content: string, at: nat, k: Key, cfg: Config)
    requires at <= |content| && Feed(INIT, content[..at]) == Scan(Matching(k, 1, true), cfg)
    requires Agrees(content, at, Text(k), |Text(k)| - 1)
    ensures Feed(INIT, content[..at + |Text(k)| - 1]) == Scan(Value(k, ""), cfg)
  {
    var to := at + |Text(k)| - 1;
    FeedMatching(Scan(Matching(k, 1, true), cfg), content[at..to]);
    Advance(content, at, to);
  }

  lemma ValueCase(content: string, to: nat, end: nat, k: Key, cfg: Config)
    requires to <= |content| && Feed(INIT, content[..to]) == Scan(Value(k, ""), cfg)
    requires end == LineEnd(content, to)
    ensures var done := Assign(cfg, k, content[to..end]);
            if end < |content| then Feed(INIT, content[..end + 1]) == Scan(Start, done)
            else Scanned(content) == done
  {
    var v, s := content[to..end], Scan(Value(k, content[to..end]), cfg);
    LineEndIsFirst(content, to);
    FeedValue(Scan(Value(k, ""), cfg), v);
    assert "" + v == v;
    Advance(content, to, end);
    OneChar(content, end, s);
    if end == |content| {
      assert content[..end] == content;
    }
  }

  /** The key is there: its value is taken, and the next line begins. */
  lemma KeyFound(content: string, at: nat, to: nat, end: nat, pos: nat, k: Key, cfg: Config)
    requires at <= |content| && Feed(INIT, content[..at]) == Scan(Matching(k, 1, true), cfg)
    requires to == at + |Text(k)| - 1 && Agrees(content, at, Text(k), |Text(k)| - 1)
    requires end == LineEnd(content, to) && pos == Min(end + 1, |content|)
    ensures at < pos && CharAt(content, to - 1) == '='
    ensures Holds(content, pos, 'e', Assign(cfg, k, content[to..end]))
  {
    KeyEnds(content, at, to, k);
    KeyAgrees(content, at, k, cfg);
    ValueCase(content, to, end, k, cfg);
    NextStart(content, end, pos, Assign(cfg, k, content[to..end]));
  }

  lemma KeyEnds(content: string, at: nat, to: nat, k: Key)
    requires to == at + |Text(k)| - 1 && Agrees(content, at, Text(k), |Text(k)| - 1)
    ensures at < to <= |content| && content[to - 1] == '='
  {
    var m := |Text(k)|;
    assert content[at..to][m - 2] == Text(k)[1..m][m - 2] == Text(k)[m - 1];
  }

  lemma NextStart(content: string, end: nat, pos: nat, cfg: Config)
    requires end <= |content| && pos == Min(end + 1, |content|)
    requires if end < |content| then Feed(INIT, content[..end + 1]) == Scan(Start, cfg) else Scanned(content) == cfg
    ensures Holds(content, pos, 'e', cfg)
  {
  }

  /** The key is not there: the line is skipped, or byte 0xFF or the end of the file was met. */
  lemma KeyMissing(content: string, at: nat, to: nat, pos: nat, k: Key, cfg: Config)
    requires at <= |content| && Feed(INIT, content[..at]) == Scan(Matching(k, 1, true), cfg)
    requires to == at + |Text(k)| - 1 && !Agrees(content, at, Text(k), |Text(k)| - 1)
    requires pos == Min(to, |content|)
    ensures if CharAt(content, to - 1) == EOF then Scanned(content) == cfg
            else at < pos && Holds(content, pos, 'c', cfg)
  {
    KeyDisagrees(content, at, k, cfg);
  }

  /** Which value of `fmstate` stands for which mode, between two iterations. */
  ghost predicate Stands(fmstate: char, s: Scan, cfg: Config) {
    s.cfg == cfg &&
    match s.mode
    case Start => fmstate == 'e'
    case Skip => fmstate == 'c'
    case Matching(k, n, ok) => n == 1 && ok && fmstate == Text(k)[0]
    case _ => false
  }

  lemma Advance(content: string, a: nat, b: nat)
    requires a <= b <= |content|
    ensures Feed(INIT, content[..b]) == Feed(Feed(INIT, content[..a]), content[a..b])
  {
    assert content[..b] == content[..a] + content[a..b];
    FeedConcat(INIT, content[..a], content[a..b]);
  }

  lemma AdvanceAll(content: string, a: nat)
    requires a <= |content|
    ensures Feed(INIT, content) == Feed(Feed(INIT, content[..a]), content[a..])
  {
    assert content == content[..a] + content[a..];
    FeedConcat(INIT, content[..a], content[a..]);
  }

  /** What the body of the loop does in the two states that read a single character. */
  lemma OneChar(content: string, at: nat, s: Scan)
    requires at <= |content| && s == Feed(INIT, content[..at])
    ensures at < |content| ==> Feed(INIT, content[..at + 1]) == Step(s, content[at])
    ensures at < |content| && Step(s, content[at]).mode.Halted? ==>
              Feed(INIT, content) == Step(s, content[at])
  {
    if at < |content| {
      Advance(content, at, at + 1);
      assert content[at..at + 1] == [content[at]];
      FeedOne(s, content[at]);
      if Step(s, content[at]).mode.Halted? {
        Halts(content, at + 1);
      }
    }
  }

  lemma Halts(content: string, to: nat)
    requires to <= |content| && Feed(INIT, content[..to]).mode.Halted?
    ensures Feed(INIT, content) == Feed(INIT, content[..to])
  {
    AdvanceAll(content, to);
    FeedHalted(Feed(INIT, content[..to]), content[to..]);
  }

  /** The state between two iterations. After a value that ran to the end of the file nothing is left. */
  ghost predicate Holds(content: string, pos: nat, fmstate: char, cfg: Config) {
    pos <= |content| &&
    (Stands(fmstate, Feed(INIT, content[..pos]), cfg) ||
     (fmstate == 'e' && pos == |content| && Scanned(content) == cfg))
  }

  /** `ReadKey` in terms of the automaton. */
  method KeyStep(file: File, k: Key, actC: char, ghost at: nat, ghost cfg: Config)
    returns (actC': char, fmstate: char, value: Option<string>, ghost cfg': Config)
    requires at <= |file.content| && file.pos == Min(at + 1, |file.content|)
    requires actC == CharAt(file.content, at)
    requires Feed(INIT, file.content[..at]) == Scan(Matching(k, 1, true), cfg)
    modifies file`pos
    ensures cfg' == if value.Some? then Stored(cfg, k, value.value) else cfg
    ensures fmstate == if value.Some? then 'e' else 'c'
    ensures if actC' == EOF then Scanned(file.content) == cfg'
            else at < file.pos && Holds(file.content, file.pos, fmstate, cfg')
  {
    actC', value := ReadKey(file, k, Limit(k), actC, at);
    ghost var to := at + |Text(k)| - 1;
    if value.Some? {
      KeyFound(file.content, at, to, LineEnd(file.content, to), file.pos, k, cfg);
      fmstate := 'e';
      cfg' := Stored(cfg, k, value.value);
    } else {
      KeyMissing(file.content, at, to, file.pos, k, cfg);
      fmstate := 'c';
      cfg' := cfg;
    }
  }

  /** One turn of the do/while loop of `read_cfg`. */
  method Iterate(file: File, fmstate: char, cfg: Config)
    returns (actC: char, fmstate': char, cfg': Config)
    requires Holds(file.content, file.pos, fmstate, cfg)
    modifies file`pos
    ensures if actC == EOF then Scanned(file.content) == cfg'
            else old(file.pos) < file.pos && Holds(file.content, file.pos, fmstate', cfg')
  {
    ghost var content, at, s := file.content, file.pos, Feed(INIT, file.content[..file.pos]);
    fmstate', cfg' := fmstate, cfg;
    actC := file.Fgetc();
    OneChar(content, at, s);
    if at == |content| {
      assert content[..at] == content;
    }
    ghost var after;
    var value;
    match fmstate {
      case 'e' =>
        if actC == '#' || actC == '[' {
          fmstate' := 'c';
        } else if actC == 'a' {
          fmstate' := 'a';
        } else if actC == 's' {
          fmstate' := 's';
        } else if actC == 'p' {
          fmstate' := 'p';
        } else if actC == 'i' {
          fmstate' := 'i';
        } else {
          fmstate' := 'c';
        }
      case 'c' =>
        if actC == '\n' {
          fmstate' := 'e';
        }
      case 'a' =>
        actC, fmstate', value, after := KeyStep(file, Address, actC, at, cfg);
        cfg' := if value.Some? then cfg.(address := value) else cfg;
      case 's' =>
        actC, fmstate', value, after := KeyStep(file, Server, actC, at, cfg);
        cfg' := if value.Some? then cfg.(address := value) else cfg;
      case 'p' =>
        actC, fmstate', value, after := KeyStep(file, Port, actC, at, cfg);
        cfg' := if value.Some? then cfg.(port := Some(Strtol(value.value))) else cfg;
      case 'i' =>
        actC, fmstate', value, after := KeyStep(file, Id, actC, at, cfg);
        cfg' := if value.Some? then cfg.(id := value) else cfg;
      case _ =>
    }
  }

  /** The loop itself, on any content. */
  method ScanFile(file: File) returns (cfg: Config)
    requires file.pos == 0
    modifies file`pos
    ensures cfg == Scanned(file.content)
  {
    cfg := EMPTY;
    var fmstate := 'e';
    var actC;
    while true
      invariant Holds(file.content, file.pos, fmstate, cfg)
      decreases |file.content| - file.pos
    {
      actC, fmstate, cfg := Iterate(file, fmstate, cfg);
      if actC == EOF {
        break;
      }
    }
  }

  /** `read_cfg` on a file that could be opened (`Some`) or not. `clientId` is what `*ret_client_id`
      held before the call. */
  method ReadCfg(file: File?, clientId: Option<string>)
    returns (ret: int, id: Option<string>, address: string, port: int)
    requires file != null ==> file.pos == 0
    modifies if file == null then {} else {file}
    ensures file == null ==> ret == 1 && id == clientId && address == "127.0.0.1" && port == 2345
    ensures file != null ==> file.content == old(file.content)
    ensures file != null ==>
      var cfg := Scanned(file.content);
      ret == 0 && id == cfg.id &&
      address == (if cfg.address.Some? then cfg.address.value else "127.0.0.1") &&
      port == (if cfg.port.Some? then cfg.port.value else 2345)
  {
    if file == null {
      return 1, clientId, DEFAULT_ADDRESS, DEFAULT_PORT;
    }
    var cfg := ScanFile(file);
    return 0, cfg.id,
      if cfg.address.Some? then cfg.address.value else DEFAULT_ADDRESS,
      if cfg.port.Some? then cfg.port.value else DEFAULT_PORT;
  }
}
