/** What the scanner of `read_cfg` means for the lines of a file. */
module CfgLines {
  import opened Stdio
  import opened CfgSpec

  // ---------------------------------------------------------------- any file without byte 0xFF

  /** The characters consumed without looking for a newline once a line begins with `c`. */
  function Reach(c: char): nat {
    if KeyOf(c).Some? then |Text(KeyOf(c).value)| else 1
  }

  /** The first newline at or after `from`, or the end. */
  function NewlineFrom(s: string, from: nat): (e: nat)
    ensures from <= |s| ==> from <= e <= |s|
    ensures e < |s| && from <= |s| ==> s[e] == '\n'
    ensures forall j :: from <= j < e && j < |s| ==> s[j] != '\n'
    decreases |s| - from
  {
    if from >= |s| || s[from] == '\n' then from else NewlineFrom(s, from + 1)
  }

  /** The value a line gives to some key, if any. */
  function Setting(line: string): Option<(Key, string)> {
    if line == "" || KeyOf(line[0]) == None then None
    else
      var k := KeyOf(line[0]).value;
      if Text(k) <= line then Some((k, line[|Text(k)|..])) else None
  }

  function ApplyLine(cfg: Config, line: string): Config {
    match Setting(line)
    case None => cfg
    case Some((k, v)) => Assign(cfg, k, v)
  }

  /** The lines as the scanner cuts them: a line ends at the first newline that is not among the
      characters consumed blindly. A blank line thus runs into the next one, and so does a line that is
      shorter than the key whose initial it carries. */
  function BlindFold(s: string, cfg: Config): Config
    decreases |s|
  {
    if s == "" then cfg
    else
      var e := NewlineFrom(s, Reach(s[0]));
      if e >= |s| then ApplyLine(cfg, s) else BlindFold(s[e + 1..], ApplyLine(cfg, s[..e]))
  }

  /** A stretch of text that the scanner treats as one line. */
  ghost predicate OneScannerLine(line: string) {
    line != "" && Clean(line) && forall j :: Reach(line[0]) <= j < |line| ==> line[j] != '\n'
  }

  lemma TextHead(k: Key, c: char)
    requires KeyOf(c) == Some(k)
    ensures Text(k)[0] == c
  {
  }

  lemma FeedKeyLine(cfg: Config, k: Key, line: string)
    requires OneScannerLine(line) && KeyOf(line[0]) == Some(k) && |line| >= |Text(k)|
    ensures Feed(Scan(Matching(k, 1, true), cfg), line[1..]) ==
      Scan(if Text(k) <= line then Value(k, line[|Text(k)|..]) else Skip, cfg)
  {
    var m := |Text(k)|;
    var s := Scan(Matching(k, 1, true), cfg);
    assert line[1..] == line[1..m] + line[m..];
    FeedConcat(s, line[1..m], line[m..]);
    FeedMatching(s, line[1..m]);
    TextHead(k, line[0]);
    KeyPrefix(k, line);
    assert line[1..m][m - 2] == line[m - 1];
    if Text(k) <= line {
      FeedValue(Scan(Value(k, ""), cfg), line[m..]);
      assert "" + line[m..] == line[m..];
    } else {
      FeedSkip(Scan(Skip, cfg), line[m..]);
    }
  }

  /** The scanner inside one line, from its first character up to, but not including, its newline. */
  lemma FeedLine(cfg: Config, line: string)
    requires OneScannerLine(line) && |line| >= Reach(line[0])
    ensures Feed(Scan(Start, cfg), line) ==
      match Setting(line)
      case Some((k, v)) => Scan(Value(k, v), cfg)
      case None => Scan(Skip, cfg)
  {
    if KeyOf(line[0]).None? {
      FeedSkip(Scan(Skip, cfg), line[1..]);
    } else {
      FeedKeyLine(cfg, KeyOf(line[0]).value, line);
    }
  }

  lemma KeyPrefix(k: Key, line: string)
    requires |line| >= |Text(k)| && line[0] == Text(k)[0]
    ensures Text(k) <= line <==> line[1..|Text(k)|] == Text(k)[1..|Text(k)|]
  {
    var m := |Text(k)|;
    assert Text(k) == [Text(k)[0]] + Text(k)[1..m];
    assert line[..m] == [line[0]] + line[1..m];
  }

  /** A line cut short by the end of the file before its key was complete sets nothing. */
  lemma FeedShort(cfg: Config, line: string)
    requires OneScannerLine(line) && |line| < Reach(line[0])
    ensures Finish(Feed(Scan(Start, cfg), line)) == cfg && Setting(line) == None
  {
    var k := KeyOf(line[0]).value;
    FeedMatching(Scan(Matching(k, 1, true), cfg), line[1..]);
  }

  lemma LastLine(cfg: Config, line: string)
    requires OneScannerLine(line)
    ensures Finish(Feed(Scan(Start, cfg), line)) == ApplyLine(cfg, line)
  {
    if |line| < Reach(line[0]) {
      FeedShort(cfg, line);
    } else {
      FeedLine(cfg, line);
    }
  }

  lemma FullLine(cfg: Config, line: string, rest: string)
    requires OneScannerLine(line) && |line| >= Reach(line[0])
    ensures Feed(Scan(Start, cfg), line + "\n" + rest) == Feed(Scan(Start, ApplyLine(cfg, line)), rest)
  {
    FeedLine(cfg, line);
    FeedConcat(Scan(Start, cfg), line, "\n");
    FeedOne(Feed(Scan(Start, cfg), line), '\n');
    FeedConcat(Scan(Start, cfg), line + "\n", rest);
  }

  lemma {:induction false} BlindFoldFrom(s: string, cfg: Config)
    requires Clean(s)
    ensures Finish(Feed(Scan(Start, cfg), s)) == BlindFold(s, cfg)
    decreases |s|
  {
    if s != "" {
      var e := NewlineFrom(s, Reach(s[0]));
      if e >= |s| {
        LastLine(cfg, s);
      } else {
        assert s == s[..e] + "\n" + s[e + 1..];
        FullLine(cfg, s[..e], s[e + 1..]);
        BlindFoldFrom(s[e + 1..], ApplyLine(cfg, s[..e]));
      }
    }
  }

  /** The character machine is a fold over the lines it cuts, for every file without byte 0xFF. */
  lemma ScannedIsBlindFold(content: string)
    requires Clean(content)
    ensures Scanned(content) == BlindFold(content, EMPTY)
  {
    BlindFoldFrom(content, EMPTY);
  }

  /** A line shorter than its key swallows its newline: the setting below it is never seen. */
  lemma ShortLineHidesNext()
    ensures Scanned("p\nid=7\n") == EMPTY
  {
    var s := "p\nid=7\n";
    assert Reach(s[0]) == 5 && NewlineFrom(s, 5) == 6 && s[7..] == "";
    ScannedIsBlindFold(s);
    assert Setting(s[..6]) == None;
  }

  // ---------------------------------------------------------------- the lines a reader sees

  /** Lines joined by newlines; a file that ends in a newline has an empty last line. */
  function Join(lines: seq<string>): string
    requires lines != []
  {
    if |lines| == 1 then lines[0] else lines[0] + "\n" + Join(lines[1..])
  }

  /** Every text is such a join. */
  lemma {:induction false} Split(s: string) returns (lines: seq<string>)
    ensures lines != [] && Join(lines) == s
    ensures forall i :: 0 <= i < |lines| ==> '\n' !in lines[i]
    decreases |s|
  {
    var e := NewlineFrom(s, 0);
    if e == |s| {
      lines := [s];
    } else {
      var rest := Split(s[e + 1..]);
      lines := [s[..e]] + rest;
      assert lines[1..] == rest;
    }
  }

  /** A line that begins with the initial of a key is at least as long as that key and its `=`. */
  ghost predicate LongEnough(line: string) {
    line != "" ==> |line| >= Reach(line[0])
  }

  ghost predicate WellFormed(lines: seq<string>) {
    lines != [] &&
    (forall i :: 0 <= i < |lines| ==> OneLine(lines[i])) &&
    (forall i :: 0 <= i < |lines| ==> LongEnough(lines[i]))
  }

  /** Whether line `i` is looked at: a blank line that is looked at hides its successor. */
  predicate Active(lines: seq<string>, i: nat)
    requires i < |lines|
  {
    i == 0 || !(lines[i - 1] == "" && Active(lines, i - 1))
  }

  /** The settings in force after the first `n` lines. */
  function Fold(lines: seq<string>, n: nat): Config
    requires n <= |lines|
  {
    if n == 0 then EMPTY
    else if Active(lines, n - 1) then ApplyLine(Fold(lines, n - 1), lines[n - 1])
    else Fold(lines, n - 1)
  }

  /** The scanner before line `n`. */
  function Before(lines: seq<string>, n: nat): Scan
    requires n < |lines|
  {
    Scan(if Active(lines, n) then Start else Skip, Fold(lines, n))
  }

  lemma NextLine(lines: seq<string>, n: nat, rest: string)
    requires WellFormed(lines) && n + 1 < |lines|
    ensures Feed(Before(lines, n), lines[n] + "\n" + rest) == Feed(Before(lines, n + 1), rest)
  {
    var s, line := Before(lines, n), lines[n];
    if !Active(lines, n) {
      FeedSkip(s, line);
      FeedConcat(s, line, "\n");
      FeedOne(s, '\n');
      FeedConcat(s, line + "\n", rest);
    } else if line == "" {
      assert line + "\n" == "\n";
      FeedOne(s, '\n');
      FeedConcat(s, "\n", rest);
    } else {
      FullLine(s.cfg, line, rest);
    }
  }

  lemma {:induction false} FoldFrom(lines: seq<string>, n: nat)
    requires WellFormed(lines) && n < |lines|
    ensures Finish(Feed(Before(lines, n), Join(lines[n..]))) == Fold(lines, |lines|)
    decreases |lines| - n
  {
    if n + 1 == |lines| {
      assert lines[n..] == [lines[n]];
      if !Active(lines, n) {
        FeedSkip(Before(lines, n), lines[n]);
      } else if lines[n] != "" {
        LastLine(Fold(lines, n), lines[n]);
      }
    } else {
      assert lines[n..][1..] == lines[n + 1..];
      NextLine(lines, n, Join(lines[n + 1..]));
      FoldFrom(lines, n + 1);
    }
  }

  /** For a well-formed file the character machine is the fold over its active lines. */
  lemma ScannedIsFold(lines: seq<string>)
    requires WellFormed(lines)
    ensures Scanned(Join(lines)) == Fold(lines, |lines|)
  {
    assert lines[0..] == lines;
    FoldFrom(lines, 0);
  }

  // ---------------------------------------------------------------- last one wins

  datatype Slot = AddressSlot | PortSlot | IdSlot

  function SlotOf(k: Key): Slot {
    match k
    case Address => AddressSlot
    case Server => AddressSlot
    case Port => PortSlot
    case Id => IdSlot
  }

  /** Line `i` is looked at and sets the slot. */
  predicate Sets(lines: seq<string>, i: nat, slot: Slot)
    requires i < |lines|
  {
    Active(lines, i) && Setting(lines[i]).Some? && SlotOf(Setting(lines[i]).value.0) == slot
  }

  /** The content of a slot: nothing, a text, or a number. */
  datatype Content = Nothing | Str(s: string) | Number(n: int)

  function Get(cfg: Config, slot: Slot): Content {
    match slot
    case AddressSlot => if cfg.address.Some? then Str(cfg.address.value) else Nothing
    case PortSlot => if cfg.port.Some? then Number(cfg.port.value) else Nothing
    case IdSlot => if cfg.id.Some? then Str(cfg.id.value) else Nothing
  }

  /** What a value means in a slot: the text itself, or for the port its number. */
  function Meaning(slot: Slot, v: string): Content {
    if slot == PortSlot then Number(PortOf(v)) else Str(v)
  }

  /** What a line puts into the slot. */
  function ValueIn(line: string, slot: Slot): Content {
    if Setting(line).Some? then Meaning(slot, Setting(line).value.1) else Nothing
  }

  lemma ApplyLineSets(cfg: Config, line: string, slot: Slot)
    ensures Get(ApplyLine(cfg, line), slot) ==
      if Setting(line).Some? && SlotOf(Setting(line).value.0) == slot then ValueIn(line, slot)
      else Get(cfg, slot)
  {
  }

  /** The last of the first `n` lines that sets the slot. */
  function LastSetting(lines: seq<string>, n: nat, slot: Slot): (j: Option<nat>)
    requires n <= |lines|
    ensures j.Some? ==> j.value < n
  {
    if n == 0 then None
    else if Sets(lines, n - 1, slot) then Some(n - 1)
    else LastSetting(lines, n - 1, slot)
  }

  lemma {:induction false} LastSettingIsLast(lines: seq<string>, n: nat, slot: Slot)
    requires n <= |lines|
    ensures var j := LastSetting(lines, n, slot);
            (j.Some? ==> Sets(lines, j.value, slot)) &&
            forall i :: (if j.Some? then j.value < i else 0 <= i) && i < n ==> !Sets(lines, i, slot)
  {
    if n > 0 {
      LastSettingIsLast(lines, n - 1, slot);
    }
  }

  /** The last active line that sets a slot decides it; a slot no active line sets stays unset, which
      `read_cfg` turns into the default. */
  lemma {:induction false} LastWins(lines: seq<string>, n: nat, slot: Slot)
    requires n <= |lines|
    ensures Get(Fold(lines, n), slot) ==
      match LastSetting(lines, n, slot)
      case None => Nothing
      case Some(j) => ValueIn(lines[j], slot)
  {
    if n > 0 {
      LastWins(lines, n - 1, slot);
      ApplyLineSets(Fold(lines, n - 1), lines[n - 1], slot);
    }
  }

  /** `read_cfg` on a well-formed file, told by its lines alone. */
  lemma ReadByLines(lines: seq<string>, slot: Slot)
    requires WellFormed(lines)
    ensures Get(Scanned(Join(lines)), slot) ==
      match LastSetting(lines, |lines|, slot)
      case None => Nothing
      case Some(j) => ValueIn(lines[j], slot)
  {
    ScannedIsFold(lines);
    LastWins(lines, |lines|, slot);
  }

  // ---------------------------------------------------------------- the lines by name

  lemma LinesOf(a: string, b: string, c: string)
    ensures Join([a]) == a && Join([a, b]) == a + "\n" + b && Join([a, b, c]) == a + "\n" + b + "\n" + c
  {
    assert [a, b][1..] == [b] && [a, b, c][1..] == [b, c] && [b, c][1..] == [c];
    assert Join([b, c]) == b + "\n" + c;
    assert a + "\n" + (b + "\n" + c) == a + "\n" + b + "\n" + c;
  }

  lemma NamedSetting(name: string, k: Key, v: string)
    requires name == Text(k)
    ensures Setting(name + v) == Some((k, v))
  {
    assert (name + v)[0] == name[0] && (name + v)[|name|..] == v;
  }

  /** A single line sets what its name says, and nothing else. */
  lemma LineByName(v: string)
    requires OneLine(v)
    ensures Scanned("address=" + v) == Config(Some(v), None, None)
    ensures Scanned("server=" + v) == Config(Some(v), None, None)
    ensures Scanned("port=" + v) == Config(None, Some(PortOf(v)), None)
    ensures Scanned("id=" + v) == Config(None, None, Some(v))
  {
    OneNamed("address=", Address, v);
    OneNamed("server=", Server, v);
    OneNamed("port=", Port, v);
    OneNamed("id=", Id, v);
  }

  lemma OneNamed(name: string, k: Key, v: string)
    requires name == Text(k) && OneLine(v)
    ensures Scanned(name + v) == Assign(EMPTY, k, v)
  {
    var lines := [name + v];
    NamedSetting(name, k, v);
    assert WellFormed(lines) && Active(lines, 0);
    LinesOf(name + v, "", "");
    ScannedIsFold(lines);
    assert Fold(lines, 1) == ApplyLine(Fold(lines, 0), lines[0]);
  }

  /** A line that begins with none of the four initials sets nothing. */
  lemma OtherLine(line: string)
    requires OneLine(line) && (line != "" ==> line[0] !in "aspi")
    ensures Scanned(line) == Config(None, None, None)
  {
    var lines := [line];
    assert line != "" ==> KeyOf(line[0]) == None;
    assert WellFormed(lines);
    LinesOf(line, "", "");
    ScannedIsFold(lines);
    assert Fold(lines, 1) == Fold(lines, 0);
  }

  /** A blank line hides the next one, whatever it holds. */
  lemma BlankHidesNext(v: string)
    requires OneLine(v)
    ensures Scanned("\nid=" + v) == Config(None, None, None)
  {
    var id := "id=" + v;
    var lines := ["", id];
    NamedSetting("id=", Id, v);
    LinesOf("", id, "");
    assert "" + "\n" + id == "\nid=" + v;
    assert WellFormed(lines);
    ScannedIsFold(lines);
    assert Active(lines, 0) && !Active(lines, 1);
    assert Fold(lines, 2) == Fold(lines, 1) == Fold(lines, 0);
  }

  /** It hides only that one: behind two blank lines a setting is read. */
  lemma BlankHidesOne(v: string)
    requires OneLine(v)
    ensures Scanned("\n\nid=" + v) == Config(None, None, Some(v))
  {
    var id := "id=" + v;
    var lines := ["", "", id];
    NamedSetting("id=", Id, v);
    LinesOf("", "", id);
    assert "" + "\n" + "" + "\n" + id == "\n\nid=" + v;
    assert WellFormed(lines);
    ScannedIsFold(lines);
    assert Active(lines, 0) && !Active(lines, 1) && Active(lines, 2);
    assert Fold(lines, 3) == ApplyLine(Fold(lines, 2), id) && Fold(lines, 2) == Fold(lines, 1) == Fold(lines, 0);
  }

  /** The two names of the address share one slot, and the last one counts. */
  lemma LastAddress(a: string, b: string)
    requires OneLine(a) && OneLine(b)
    ensures Scanned("address=" + a + "\n" + ("server=" + b)) == Config(Some(b), None, None)
    ensures Scanned("server=" + a + "\n" + ("address=" + b)) == Config(Some(b), None, None)
  {
    TwoNamed("address=", Address, a, "server=", Server, b);
    TwoNamed("server=", Server, a, "address=", Address, b);
  }

  lemma TwoNamed(name: string, k: Key, a: string, name2: string, k2: Key, b: string)
    requires name == Text(k) && name2 == Text(k2) && OneLine(a) && OneLine(b)
    ensures Scanned(name + a + "\n" + (name2 + b)) == Assign(Assign(EMPTY, k, a), k2, b)
  {
    var lines := [name + a, name2 + b];
    NamedSetting(name, k, a);
    NamedSetting(name2, k2, b);
    LinesOf(name + a, name2 + b, "");
    assert WellFormed(lines);
    ScannedIsFold(lines);
    assert Active(lines, 0) && Active(lines, 1);
    assert Fold(lines, 2) == ApplyLine(Fold(lines, 1), lines[1]);
    assert Fold(lines, 1) == ApplyLine(Fold(lines, 0), lines[0]);
  }
}
