/** The writing half of cfg_parsing.c: its scanner, the content it produces, and the method itself. */
module CfgWriter {
  import opened Stdio
  import opened CfgSpec
  import opened CfgLines
  import opened CfgReader

  // ---------------------------------------------------------------- the writer's scanner

  datatype Seek = AtStart | Skipping | Comparing(n: nat, ok: bool) | Stopped

  /** `found` is the position behind the last `name=` met so far. */
  datatype Hunt = Hunt(mode: Seek, found: Option<nat>)

  /** One character, with the position behind it; `text` is the name with its `=`. After a match the
      scanner believes itself at the start of a line again, in front of the value. */
  function HuntStep(text: string, s: Hunt, c: char, behind: nat): Hunt
    requires |text| >= 3
  {
    match s.mode
    case AtStart => s.(mode := if c == EOF then Stopped else if c == text[0] then Comparing(1, true) else Skipping)
    case Skipping => s.(mode := if c == EOF then Stopped else if c == '\n' then AtStart else Skipping)
    case Comparing(n, ok) =>
      var ok' := ok && n < |text| && c == text[n];
      if n + 1 < |text| then s.(mode := Comparing(n + 1, ok'))
      else if ok' then Hunt(AtStart, Some(behind))
      else s.(mode := if c == EOF then Stopped else Skipping)
    case Stopped => s
  }

  /** The scanner after the first `i` characters. */
  function HuntAt(text: string, content: string, i: nat): (s: Hunt)
    requires |text| >= 3 && i <= |content|
    ensures s.found.Some? ==> s.found.value <= i
  {
    if i == 0 then Hunt(AtStart, None) else HuntStep(text, HuntAt(text, content, i - 1), content[i - 1], i)
  }

  function Target(text: string, content: string): (p: Option<nat>)
    requires |text| >= 3
    ensures p.Some? ==> p.value <= |content|
  {
    HuntAt(text, content, |content|).found
  }

  lemma {:induction false} HuntStopped(text: string, content: string, i: nat, j: nat)
    requires |text| >= 3 && i <= j <= |content| && HuntAt(text, content, i).mode == Stopped
    ensures HuntAt(text, content, j) == HuntAt(text, content, i)
    decreases j
  {
    if i < j {
      HuntStopped(text, content, i, j - 1);
    }
  }

  lemma {:induction false} HuntSkipping(text: string, content: string, i: nat, j: nat)
    requires |text| >= 3 && i <= j <= |content| && HuntAt(text, content, i).mode == Skipping
    requires forall h :: i <= h < j ==> content[h] != '\n' && content[h] != EOF
    ensures HuntAt(text, content, j) == HuntAt(text, content, i)
    decreases j
  {
    if i < j {
      HuntSkipping(text, content, i, j - 1);
    }
  }

  /** The first `d` characters at `i` agree with those of `text` behind its initial. */
  predicate Continues(content: string, i: nat, text: string, d: nat)
    requires i + d <= |content| && d < |text|
  {
    forall h :: i <= h < i + d ==> content[h] == text[h - i + 1]
  }

  lemma {:induction false} HuntComparing(text: string, content: string, i: nat, d: nat)
    requires |text| >= 3 && i + d <= |content| && d < |text| - 1
    requires HuntAt(text, content, i).mode == Comparing(1, true)
    ensures HuntAt(text, content, i + d) ==
            HuntAt(text, content, i).(mode := Comparing(1 + d, Continues(content, i, text, d)))
  {
    if d > 0 {
      HuntComparing(text, content, i, d - 1);
      assert Continues(content, i, text, d) <==> Continues(content, i, text, d - 1) && content[i + d - 1] == text[d];
    }
  }

  /** A whole name is consumed, agreeing or not; only then does the scanner decide. */
  lemma HuntName(text: string, content: string, i: nat)
    requires |text| >= 3 && i + |text| - 1 <= |content|
    requires HuntAt(text, content, i).mode == Comparing(1, true)
    ensures var d := |text| - 1;
      HuntAt(text, content, i + d) ==
        if Continues(content, i, text, d) then Hunt(AtStart, Some(i + d))
        else HuntAt(text, content, i).(mode := if content[i + d - 1] == EOF then Stopped else Skipping)
  {
    var d := |text| - 1;
    HuntComparing(text, content, i, d - 1);
    assert Continues(content, i, text, d) <==> Continues(content, i, text, d - 1) && content[i + d - 1] == text[d];
  }

  // ---------------------------------------------------------------- any file without byte 0xFF

  /** Where the writer aims, told by the lines as it cuts them. A line that begins with the initial is
      consumed blindly up to the length of the name. If it is the name, the writer goes on behind it as if
      at the start of a line: a value that begins with the initial is consumed blindly in turn, and an
      empty value, like a blank line, hides the next line. */
  function BlindTarget(text: string, s: string, at: nat, found: Option<nat>): Option<nat>
    requires text != ""
    decreases |s|
  {
    if s == "" then found
    else if s[0] != text[0] then BlindRest(text, s, at, 1, found)
    else if |s| < |text| then found
    else if text <= s then BlindTarget(text, s[|text|..], at + |text|, Some(at + |text|))
    else BlindRest(text, s, at, |text|, found)
  }

  /** Behind the newline that ends a line of which `from` characters were consumed. */
  function BlindRest(text: string, s: string, at: nat, from: nat, found: Option<nat>): Option<nat>
    requires text != "" && 1 <= from <= |s|
    decreases |s|, 0
  {
    var e := NewlineFrom(s, from);
    if e >= |s| then found else BlindTarget(text, s[e + 1..], at + e + 1, found)
  }

  lemma {:induction false} BlindTargetFrom(text: string, content: string, at: nat)
    requires |text| >= 3 && Clean(content) && at <= |content| && HuntAt(text, content, at).mode == AtStart
    ensures Target(text, content) == BlindTarget(text, content[at..], at, HuntAt(text, content, at).found)
    decreases |content| - at, 1
  {
    var s := content[at..];
    if s != "" {
      assert s[0] == content[at] && content[at] in content;
      if s[0] != text[0] {
        BlindRestFrom(text, content, at, 1);
      } else {
        assert HuntAt(text, content, at + 1).mode == Comparing(1, true);
        if |s| < |text| {
          HuntComparing(text, content, at + 1, |s| - 1);
        } else {
          NameAt(text, content, at);
          if text <= s {
            assert s[|text|..] == content[at + |text|..];
            BlindTargetFrom(text, content, at + |text|);
          } else {
            BlindRestFrom(text, content, at, |text|);
          }
        }
      }
    }
  }

  /** The writer behind as many characters as the name has. */
  lemma NameAt(text: string, content: string, at: nat)
    requires |text| >= 3 && Clean(content) && at + |text| <= |content| && content[at] == text[0]
    requires HuntAt(text, content, at + 1) == HuntAt(text, content, at).(mode := Comparing(1, true))
    ensures HuntAt(text, content, at + |text|) ==
      if text <= content[at..] then Hunt(AtStart, Some(at + |text|))
      else Hunt(Skipping, HuntAt(text, content, at).found)
  {
    var to := at + |text|;
    HuntName(text, content, at + 1);
    assert at + 1 + (|text| - 1) == to && content[to - 1] in content;
    if Continues(content, at + 1, text, |text| - 1) {
      forall h | 0 <= h < |text|
        ensures content[at..][h] == text[h]
      {
        assert h > 0 ==> content[at + h] == text[at + h - (at + 1) + 1];
      }
      assert content[at..][..|text|] == text;
    } else {
      var h :| at + 1 <= h < to && content[h] != text[h - (at + 1) + 1];
      assert content[at..][h - at] != text[h - at];
    }
  }

  lemma {:induction false} BlindRestFrom(text: string, content: string, at: nat, from: nat)
    requires |text| >= 3 && Clean(content) && 1 <= from && at + from <= |content|
    requires HuntAt(text, content, at + from) == Hunt(Skipping, HuntAt(text, content, at).found)
    ensures Target(text, content) == BlindRest(text, content[at..], at, from, HuntAt(text, content, at).found)
    decreases |content| - at, 0
  {
    var s, found := content[at..], HuntAt(text, content, at).found;
    var e := NewlineFrom(s, from);
    var end := at + e;
    SkipTo(text, content, at, from, end, s);
    if e < |s| {
      NewlineStarts(text, content, end, found);
      assert s[e + 1..] == content[end + 1..];
      BlindTargetFrom(text, content, end + 1);
    }
  }

  lemma NewlineStarts(text: string, content: string, end: nat, found: Option<nat>)
    requires |text| >= 3 && end < |content| && content[end] == '\n'
    requires HuntAt(text, content, end) == Hunt(Skipping, found)
    ensures HuntAt(text, content, end + 1) == Hunt(AtStart, found)
  {
  }

  lemma SkipTo(text: string, content: string, at: nat, from: nat, end: nat, s: string)
    requires |text| >= 3 && Clean(content) && at + from <= end <= |content| && s == content[at..]
    requires HuntAt(text, content, at + from).mode == Skipping
    requires forall j :: from <= j < end - at ==> s[j] != '\n'
    ensures HuntAt(text, content, end) == HuntAt(text, content, at + from)
  {
    forall h | at + from <= h < end
      ensures content[h] != '\n' && content[h] != EOF
    {
      assert content[h] == s[h - at] && content[h] in content;
    }
    HuntSkipping(text, content, at + from, end);
  }

  /** The writer's character machine is this fold, for every file without byte 0xFF. */
  lemma TargetIsBlindFold(text: string, content: string)
    requires |text| >= 3 && Clean(content)
    ensures Target(text, content) == BlindTarget(text, content, 0, None)
  {
    BlindTargetFrom(text, content, 0);
    assert content[0..] == content;
  }

  // ---------------------------------------------------------------- what is produced

  /** What `write_to_cfg` produces: the old value behind the target gives way to the new one, or a new
      line is added at the very end. */
  function Written(content: string, name: string, value: string): string
    requires |name| >= 2
  {
    match Target(name + "=", content)
    case None => content + name + "=" + value + "\n"
    case Some(p) => content[..p] + value + RestFrom(content, LineEnd(content, p))
  }

  /** What is copied behind the new value when the old one ends at `end`: the copying loop stops at a
      byte 0xFF. */
  function RestFrom(content: string, end: nat): string
    requires end <= |content|
  {
    UntilEof(content[end..])
  }

  // ---------------------------------------------------------------- the method

  ghost predicate Stand(fmstate: char, mode: Seek) {
    match mode
    case AtStart => fmstate == 'e'
    case Skipping => fmstate == 'c'
    case Comparing(n, ok) => n == 1 && ok && fmstate == 'v'
    case Stopped => false
  }

  ghost predicate HuntHolds(text: string, content: string, pos: nat, fmstate: char, found: Option<nat>)
    requires |text| >= 3
  {
    pos <= |content| && HuntAt(text, content, pos).found == found && Stand(fmstate, HuntAt(text, content, pos).mode)
  }

  /** Case `v` of the loop in the automaton's terms. */
  lemma HuntCase(text: string, content: string, at: nat)
    requires |text| >= 3 && Clean(text) && at <= |content|
    requires HuntAt(text, content, at).mode == Comparing(1, true)
    ensures var to, found := at + |text| - 1, HuntAt(text, content, at).found;
      if Agrees(content, at, text, |text| - 1) then
        to <= |content| && HuntAt(text, content, to) == Hunt(AtStart, Some(to))
      else if CharAt(content, to - 1) == EOF then Target(text, content) == found
      else to <= |content| && HuntAt(text, content, to) == Hunt(Skipping, found)
  {
    var to := at + |text| - 1;
    AgreesCharwise(content, at, text, |text| - 1);
    if to > |content| {
      HuntComparing(text, content, at, |content| - at);
    } else {
      AgreesContinues(content, at, text);
      HuntName(text, content, at);
      if HuntAt(text, content, to).mode == Stopped {
        HuntStopped(text, content, to, |content|);
      }
    }
  }

  lemma AgreesContinues(content: string, at: nat, text: string)
    requires 1 <= |text| && at + |text| - 1 <= |content|
    ensures Agrees(content, at, text, |text| - 1) <==> Continues(content, at, text, |text| - 1)
  {
    var d := |text| - 1;
    if Agrees(content, at, text, d) {
      forall h | at <= h < at + d
        ensures content[h] == text[h - at + 1]
      {
        assert content[at..at + d][h - at] == text[1..d + 1][h - at];
      }
    }
  }

  /** `Compare` on the name followed by the test for `=`. */
  method CompareName(file: File, name: string, actC: char, ghost at: nat) returns (actC': char, matched: bool)
    requires |name| >= 2 && Clean(name)
    requires at <= |file.content| && file.pos == Min(at + 1, |file.content|) && actC == CharAt(file.content, at)
    modifies file`pos
    ensures file.pos == Min(at + |name|, |file.content|)
    ensures actC' == CharAt(file.content, at + |name| - 1)
    ensures matched ==> actC' == '='
    ensures matched == Agrees(file.content, at, name + "=", |name|)
  {
    var fmstate;
    fmstate, actC' := Compare(file, name, |name| - 1, 'v', actC, at);
    actC' := file.Fgetc();
    if actC' != '=' {
      fmstate := 'c';
    }
    matched := fmstate == 'v';
    ghost var content, n, text := file.content, |name|, name + "=";
    if at + n <= |content| {
      var seen, want := content[at..at + n], text[1..n + 1];
      assert seen == content[at..at + n - 1] + [content[at + n - 1]];
      assert want == name[1..n] + ['='];
      assert seen == want ==> seen[..n - 1] == want[..n - 1] && seen[n - 1] == want[n - 1];
    }
  }

  /** One turn of the scanning loop. */
  method HuntTurn(file: File, name: string, fmstate: char, found: Option<nat>)
    returns (actC: char, fmstate': char, found': Option<nat>)
    requires |name| >= 2 && Clean(name)
    requires HuntHolds(name + "=", file.content, file.pos, fmstate, found)
    modifies file`pos
    ensures if actC == EOF then Target(name + "=", file.content) == found'
            else old(file.pos) < file.pos && HuntHolds(name + "=", file.content, file.pos, fmstate', found')
  {
    ghost var text, content, at := name + "=", file.content, file.pos;
    fmstate', found' := fmstate, found;
    actC := file.Fgetc();
    if at < |content| && HuntAt(text, content, at + 1).mode == Stopped {
      HuntStopped(text, content, at + 1, |content|);
    }
    match fmstate {
      case 'e' => fmstate' := if actC == name[0] then 'v' else 'c';
      case 'c' => if actC == '\n' { fmstate' := 'e'; }
      case 'v' =>
        HuntCase(text, content, at);
        var matched;
        actC, matched := CompareName(file, name, actC, at);
        if matched {
          fmstate' := 'e';
          found' := Some(file.pos);
        } else {
          fmstate' := 'c';
        }
      case _ =>
    }
  }

  method FindTarget(file: File, name: string) returns (found: Option<nat>)
    requires |name| >= 2 && Clean(name) && file.pos == 0
    modifies file`pos
    ensures found == Target(name + "=", file.content)
  {
    found := None;
    var fmstate := 'e';
    var actC;
    while true
      invariant HuntHolds(name + "=", file.content, file.pos, fmstate, found)
      decreases |file.content| - file.pos
    {
      actC, fmstate, found := HuntTurn(file, name, fmstate, found);
      if actC == EOF {
        break;
      }
    }
  }

  /** `write_to_cfg`. `produced` is the content meant for the configuration file: a new setting is appended
      to the open file itself, a changed one goes to another file. `removed` and `renamed` tell whether the
      old file could be removed and whether there was a file to be renamed into its place. */
  method WriteToCfg(file: File?, name: string, value: string, removed: bool, renamed: bool)
    returns (ret: int, produced: string)
    requires |name| >= 2 && Clean(name)
    requires file != null ==> file.pos == 0
    modifies if file == null then {} else {file}
    ensures file == null ==> ret == 1
    ensures file != null ==>
      produced == Written(old(file.content), name, value) &&
      if Target(name + "=", old(file.content)).Some? then
        file.content == old(file.content) && ret == if removed && renamed then 0 else 1
      else
        file.content == produced == old(file.content) + name + "=" + value + "\n" && ret == 0
    ensures file != null && Target(name + "=", old(file.content)).Some? ==>
      var p := Target(name + "=", old(file.content)).value;
      produced == old(file.content)[..p] + value + UntilEof(old(file.content)[LineEnd(old(file.content), p)..])
  {
    if file == null {
      return 1, "";
    }
    var found := FindTarget(file, name);
    if found.Some? {
      produced := CopyChanged(file, found.value, value);
      if !removed || !renamed {
        return 1, produced;
      }
    } else {
      file.content := file.content + name + "=" + value + "\n";
      produced := file.content;
    }
    ret := 0;
  }

  /** Clones the file up to `position`, writes the value, skips the old one and copies what follows. */
  method CopyChanged(file: File, position: nat, value: string) returns (produced: string)
    requires position <= |file.content|
    modifies file`pos
    ensures produced == file.content[..position] + value + RestFrom(file.content, LineEnd(file.content, position))
  {
    ghost var content, end := file.content, LineEnd(file.content, position);
    file.pos := position;
    produced := file.content[..position] + value;
    var actC := file.Fgetc();
    ghost var at := position;   // where actC was read
    while actC != '\n' && actC != EOF
      invariant position <= at <= |content| && LineEnd(content, at) == end
      invariant file.pos == Min(at + 1, |content|) && actC == CharAt(content, at)
      decreases |content| - at
    {
      at := at + 1;
      actC := file.Fgetc();
    }
    ghost var head := produced;
    while actC != EOF
      invariant at <= |content| && file.pos == Min(at + 1, |content|) && actC == CharAt(content, at)
      invariant produced + RestFrom(content, at) == head + RestFrom(content, end)
      decreases |content| - at
    {
      assert content[at..][1..] == content[at + 1..];
      produced := produced + [actC];
      at := at + 1;
      actC := file.Fgetc();
    }
  }
}
