/** The file that `write_to_cfg` produces, line by line, and what `read_cfg` finds in it. */
module CfgRoundTrip {
  import opened Stdio
  import opened CfgSpec
  import opened CfgLines
  import opened CfgReader
  import opened CfgWriter

  // ---------------------------------------------------------------- lines and positions

  /** The name under which a key is written. */
  function Name(k: Key): (name: string)
    ensures |name| >= 2 && Clean(name) && name + "=" == Text(k)
  {
    Text(k)[..|Text(k)| - 1]
  }

  /** Number of characters in front of line `n`. */
  function Offset(lines: seq<string>, n: nat): nat
    requires n <= |lines|
  {
    if n == 0 then 0 else Offset(lines, n - 1) + |lines[n - 1]| + 1
  }

  predicate Mentions(line: string, k: Key) {
    Setting(line).Some? && Setting(line).value.0 == k
  }

  /** The last of the first `n` lines that is looked at and sets the key. */
  function LastMention(lines: seq<string>, n: nat, k: Key): (j: Option<nat>)
    requires n <= |lines|
    ensures j.Some? ==> j.value < n && Active(lines, j.value) && Mentions(lines[j.value], k)
  {
    if n == 0 then None
    else if Active(lines, n - 1) && Mentions(lines[n - 1], k) then Some(n - 1)
    else LastMention(lines, n - 1, k)
  }

  /** The position behind the key in the last of the first `n` lines that sets it. */
  function FoundBefore(lines: seq<string>, n: nat, k: Key): Option<nat>
    requires n <= |lines|
  {
    match LastMention(lines, n, k)
    case None => None
    case Some(j) => Some(KeyEnd(lines, j, k))
  }

  function KeyEnd(lines: seq<string>, j: nat, k: Key): nat
    requires j < |lines|
  {
    Offset(lines, j) + |Text(k)|
  }

  /** Settings of the key that are looked at are not empty and do not begin with its initial. */
  ghost predicate Plain(lines: seq<string>, n: nat, k: Key)
    requires n <= |lines|
  {
    forall i :: 0 <= i < n && Active(lines, i) ==> PlainLine(lines[i], k)
  }

  predicate PlainLine(line: string, k: Key) {
    Mentions(line, k) ==> |line| > |Text(k)| && line[|Text(k)|] != Text(k)[0]
  }

  function HuntBefore(lines: seq<string>, n: nat, k: Key): Hunt
    requires n < |lines|
  {
    Hunt(if Active(lines, n) then AtStart else Skipping, FoundBefore(lines, n, k))
  }

  /** The text of one line, without its newline, stands at `o`. */
  ghost predicate LineAt(content: string, o: nat, line: string) {
    o + |line| <= |content| && forall h :: o <= h < o + |line| ==> content[h] == line[h - o]
  }

  lemma KeyInitial(k: Key, c: char)
    ensures c == Text(k)[0] <==> KeyOf(c) == Some(k)
  {
  }

  /** A line of the key, or a longer one that begins like it. */
  lemma MentionsContinues(content: string, o: nat, line: string, k: Key)
    requires LineAt(content, o, line) && |line| >= |Text(k)| && line[0] == Text(k)[0]
    ensures Mentions(line, k) <==> Continues(content, o + 1, Text(k), |Text(k)| - 1)
  {
    var text := Text(k);
    KeyInitial(k, line[0]);
    if Continues(content, o + 1, text, |text| - 1) {
      forall h {:trigger text[h]} | 0 <= h < |text|
        ensures text[h] == line[h]
      {
        assert h > 0 ==> content[o + h] == text[o + h - (o + 1) + 1];
      }
      assert text == line[..|text|];
    } else {
      var h :| o + 1 <= h < o + |text| && content[h] != text[h - (o + 1) + 1];
      assert line[h - o] != text[h - o];
    }
  }

  // ---------------------------------------------------------------- the writer over plain lines

  /** The writer in a line that begins with the initial of the key, up to the length of the key. */
  lemma HuntKeyPart(content: string, o: nat, k: Key, line: string, to: nat)
    requires LineAt(content, o, line) && line != "" && line[0] == Text(k)[0]
    requires OneLine(line) && |line| >= |Text(k)|
    requires HuntAt(Text(k), content, o).mode == AtStart && to == o + |Text(k)|
    ensures HuntAt(Text(k), content, to) ==
      if Mentions(line, k) then Hunt(AtStart, Some(to)) else Hunt(Skipping, HuntAt(Text(k), content, o).found)
  {
    InitialRead(Text(k), content, o, line, to);
    MentionsContinues(content, o, line, k);
    assert to == o + 1 + |Text(k)| - 1;
    HuntName(Text(k), content, o + 1);
  }

  lemma InitialRead(text: string, content: string, o: nat, line: string, to: nat)
    requires |text| >= 3 && LineAt(content, o, line) && OneLine(line) && |line| >= |text| && line[0] == text[0]
    requires HuntAt(text, content, o).mode == AtStart && to == o + |text|
    ensures HuntAt(text, content, o + 1) == HuntAt(text, content, o).(mode := Comparing(1, true))
    ensures content[to - 1] != EOF
  {
    assert content[o] == line[0] && line[0] in line;
    assert content[to - 1] == line[|text| - 1] && line[|text| - 1] in line;
  }

  /** The writer inside one line that is looked at. */
  lemma HuntLine(content: string, o: nat, k: Key, line: string, to: nat, end: nat)
    requires LineAt(content, o, line) && line != ""
    requires OneLine(line) && LongEnough(line) && PlainLine(line, k)
    requires HuntAt(Text(k), content, o).mode == AtStart && to == o + |Text(k)| && end == o + |line|
    ensures HuntAt(Text(k), content, end) ==
            Hunt(Skipping, if Mentions(line, k) then Some(to) else HuntAt(Text(k), content, o).found)
  {
    KeyInitial(k, line[0]);
    assert content[o] == line[0] && line[0] in line;
    assert forall h :: o <= h < end ==> content[h] in line;
    if line[0] != Text(k)[0] {
      HuntSkipping(Text(k), content, o + 1, end);
    } else {
      HuntKeyPart(content, o, k, line, to);
      if Mentions(line, k) {
        assert content[to] == line[|Text(k)|] && content[to] in line;
        assert HuntAt(Text(k), content, to + 1) == Hunt(Skipping, Some(to));
        HuntSkipping(Text(k), content, to + 1, end);
      } else {
        HuntSkipping(Text(k), content, to, end);
      }
    }
  }

  /** The writer from the first character of a line to its newline or the end of the file. */
  lemma HuntOver(content: string, o: nat, end: nat, line: string, k: Key, active: bool)
    requires LineAt(content, o, line) && end == o + |line|
    requires OneLine(line) && LongEnough(line) && (active ==> PlainLine(line, k))
    requires HuntAt(Text(k), content, o).mode == if active then AtStart else Skipping
    ensures HuntAt(Text(k), content, end) ==
      Hunt(if active && line == "" then AtStart else Skipping,
           if active && Mentions(line, k) then Some(o + |Text(k)|) else HuntAt(Text(k), content, o).found)
  {
    if !active {
      assert forall h :: o <= h < end ==> content[h] in line;
      HuntSkipping(Text(k), content, o, end);
    } else if line != "" {
      HuntLine(content, o, k, line, o + |Text(k)|, end);
    }
  }

  /** Where a line of a joined text stands, and what follows it. */
  lemma LinesAt(content: string, lines: seq<string>, n: nat)
    requires n < |lines| && content == Join(lines)
    ensures LineAt(content, Offset(lines, n), lines[n])
    ensures var end := Offset(lines, n) + |lines[n]|;
            if n + 1 < |lines| then end < |content| && content[end] == '\n' else end == |content|
  {
    JoinAt(lines, n);
    Standing(Front(lines, n), lines[n], Back(lines, n));
  }

  lemma Standing(front: string, line: string, back: string)
    ensures LineAt(front + line + back, |front|, line)
    ensures back != "" ==> (front + line + back)[|front| + |line|] == back[0]
  {
  }

  /** The writer at the end of line `n`, in front of its newline or of the end of the file. */
  lemma HuntEnd(content: string, lines: seq<string>, n: nat, k: Key, end: nat, found: Option<nat>)
    requires n < |lines| && WellFormed(lines) && Plain(lines, n + 1, k)
    requires LineAt(content, Offset(lines, n), lines[n])
    requires HuntAt(Text(k), content, Offset(lines, n)) == HuntBefore(lines, n, k)
    requires found == FoundBefore(lines, n + 1, k) && end == Offset(lines, n) + |lines[n]|
    ensures HuntAt(Text(k), content, end) ==
            Hunt(if Active(lines, n) && lines[n] == "" then AtStart else Skipping, found)
  {
    HuntOver(content, Offset(lines, n), end, lines[n], k, Active(lines, n));
  }

  lemma NewlineTurns(text: string, content: string, end: nat, mode: Seek, found: Option<nat>)
    requires |text| >= 3 && text[0] != '\n' && end < |content| && content[end] == '\n'
    requires HuntAt(text, content, end) == Hunt(mode, found) && (mode == AtStart || mode == Skipping)
    ensures HuntAt(text, content, end + 1) == Hunt(if mode == Skipping then AtStart else Skipping, found)
  {
  }

  /** The writer in front of line `n` when the lines before it are plain. */
  lemma {:induction false} HuntLines(content: string, lines: seq<string>, n: nat, k: Key)
    requires n < |lines| && WellFormed(lines) && Plain(lines, n, k) && content == Join(lines)
    ensures Offset(lines, n) <= |content|
    ensures HuntAt(Text(k), content, Offset(lines, n)) == HuntBefore(lines, n, k)
  {
    if n > 0 {
      var m := n - 1;
      var end, found := Offset(lines, m) + |lines[m]|, FoundBefore(lines, n, k);
      var mode := if Active(lines, n) then AtStart else Skipping;
      assert end < |content| && content[end] == '\n' by {
        LinesAt(content, lines, m);
      }
      assert HuntAt(Text(k), content, end) == Hunt(if mode == Skipping then AtStart else Skipping, found) by {
        HuntLines(content, lines, m, k);
        LinesAt(content, lines, m);
        HuntEnd(content, lines, m, k, end, found);
      }
      NewlineTurns(Text(k), content, end, if mode == Skipping then AtStart else Skipping, found);
    }
  }

  /** Over plain lines the writer aims at the very occurrence whose value the reader honours. */
  lemma TargetIsLastMention(content: string, lines: seq<string>, k: Key)
    requires WellFormed(lines) && Plain(lines, |lines|, k) && content == Join(lines)
    ensures Target(Text(k), content) == FoundBefore(lines, |lines|, k)
  {
    HuntLastLine(content, lines, |lines| - 1, k);
  }

  lemma HuntLastLine(content: string, lines: seq<string>, n: nat, k: Key)
    requires n + 1 == |lines| && WellFormed(lines) && Plain(lines, n + 1, k) && content == Join(lines)
    ensures HuntAt(Text(k), content, |content|).found == FoundBefore(lines, n + 1, k)
  {
    var found := FoundBefore(lines, n + 1, k);
    HuntLines(content, lines, n, k);
    LinesAt(content, lines, n);
    HuntEnd(content, lines, n, k, |content|, found);
  }

  // ---------------------------------------------------------------- the writer over any lines

  lemma {:induction false} FoundStays(text: string, content: string, i: nat, j: nat)
    requires |text| >= 3 && i <= j <= |content| && HuntAt(text, content, i).found.Some?
    ensures HuntAt(text, content, j).found.Some?
    decreases j
  {
    if i < j {
      FoundStays(text, content, i, j - 1);
    }
  }

  lemma {:induction false} FirstMention(lines: seq<string>, n: nat, k: Key) returns (j: nat)
    requires n <= |lines| && LastMention(lines, n, k).Some?
    ensures j < n && Active(lines, j) && Mentions(lines[j], k) && LastMention(lines, j, k).None?
  {
    j := LastMention(lines, n, k).value;
    if LastMention(lines, j, k).Some? {
      j := FirstMention(lines, j, k);
    }
  }

  lemma {:induction false} NoMentionIsPlain(lines: seq<string>, n: nat, k: Key)
    requires n <= |lines| && LastMention(lines, n, k).None?
    ensures Plain(lines, n, k)
  {
    if n > 0 {
      NoMentionIsPlain(lines, n - 1, k);
    }
  }

  /** The writer finds the key if and only if some line that is looked at sets it. */
  lemma TargetIffMentioned(content: string, lines: seq<string>, k: Key)
    requires WellFormed(lines) && content == Join(lines)
    ensures Target(Text(k), content).Some? <==> LastMention(lines, |lines|, k).Some?
  {
    if LastMention(lines, |lines|, k).None? {
      NoMentionIsPlain(lines, |lines|, k);
      TargetIsLastMention(content, lines, k);
    } else {
      var j := FirstMention(lines, |lines|, k);
      NoMentionIsPlain(lines, j, k);
      HuntLines(content, lines, j, k);
      LinesAt(content, lines, j);
      KeyInitial(k, lines[j][0]);
      HuntKeyPart(content, Offset(lines, j), k, lines[j], KeyEnd(lines, j, k));
      FoundStays(Text(k), content, KeyEnd(lines, j, k), |content|);
    }
  }

  predicate LineStart(content: string, q: nat)
    requires q <= |content|
  {
    q == 0 || content[q - 1] == '\n'
  }

  /** Behind `p` ends a chain of one or more copies of the name that begins with a line. */
  predicate Chain(text: string, content: string, p: nat)
    requires |text| > 0
    decreases p
  {
    |text| <= p <= |content| && content[p - |text|..p] == text &&
    (LineStart(content, p - |text|) || Chain(text, content, p - |text|))
  }

  predicate Begins(text: string, content: string, q: nat)
    requires |text| > 0 && q <= |content|
  {
    LineStart(content, q) || Chain(text, content, q)
  }

  /** Where the writer may be at the start of a line, in the middle of a name, or have found one. */
  ghost predicate Chained(text: string, content: string, q: nat, s: Hunt)
    requires |text| >= 3 && q <= |content|
  {
    (s.mode.AtStart? ==> Begins(text, content, q)) &&
    (s.mode.Comparing? ==>
       var n := s.mode.n;
       1 <= n <= q && n < |text| && Begins(text, content, q - n) &&
       (s.mode.ok ==> content[q - n..q] == text[..n])) &&
    (s.found.Some? ==> Chain(text, content, s.found.value))
  }

  lemma ChainedStep(text: string, content: string, q: nat, s: Hunt)
    requires |text| >= 3 && q < |content| && Chained(text, content, q, s)
    ensures Chained(text, content, q + 1, HuntStep(text, s, content[q], q + 1))
  {
    match s.mode {
      case AtStart => assert content[q..q + 1] == [content[q]] && text[..1] == [text[0]];
      case Comparing(n, ok) => ComparingStep(text, content, q, s, n, ok);
      case _ =>
    }
  }

  lemma ComparingStep(text: string, content: string, q: nat, s: Hunt, n: nat, ok: bool)
    requires |text| >= 3 && q < |content| && Chained(text, content, q, s) && s.mode == Comparing(n, ok)
    ensures Chained(text, content, q + 1, HuntStep(text, s, content[q], q + 1))
  {
    var ok' := ok && content[q] == text[n];
    if n + 1 < |text| {
      ComparingOn(text, content, q, q - n, s, n, ok');
    } else if ok' {
      NameEnds(text, content, q - n, q);
    }
  }

  lemma ComparingOn(text: string, content: string, q: nat, from: nat, s: Hunt, n: nat, ok: bool)
    requires |text| >= 3 && q < |content| && 1 <= n && n + 1 < |text| && from + n == q
    requires Begins(text, content, from) && (ok ==> content[from..q] == text[..n] && content[q] == text[n])
    requires s.found.Some? ==> Chain(text, content, s.found.value)
    ensures Chained(text, content, q + 1, s.(mode := Comparing(n + 1, ok)))
  {
    if ok {
      OneLonger(content, from, q, text, n);
    }
    assert q + 1 - (n + 1) == from;
  }

  lemma NameEnds(text: string, content: string, from: nat, q: nat)
    requires |text| >= 3 && q + 1 == from + |text| <= |content| && Begins(text, content, from)
    requires content[from..q] == text[..|text| - 1] && content[q] == text[|text| - 1]
    ensures Chain(text, content, q + 1)
  {
    assert content[from..q + 1] == text by {
      OneLonger(content, from, q, text, |text| - 1);
      assert text[..|text|] == text;
    }
    ChainLonger(text, content, from, q + 1);
  }

  lemma OneLonger(content: string, from: nat, q: nat, text: string, n: nat)
    requires from <= q < |content| && n < |text| && content[from..q] == text[..n] && content[q] == text[n]
    ensures content[from..q + 1] == text[..n + 1]
  {
    assert content[from..q + 1] == content[from..q] + [content[q]];
    assert text[..n + 1] == text[..n] + [text[n]];
  }

  lemma ChainLonger(text: string, content: string, from: nat, to: nat)
    requires |text| >= 3 && to == from + |text| <= |content| && content[from..to] == text
    requires Begins(text, content, from)
    ensures Chain(text, content, to)
  {
    assert to - |text| == from;
  }

  lemma {:induction false} ChainedAt(text: string, content: string, q: nat)
    requires |text| >= 3 && q <= |content|
    ensures Chained(text, content, q, HuntAt(text, content, q))
  {
    if q > 0 {
      ChainedAt(text, content, q - 1);
      ChainedStep(text, content, q - 1, HuntAt(text, content, q - 1));
    }
  }

  /** Every position lies in a line or at its end. */
  lemma {:induction false} LineOf(lines: seq<string>, n: nat, q: nat) returns (i: nat)
    requires n < |lines| && q <= Offset(lines, n) + |lines[n]|
    ensures i <= n && Offset(lines, i) <= q <= Offset(lines, i) + |lines[i]|
  {
    i := n;
    if q < Offset(lines, n) {
      i := LineOf(lines, n - 1, q);
    }
  }

  lemma {:induction false} OffsetsGrow(lines: seq<string>, i: nat, j: nat)
    requires i < j < |lines|
    ensures Offset(lines, i) + |lines[i]| < Offset(lines, j)
    decreases j
  {
    if i + 1 < j {
      OffsetsGrow(lines, i, j - 1);
    }
  }

  lemma LineStarts(content: string, lines: seq<string>, q: nat) returns (i: nat)
    requires WellFormed(lines) && content == Join(lines) && q <= |content| && LineStart(content, q)
    ensures i < |lines| && Offset(lines, i) == q
  {
    LinesAt(content, lines, |lines| - 1);
    i := LineOf(lines, |lines| - 1, q);
    LinesAt(content, lines, i);
    NotStart(content, Offset(lines, i), lines[i], q);
  }

  lemma NotStart(content: string, o: nat, line: string, q: nat)
    requires LineAt(content, o, line) && OneLine(line) && o <= q <= o + |line|
    ensures LineStart(content, q) && o < q ==> q - 1 < o
  {
    if o < q {
      assert content[q - 1] == line[q - 1 - o] && line[q - 1 - o] in line;
    }
  }

  /** A name that starts inside a line stays inside it. */
  lemma NameInside(content: string, o: nat, line: string, d: nat, to: nat, text: string)
    requires LineAt(content, o, line) && OneLine(text) && d <= |line|
    requires o + |line| < |content| ==> content[o + |line|] == '\n'
    requires to == o + d + |text| && to <= |content| && content[to - |text|..to] == text
    ensures d + |text| <= |line| && line[d..d + |text|] == text
  {
    if d + |text| <= |line| {
      assert line[d..d + |text|] == content[to - |text|..to];
    }
  }

  /** A chain lies within one line: behind the key, or behind further copies of it. */
  lemma {:induction false} ChainPlace(content: string, lines: seq<string>, k: Key, p: nat) returns (i: nat, d: nat)
    requires WellFormed(lines) && content == Join(lines) && Chain(Text(k), content, p)
    ensures i < |lines| && p == Offset(lines, i) + d && ChainOf(Text(k), lines[i], d)
    decreases p
  {
    var text := Text(k);
    var q := p - |text|;
    if LineStart(content, q) {
      i := LineStarts(content, lines, q);
      d := |text|;
      LinesAt(content, lines, i);
      NameInside(content, q, lines[i], 0, p, text);
    } else {
      var d';
      i, d' := ChainPlace(content, lines, k, q);
      d := d' + |text|;
      ChainOn(content, lines, text, i, d', d, p);
    }
  }

  lemma ChainOn(content: string, lines: seq<string>, text: string, i: nat, d: nat, to: nat, p: nat)
    requires i < |lines| && WellFormed(lines) && content == Join(lines) && OneLine(text)
    requires ChainOf(text, lines[i], d) && to == d + |text| && p == Offset(lines, i) + to
    requires p <= |content| && content[p - |text|..p] == text
    ensures ChainOf(text, lines[i], to)
  {
    LinesAt(content, lines, i);
    NameInside(content, Offset(lines, i), lines[i], d, p, text);
    ChainMore(text, lines[i], d, to);
  }

  /** The line begins with the name, and so does what follows it up to `d`, if anything. */
  ghost predicate ChainOf(text: string, line: string, d: nat) {
    |text| <= d <= |line| && text <= line && (d > |text| ==> text <= line[|text|..d])
  }

  lemma ChainMore(text: string, line: string, d: nat, to: nat)
    requires ChainOf(text, line, d) && to == d + |text| <= |line| && line[d..to] == text
    ensures ChainOf(text, line, to)
  {
    var n := |text|;
    if d == n {
      assert line[n..to] == text;
    } else {
      assert line[n..to][..n] == line[n..d][..n];
    }
  }

  /** Where the writer aims: behind the key in one line, or behind copies of the key in its value. */
  lemma TargetPlace(content: string, lines: seq<string>, k: Key) returns (i: nat, d: nat)
    requires WellFormed(lines) && content == Join(lines) && Target(Text(k), content).Some?
    ensures i < |lines| && Target(Text(k), content) == Some(Offset(lines, i) + d) && ChainOf(Text(k), lines[i], d)
  {
    ChainedAt(Text(k), content, |content|);
    i, d := ChainPlace(content, lines, k, Target(Text(k), content).value);
  }

  // ---------------------------------------------------------------- the lines that are written

  /** The part of a file in front of line `j`, and the part behind it with its newline. */
  function Front(lines: seq<string>, j: nat): string
    requires j <= |lines|
  {
    if j == 0 then "" else Front(lines, j - 1) + (lines[j - 1] + "\n")
  }

  function Back(lines: seq<string>, j: nat): string
    requires j < |lines|
  {
    if j + 1 == |lines| then "" else "\n" + Join(lines[j + 1..])
  }

  lemma {:induction false} JoinFrom(lines: seq<string>, j: nat)
    requires j < |lines|
    ensures Join(lines) == Front(lines, j) + Join(lines[j..]) && |Front(lines, j)| == Offset(lines, j)
  {
    if j == 0 {
      assert lines[0..] == lines && "" + Join(lines) == Join(lines);
    } else {
      JoinFrom(lines, j - 1);
      assert lines[j - 1..][1..] == lines[j..];
      Regroup(Front(lines, j - 1), lines[j - 1] + "\n", Join(lines[j..]), "");
    }
  }

  lemma JoinAt(lines: seq<string>, j: nat)
    requires j < |lines|
    ensures Join(lines) == Front(lines, j) + lines[j] + Back(lines, j)
    ensures |Front(lines, j)| == Offset(lines, j)
  {
    JoinFrom(lines, j);
    JoinHere(lines, j);
    Regroup(Front(lines, j), lines[j], Back(lines, j), "");
  }

  lemma JoinHere(lines: seq<string>, j: nat)
    requires j < |lines|
    ensures Join(lines[j..]) == lines[j] + Back(lines, j)
  {
    if j + 1 == |lines| {
      assert lines[j..] == [lines[j]];
    } else {
      assert lines[j..][1..] == lines[j + 1..];
      assert lines[j] + "\n" + Join(lines[j + 1..]) == lines[j] + ("\n" + Join(lines[j + 1..]));
    }
  }

  lemma JoinChanged(lines: seq<string>, j: nat, line: string)
    requires j < |lines|
    ensures Join(lines[j := line]) == Front(lines, j) + line + Back(lines, j)
  {
    JoinAt(lines[j := line], j);
    assert lines[j := line][j + 1..] == lines[j + 1..];
    FrontSame(lines[j := line], lines, j);
  }

  lemma {:induction false} FrontSame(a: seq<string>, b: seq<string>, j: nat)
    requires j <= |a| && j <= |b| && forall i :: 0 <= i < j ==> a[i] == b[i]
    ensures Front(a, j) == Front(b, j)
  {
    if j > 0 {
      FrontSame(a, b, j - 1);
    }
  }

  lemma {:induction false} BackClean(lines: seq<string>, j: nat)
    requires WellFormed(lines) && j < |lines|
    ensures Clean(Back(lines, j))
    decreases |lines| - j
  {
    if j + 1 < |lines| {
      BackClean(lines, j + 1);
      assert lines[j + 1..][0] == lines[j + 1];
      if |lines[j + 1..]| > 1 {
        assert lines[j + 1..][1..] == lines[j + 2..];
      }
    }
  }

  /** The end of a line that is followed by what stands behind it in a file. */
  lemma {:induction false} EndOfLine(content: string, q: nat, v: string, back: string)
    requires q <= |content| && content[q..] == v + back && OneLine(v)
    requires back == "" || back[0] == '\n'
    ensures LineEnd(content, q) == q + |v|
    decreases |v|
  {
    if v == "" {
      assert content[q..] == back;
      if back != "" {
        assert content[q] == back[0];
      }
    } else {
      assert content[q] == content[q..][0] == v[0];
      assert content[q + 1..] == content[q..][1..] == v[1..] + back;
      EndOfLine(content, q + 1, v[1..], back);
    }
  }

  lemma Rewritten(content: string, front: string, v: string, back: string, name: string, value: string)
    requires |name| >= 2 && content == front + v + back
    requires Target(name + "=", content).Some? && Target(name + "=", content).value == |front|
    requires OneLine(v) && Clean(back) && (back == "" || back[0] == '\n')
    ensures Written(content, name, value) == front + value + back
  {
    assert content[..|front|] == front;
    assert content[|front|..] == v + back;
    EndOfLine(content, |front|, v, back);
    assert content[|front| + |v|..] == back;
    UntilEofClean(back);
  }

  lemma Regroup(a: string, b: string, c: string, d: string)
    ensures a + b + c + d == a + (b + c) + d
  {
  }

  /** The line aimed at keeps its part in front of the position and gets the new value behind it; nothing
      else changes. */
  lemma WrittenInLine(lines: seq<string>, after: seq<string>, i: nat, d: nat, k: Key, value: string)
    requires i < |lines| && WellFormed(lines) && d <= |lines[i]| && after == lines[i := lines[i][..d] + value]
    requires Target(Text(k), Join(lines)) == Some(Offset(lines, i) + d)
    ensures Written(Join(lines), Name(k), value) == Join(after)
  {
    var content, front, back := Join(lines), Front(lines, i), Back(lines, i);
    var head, v := lines[i][..d], lines[i][d..];
    JoinAt(lines, i);
    assert lines[i] == head + v;
    Regroup(front, head, v, back);
    BackClean(lines, i);
    assert OneLine(v);
    Rewritten(content, front + head, v, back, Name(k), value);
    JoinChanged(lines, i, head + value);
    Regroup(front, head, value, back);
  }

  /** A new setting is glued to the last line, whatever that line holds. */
  lemma WrittenAtEnd(lines: seq<string>, after: seq<string>, n: nat, k: Key, value: string)
    requires WellFormed(lines) && n == |lines| - 1 && Target(Text(k), Join(lines)).None?
    requires after == lines[n := lines[n] + (Text(k) + value)] + [""]
    ensures Written(Join(lines), Name(k), value) == Join(after)
  {
    JoinAt(lines, n);
    JoinGlued(lines, n, Text(k) + value);
    Gluing(Front(lines, n), lines[n], Name(k), value);
  }

  lemma Gluing(front: string, line: string, name: string, value: string)
    ensures front + line + "" + name + "=" + value + "\n" == front + (line + (name + "=" + value)) + "\n"
  {
  }

  lemma JoinGlued(lines: seq<string>, n: nat, more: string)
    requires n == |lines| - 1
    ensures Join(lines[n := lines[n] + more] + [""]) == Front(lines, n) + (lines[n] + more) + "\n"
  {
    var line, longer := lines[n] + more, lines + [""];
    JoinChanged(longer, n, line);
    assert longer[n := line] == lines[n := line] + [""];
    FrontSame(longer, lines, n);
    assert longer[n + 1..] == [""];
    assert Back(longer, n) == "\n" + Join([""]) == "\n";
  }

  // ---------------------------------------------------------------- what is read from them

  lemma SettingOf(k: Key, value: string)
    ensures Setting(Text(k) + value) == Some((k, value))
  {
    KeyInitial(k, (Text(k) + value)[0]);
    assert (Text(k) + value)[|Text(k)|..] == value;
  }

  /** Changing one line does not change which lines are looked at, unless it was blank before or after. */
  lemma {:induction false} ActiveChanged(a: seq<string>, b: seq<string>, i: nat)
    requires i < |a| && i < |b| && forall h :: 0 <= h < i ==> (a[h] == "") == (b[h] == "")
    ensures Active(a, i) == Active(b, i)
  {
    if i > 0 {
      ActiveChanged(a, b, i - 1);
    }
  }

  lemma {:induction false} LastSettingSame(a: seq<string>, b: seq<string>, n: nat, slot: Slot)
    requires n <= |a| && n <= |b| && forall i :: 0 <= i < n ==> Sets(a, i, slot) == Sets(b, i, slot)
    ensures LastSetting(a, n, slot) == LastSetting(b, n, slot)
  {
    if n > 0 {
      LastSettingSame(a, b, n - 1, slot);
    }
  }

  /** What a slot holds once line `i` gives the value `v` to its key. */
  function Replaced(lines: seq<string>, i: nat, v: string, slot: Slot): Content {
    match LastSetting(lines, |lines|, slot)
    case None => Nothing
    case Some(j) => if j == i then Meaning(slot, v) else ValueIn(lines[j], slot)
  }

  /** A line of the key with a new end: only the value of that line changes. */
  lemma ReadInLine(lines: seq<string>, after: seq<string>, i: nat, d: nat, k: Key, value: string, slot: Slot)
    requires i < |lines| && WellFormed(lines) && OneLine(value)
    requires Text(k) <= lines[i] && |Text(k)| <= d <= |lines[i]| && after == lines[i := lines[i][..d] + value]
    ensures ReadBefore(after, slot) == Replaced(lines, i, lines[i][|Text(k)|..d] + value, slot)
  {
    var line, v := lines[i], lines[i][|Text(k)|..d];
    assert line == Text(k) + line[|Text(k)|..];
    assert after[i] == Text(k) + (v + value);
    SettingOf(k, line[|Text(k)|..]);
    SettingOf(k, v + value);
    KeyInitial(k, after[i][0]);
    assert WellFormed(after);
    forall h | 0 <= h < |lines|
      ensures Sets(after, h, slot) == Sets(lines, h, slot)
    {
      ActiveChanged(after, lines, h);
    }
    LastSettingSame(after, lines, |lines|, slot);
    ReadByLines(after, slot);
  }

  /** What a line says once text is glued behind it. */
  lemma SettingGlued(line: string, k: Key, value: string)
    requires LongEnough(line)
    ensures Setting(line + (Text(k) + value)) ==
      if line == "" then Some((k, value))
      else match Setting(line)
           case None => None
           case Some((k', v)) => Some((k', v + (Text(k) + value)))
  {
    var more := Text(k) + value;
    if line == "" {
      assert line + more == more;
      SettingOf(k, value);
    } else if KeyOf(line[0]).Some? {
      var k' := KeyOf(line[0]).value;
      assert (line + more)[..|Text(k')|] == line[..|Text(k')|];
      assert (line + more)[|Text(k')|..] == line[|Text(k')|..] + more;
    }
  }

  lemma GluedWellFormed(lines: seq<string>, n: nat, k: Key, value: string)
    requires WellFormed(lines) && OneLine(value) && n == |lines| - 1
    ensures WellFormed(lines[n := lines[n] + (Text(k) + value)] + [""])
  {
    var line := lines[n] + (Text(k) + value);
    assert OneLine(line);
    if lines[n] == "" {
      KeyInitial(k, line[0]);
    } else {
      assert line[0] == lines[n][0];
    }
  }

  lemma SetsBefore(a: seq<string>, b: seq<string>, n: nat, slot: Slot)
    requires n <= |a| && n <= |b| && forall i :: 0 <= i < n ==> a[i] == b[i]
    ensures forall i :: 0 <= i < n ==> Sets(a, i, slot) == Sets(b, i, slot)
  {
    forall i | 0 <= i < n
      ensures Sets(a, i, slot) == Sets(b, i, slot)
    {
      ActiveChanged(a, b, i);
    }
  }

  /** A setting glued to the last line. On an empty line that is looked at it is read; otherwise it becomes
      part of the value that line sets, if it sets one. */
  lemma ReadGlued(lines: seq<string>, after: seq<string>, n: nat, k: Key, value: string, slot: Slot)
    requires WellFormed(lines) && OneLine(value) && n == |lines| - 1
    requires after == lines[n := lines[n] + (Text(k) + value)] + [""]
    ensures Get(Scanned(Join(after)), slot) ==
      if slot == SlotOf(k) && Appends(lines) then Meaning(slot, value)
      else if Sets(lines, n, slot) then Meaning(slot, Setting(lines[n]).value.1 + (Text(k) + value))
      else Get(Scanned(Join(lines)), slot)
  {
    GluedWellFormed(lines, n, k, value);
    SettingGlued(lines[n], k, value);
    GluedLast(lines, after, n, k, value, slot);
    ReadByLines(after, slot);
    ReadByLines(lines, slot);
    assert |after| == n + 2;
    var j := LastSetting(lines, n, slot);
    assert j.Some? ==> after[j.value] == lines[j.value];
  }

  lemma GluedLast(lines: seq<string>, after: seq<string>, n: nat, k: Key, value: string, slot: Slot)
    requires |lines| == n + 1 && after == lines[n := lines[n] + (Text(k) + value)] + [""]
    requires LongEnough(lines[n])
    ensures var here := (slot == SlotOf(k) && Appends(lines)) || Sets(lines, n, slot);
            LastSetting(after, n + 2, slot) == if here then Some(n) else LastSetting(lines, n, slot)
  {
    GluedSets(lines, after, n, k, value, slot);
    SetsBefore(after, lines, n, slot);
    LastSettingSame(after, lines, n, slot);
    assert !Sets(after, n + 1, slot);
    assert LastSetting(after, n + 2, slot) == LastSetting(after, n + 1, slot);
  }

  lemma GluedSets(lines: seq<string>, after: seq<string>, n: nat, k: Key, value: string, slot: Slot)
    requires |lines| == n + 1 && after == lines[n := lines[n] + (Text(k) + value)] + [""]
    requires LongEnough(lines[n])
    ensures |after| == n + 2
    ensures Sets(after, n, slot) <==> (slot == SlotOf(k) && Appends(lines)) || Sets(lines, n, slot)
  {
    GluedSlot(lines[n], k, value, slot);
    ActiveChanged(after, lines, n);
    assert after[n] == lines[n] + (Text(k) + value) && |lines| - 1 == n;
  }

  lemma GluedSlot(line: string, k: Key, value: string, slot: Slot)
    requires LongEnough(line)
    ensures SetsSlot(line + (Text(k) + value), slot) <==> if line == "" then slot == SlotOf(k) else SetsSlot(line, slot)
  {
    SettingGlued(line, k, value);
  }

  predicate SetsSlot(line: string, slot: Slot) {
    Setting(line).Some? && SlotOf(Setting(line).value.0) == slot
  }

  /** The file ends in a line that is empty and looked at. */
  predicate Appends(lines: seq<string>)
    requires lines != []
  {
    lines[|lines| - 1] == "" && Active(lines, |lines| - 1)
  }

  // ---------------------------------------------------------------- write, then read

  /** What a reader finds in a slot of a file, and in the same file after a write. */
  function ReadBefore(lines: seq<string>, slot: Slot): Content
    requires lines != []
  {
    Get(Scanned(Join(lines)), slot)
  }

  function ReadAfter(lines: seq<string>, k: Key, value: string, slot: Slot): Content
    requires lines != []
  {
    Get(Scanned(Written(Join(lines), Name(k), value)), slot)
  }

  /** The position lies in the value of line `j`, behind the key or further on. */
  predicate InValue(lines: seq<string>, j: nat, k: Key, p: nat)
    requires j < |lines|
  {
    KeyEnd(lines, j, k) <= p <= Offset(lines, j) + |lines[j]|
  }

  /** What the write makes of a slot, told by the old lines and the position the writer aims at. */
  function Expected(lines: seq<string>, k: Key, value: string, slot: Slot): Content
    requires lines != []
  {
    var n := |lines| - 1;
    match Target(Text(k), Join(lines))
    case None =>
      if slot == SlotOf(k) && Appends(lines) then Meaning(slot, value)
      else if Sets(lines, n, slot) then Meaning(slot, Setting(lines[n]).value.1 + (Text(k) + value))
      else ReadBefore(lines, slot)
    case Some(p) => Changed(lines, k, value, slot, p)
  }

  function Changed(lines: seq<string>, k: Key, value: string, slot: Slot, p: nat): Content {
    match LastSetting(lines, |lines|, slot)
    case None => Nothing
    case Some(j) => ValueNow(lines, k, value, slot, p, j)
  }

  function ValueNow(lines: seq<string>, k: Key, value: string, slot: Slot, p: nat, j: nat): Content
    requires j < |lines|
  {
    if InValue(lines, j, k, p) then Meaning(slot, lines[j][|Text(k)|..p - Offset(lines, j)] + value)
    else ValueIn(lines[j], slot)
  }

  /** Every slot after a write to any well-formed file. */
  lemma ReadAfterWrite(lines: seq<string>, k: Key, value: string, slot: Slot)
    requires WellFormed(lines) && OneLine(value)
    ensures ReadAfter(lines, k, value, slot) == Expected(lines, k, value, slot)
  {
    if Target(Text(k), Join(lines)).None? {
      var n := |lines| - 1;
      ReadAfterGlue(lines, lines[n := lines[n] + (Text(k) + value)] + [""], n, k, value, slot);
    } else {
      ReadAfterChange(lines, k, value, slot, Target(Text(k), Join(lines)).value);
    }
  }

  lemma ReadAfterChange(lines: seq<string>, k: Key, value: string, slot: Slot, p: nat)
    requires WellFormed(lines) && OneLine(value) && Target(Text(k), Join(lines)) == Some(p)
    ensures ReadAfter(lines, k, value, slot) == Changed(lines, k, value, slot, p)
  {
    var i, d := TargetPlace(Join(lines), lines, k);
    var after := lines[i := lines[i][..d] + value];
    ReadWritten(lines, after, i, d, k, value, slot);
    ReadChanged(lines, after, i, d, p, k, value, slot);
  }

  lemma ReadAfterGlue(lines: seq<string>, after: seq<string>, n: nat, k: Key, value: string, slot: Slot)
    requires WellFormed(lines) && OneLine(value) && n == |lines| - 1
    requires after == lines[n := lines[n] + (Text(k) + value)] + [""] && Target(Text(k), Join(lines)).None?
    ensures ReadAfter(lines, k, value, slot) == Expected(lines, k, value, slot)
  {
    WrittenAtEnd(lines, after, n, k, value);
    ReadGlued(lines, after, n, k, value, slot);
  }

  lemma ReadWritten(lines: seq<string>, after: seq<string>, i: nat, d: nat, k: Key, value: string, slot: Slot)
    requires i < |lines| && WellFormed(lines) && d <= |lines[i]| && after == lines[i := lines[i][..d] + value]
    requires Target(Text(k), Join(lines)) == Some(Offset(lines, i) + d)
    ensures ReadAfter(lines, k, value, slot) == ReadBefore(after, slot)
  {
    WrittenInLine(lines, after, i, d, k, value);
  }

  lemma ReadChanged(lines: seq<string>, after: seq<string>, i: nat, d: nat, p: nat, k: Key, value: string, slot: Slot)
    requires i < |lines| && Text(k) <= lines[i] && |Text(k)| <= d <= |lines[i]| && p == Offset(lines, i) + d
    requires WellFormed(lines) && OneLine(value) && after == lines[i := lines[i][..d] + value]
    ensures ReadBefore(after, slot) == Changed(lines, k, value, slot, p)
  {
    ReadInLine(lines, after, i, d, k, value, slot);
    ChangedInLine(lines, i, d, p, k, value, slot);
  }

  lemma ChangedInLine(lines: seq<string>, i: nat, d: nat, p: nat, k: Key, value: string, slot: Slot)
    requires i < |lines| && |Text(k)| <= d <= |lines[i]| && p == Offset(lines, i) + d
    ensures Changed(lines, k, value, slot, p) == Replaced(lines, i, lines[i][|Text(k)|..d] + value, slot)
  {
    match LastSetting(lines, |lines|, slot) {
      case None =>
      case Some(j) =>
        ValueInLine(lines, i, d, p, k, value, slot, j);
    }
  }

  lemma ValueInLine(lines: seq<string>, i: nat, d: nat, p: nat, k: Key, value: string, slot: Slot, j: nat)
    requires i < |lines| && j < |lines| && |Text(k)| <= d <= |lines[i]| && p == Offset(lines, i) + d
    ensures ValueNow(lines, k, value, slot, p, j) ==
            if j == i then Meaning(slot, lines[i][|Text(k)|..d] + value) else ValueIn(lines[j], slot)
  {
    OnlyLine(lines, i, d, p, j, k);
  }

  lemma OnlyLine(lines: seq<string>, i: nat, d: nat, p: nat, j: nat, k: Key)
    requires i < |lines| && j < |lines| && |Text(k)| <= d <= |lines[i]| && p == Offset(lines, i) + d
    ensures InValue(lines, j, k, p) <==> i == j
    ensures p == KeyEnd(lines, j, k) ==> i == j
    ensures i == j ==> p - Offset(lines, j) == d
  {
    if i < j {
      OffsetsGrow(lines, i, j);
    } else if j < i {
      OffsetsGrow(lines, j, i);
    }
  }

  /** Whether a value can be read back. A key that was found: the writer aims at the setting in force, or
      the value in force means the same and stays. A key that was not found: the file ends in an empty line
      that is looked at, or the other key of the slot gives the value already and is not touched. */
  predicate ReadsBack(lines: seq<string>, k: Key, value: string)
    requires lines != []
  {
    var slot := SlotOf(k);
    var same := ReadBefore(lines, slot) == Meaning(slot, value);
    match Target(Text(k), Join(lines))
    case None => Appends(lines) || (same && !Sets(lines, |lines| - 1, slot))
    case Some(p) => ChangeShows(lines, k, same, p)
  }

  predicate ChangeShows(lines: seq<string>, k: Key, same: bool, p: nat) {
    match LastSetting(lines, |lines|, SlotOf(k))
    case None => false
    case Some(j) => p == KeyEnd(lines, j, k) || (same && (InValue(lines, j, k, p) ==> k == Port))
  }

  /** Write, then read, on any well-formed file: the value comes back exactly when `ReadsBack` holds, and
      every other setting is what it was when the key was found or a line of its own was appended. */
  lemma WriteThenRead(lines: seq<string>, k: Key, value: string, slot: Slot)
    requires WellFormed(lines) && OneLine(value)
    ensures ReadAfter(lines, k, value, SlotOf(k)) == Meaning(SlotOf(k), value) <==> ReadsBack(lines, k, value)
    ensures slot != SlotOf(k) && (Target(Text(k), Join(lines)).Some? || Appends(lines)) ==>
              ReadAfter(lines, k, value, slot) == ReadBefore(lines, slot)
  {
    ReadAfterWrite(lines, k, value, SlotOf(k));
    ReadAfterWrite(lines, k, value, slot);
    if Target(Text(k), Join(lines)).None? {
      NewSetting(lines, k, value);
    } else {
      OldSettings(lines, k, value, slot, Target(Text(k), Join(lines)).value);
    }
  }

  lemma OldSettings(lines: seq<string>, k: Key, value: string, slot: Slot, p: nat)
    requires WellFormed(lines) && Target(Text(k), Join(lines)) == Some(p)
    ensures Changed(lines, k, value, SlotOf(k), p) == Meaning(SlotOf(k), value) <==>
            ChangeShows(lines, k, ReadBefore(lines, SlotOf(k)) == Meaning(SlotOf(k), value), p)
    ensures slot != SlotOf(k) ==> Changed(lines, k, value, slot, p) == ReadBefore(lines, slot)
  {
    var i, d := TargetPlace(Join(lines), lines, k);
    TargetIffMentioned(Join(lines), lines, k);
    MentionSets(lines, |lines|, k);
    ReadByLines(lines, SlotOf(k));
    OldSetting(lines, i, d, p, k, value, ReadBefore(lines, SlotOf(k)));
    if slot != SlotOf(k) {
      ReadByLines(lines, slot);
      OtherSlots(lines, i, d, p, k, value, slot);
    }
  }

  lemma NewSetting(lines: seq<string>, k: Key, value: string)
    requires WellFormed(lines) && Target(Text(k), Join(lines)).None?
    ensures Expected(lines, k, value, SlotOf(k)) == Meaning(SlotOf(k), value) <==> ReadsBack(lines, k, value)
  {
    TargetIffMentioned(Join(lines), lines, k);
    var n, slot := |lines| - 1, SlotOf(k);
    if Sets(lines, n, slot) {
      assert !Mentions(lines[n], k);
      var v := Setting(lines[n]).value.1;
      assert |v + (Text(k) + value)| > |value|;
    }
  }

  lemma {:induction false} MentionSets(lines: seq<string>, n: nat, k: Key)
    requires n <= |lines|
    ensures LastMention(lines, n, k).Some? ==> LastSetting(lines, n, SlotOf(k)).Some?
  {
    if n > 0 {
      MentionSets(lines, n - 1, k);
    }
  }

  lemma OldSetting(lines: seq<string>, i: nat, d: nat, p: nat, k: Key, value: string, before: Content)
    requires i < |lines| && ChainOf(Text(k), lines[i], d) && p == Offset(lines, i) + d
    requires LastSetting(lines, |lines|, SlotOf(k)).Some?
    requires before == ValueIn(lines[LastSetting(lines, |lines|, SlotOf(k)).value], SlotOf(k))
    ensures Changed(lines, k, value, SlotOf(k), p) == Meaning(SlotOf(k), value) <==>
            ChangeShows(lines, k, before == Meaning(SlotOf(k), value), p)
  {
    var j := LastSetting(lines, |lines|, SlotOf(k)).value;
    ChangedInLine(lines, i, d, p, k, value, SlotOf(k));
    OnlyLine(lines, i, d, p, j, k);
    if i == j {
      InKeyLine(lines[i], d, k, value);
    }
  }

  /** A value behind copies of the key: it is never the text that was written, and a port means nothing. */
  lemma InKeyLine(line: string, d: nat, k: Key, value: string)
    requires ChainOf(Text(k), line, d)
    ensures var slot, head := SlotOf(k), line[|Text(k)|..d];
            ValueIn(line, slot) == Meaning(slot, line[|Text(k)|..]) &&
            if d == |Text(k)| then head + value == value
            else if k == Port then ValueIn(line, slot) == Meaning(slot, head + value) == Number(0)
            else Meaning(slot, head + value) != Meaning(slot, value)
  {
    var n := |Text(k)|;
    var head, v := line[n..d], line[n..];
    assert line == Text(k) + v;
    SettingOf(k, v);
    if d > n {
      assert |head + value| > |value|;
      if k == Port {
        PrefixLonger(Text(k), line, n, d);
        PortWord(v);
        PortWord(head + value);
      }
    }
  }

  lemma PrefixLonger(text: string, line: string, n: nat, d: nat)
    requires n <= d <= |line| && text <= line[n..d]
    ensures text <= line[n..]
  {
    assert line[n..d] == line[n..][..d - n];
  }

  lemma PortWord(v: string)
    requires Text(Port) <= v
    ensures PortOf(v) == 0
  {
    assert Shortened(v, PORT_LIMIT)[0] == 'p';
  }

  lemma OtherSlots(lines: seq<string>, i: nat, d: nat, p: nat, k: Key, value: string, slot: Slot)
    requires i < |lines| && ChainOf(Text(k), lines[i], d) && p == Offset(lines, i) + d && slot != SlotOf(k)
    ensures Changed(lines, k, value, slot, p) ==
      match LastSetting(lines, |lines|, slot)
      case None => Nothing
      case Some(j) => ValueIn(lines[j], slot)
  {
    LastSettingIsLast(lines, |lines|, slot);
    ChangedInLine(lines, i, d, p, k, value, slot);
    assert lines[i] == Text(k) + lines[i][|Text(k)|..];
    SettingOf(k, lines[i][|Text(k)|..]);
  }

  /** Over plain lines: an existing key is read back if it is the last of its slot; of the two keys that
      have a slot of their own, one that does not exist is read back if the file ends in an empty line. */
  lemma PlainReadsBack(lines: seq<string>, k: Key, value: string)
    requires WellFormed(lines) && Plain(lines, |lines|, k) && (k == Port || k == Id)
    ensures ReadsBack(lines, k, value) <==> LastMention(lines, |lines|, k).Some? || Appends(lines)
  {
    TargetIsLastMention(Join(lines), lines, k);
    OneKeySlot(lines, |lines|, k);
    ReadByLines(lines, SlotOf(k));
  }

  lemma {:induction false} OneKeySlot(lines: seq<string>, n: nat, k: Key)
    requires n <= |lines| && (k == Port || k == Id)
    ensures LastSetting(lines, n, SlotOf(k)) == LastMention(lines, n, k)
  {
    if n > 0 {
      OneKeySlot(lines, n - 1, k);
    }
  }

  /** Why existing values must not be empty: behind `id=` the writer takes the newline for the first
      character of a line and skips the next line, so it changes a setting that is not the last one. */
  lemma EmptyValueMisleadsWriter(v: string, value: string)
    requires OneLine(v) && OneLine(value)
    ensures Get(Scanned(Written("id=\n" + ("id=" + v) + "\n", "id", value)), IdSlot) == Str(v)
  {
    var last := "id=" + v;
    var rest := "\n" + last + "\n";
    var content := "id=\n" + last + "\n";
    EmptyValueTarget(content, v);
    assert "id" + "=" == "id=" && content == "id=" + "" + rest;
    Rewritten(content, "id=", "", rest, "id", value);
    Regroup("id=" + value, "\n", last, "\n");
    Regroup("id=" + value, "\n" + last, "\n", "");
    assert Written(content, "id", value) == "id=" + value + "\n" + last + "\n";
    TwoIds("id=" + value, last, v);
  }

  lemma EmptyValueTarget(content: string, v: string)
    requires OneLine(v) && content == "id=\n" + ("id=" + v) + "\n"
    ensures Target("id=", content) == Some(3)
  {
    var text, end := "id=", 7 + |v|;
    assert HuntAt(text, content, 1) == Hunt(Comparing(1, true), None);
    assert HuntAt(text, content, 2) == Hunt(Comparing(2, true), None);
    assert HuntAt(text, content, 3) == Hunt(AtStart, Some(3));
    assert HuntAt(text, content, 4) == Hunt(Skipping, Some(3));
    forall h | 4 <= h < end
      ensures content[h] != '\n' && content[h] != EOF
    {
      assert content[h] == ("id=" + v)[h - 4] && (h >= 7 ==> ("id=" + v)[h - 4] in v);
    }
    HuntSkipping(text, content, 4, end);
    assert end + 1 == |content| && content[end] == '\n';
  }

  lemma TwoIds(first: string, last: string, v: string)
    requires "id=" <= first && OneLine(first) && last == "id=" + v && OneLine(v)
    ensures Get(Scanned(first + "\n" + last + "\n"), IdSlot) == Str(v)
  {
    var lines := [first, last, ""];
    assert lines[1..] == [last, ""] && [last, ""][1..] == [""];
    assert Join([last, ""]) == last + "\n" + "" == last + "\n";
    Regroup(first, "\n", last, "\n");
    Regroup(first, "\n" + last, "\n", "");
    assert Join(lines) == first + "\n" + last + "\n";
    SettingOf(Id, v);
    ReadByLines(lines, IdSlot);
    assert Active(lines, 0) && Active(lines, 1) && Active(lines, 2);
    assert Sets(lines, 1, IdSlot) && !Sets(lines, 2, IdSlot);
    assert LastSetting(lines, 3, IdSlot) == LastSetting(lines, 2, IdSlot) == Some(1);
  }

  /** Why the value in force must also stay: in a value that begins with the key the writer aims behind the
      second copy. Writing the very value that is there already, it puts it behind another copy. */
  lemma NestedKeyGrows(v: string, value: string)
    requires OneLine(v) && v != "" && v[0] != 'i' && value == "id=" + v
    ensures var lines := ["id=" + value, ""];
            ReadBefore(lines, IdSlot) == Str(value) && ReadAfter(lines, Id, value, IdSlot) == Str("id=" + value)
  {
    var line := "id=" + value;
    var lines := [line, ""];
    OneId(lines, value);
    NestedTarget(line + "\n", v);
    ReadAfterChange(lines, Id, value, IdSlot, 6);
    NestedValue(lines, value);
  }

  lemma NestedValue(lines: seq<string>, value: string)
    requires |lines| == 2 && lines[0] == "id=" + value && "id=" <= value && LastSetting(lines, 2, IdSlot) == Some(0)
    ensures Changed(lines, Id, value, IdSlot, 6) == Str("id=" + value)
  {
    assert Changed(lines, Id, value, IdSlot, 6) == ValueNow(lines, Id, value, IdSlot, 6, 0);
    assert Offset(lines, 0) == 0 && lines[0][3..6] == value[..3] == "id=";
  }

  lemma OneId(lines: seq<string>, value: string)
    requires OneLine(value) && lines == ["id=" + value, ""]
    ensures WellFormed(lines) && LastSetting(lines, 2, IdSlot) == Some(0) && Join(lines) == lines[0] + "\n"
    ensures ReadBefore(lines, IdSlot) == Str(value)
  {
    assert lines[1..] == [""] && Join(lines) == lines[0] + "\n" + Join([""]) == lines[0] + "\n";
    SettingOf(Id, value);
    assert Active(lines, 0) && Sets(lines, 0, IdSlot) && !Sets(lines, 1, IdSlot);
    assert LastSetting(lines, 2, IdSlot) == LastSetting(lines, 1, IdSlot) == Some(0);
    ReadByLines(lines, IdSlot);
  }

  lemma NestedTarget(content: string, v: string)
    requires OneLine(v) && v != "" && v[0] != 'i' && content == "id=" + ("id=" + v) + "\n"
    ensures Target("id=", content) == Some(6)
  {
    var text, rest, tail := "id=", "id=" + v + "\n", v + "\n";
    assert content[3..] == rest && rest[3..] == tail;
    assert text <= content && text <= rest && content[0] == text[0] == rest[0];
    var e := NewlineFrom(tail, 1);
    assert tail[|v|] == '\n' && forall j :: 0 <= j < |v| ==> tail[j] == v[j] && v[j] in v;
    assert e == |v| && tail[e + 1..] == "";
    assert BlindTarget(text, "", 6 + e + 1, Some(6)) == Some(6);
    assert BlindRest(text, tail, 6, 1, Some(6)) == Some(6);
    assert tail[0] == v[0] && BlindTarget(text, tail, 6, Some(6)) == Some(6);
    assert BlindTarget(text, rest, 3, Some(3)) == Some(6);
    TargetIsBlindFold(text, content);
  }

  // ---------------------------------------------------------------- the two functions

  function IdIn(c: Content): Option<string> {
    if c.Str? then Some(c.s) else None
  }

  function AddressIn(c: Content): string {
    if c.Str? then c.s else DEFAULT_ADDRESS
  }

  function PortIn(c: Content): int {
    if c.Number? then c.n else DEFAULT_PORT
  }

  lemma ExpectedBack(lines: seq<string>, k: Key, value: string)
    requires WellFormed(lines) && OneLine(value)
    ensures Expected(lines, k, value, SlotOf(k)) == Meaning(SlotOf(k), value) <==> ReadsBack(lines, k, value)
  {
    ReadAfterWrite(lines, k, value, SlotOf(k));
    WriteThenRead(lines, k, value, SlotOf(k));
  }

  /** `write_to_cfg`, then `read_cfg` on the content it produced. */
  method SetAndRead(lines: seq<string>, k: Key, value: string) returns (id: Option<string>, address: string, port: int)
    requires WellFormed(lines) && OneLine(value)
    ensures id == IdIn(Expected(lines, k, value, IdSlot))
    ensures address == AddressIn(Expected(lines, k, value, AddressSlot))
    ensures port == PortIn(Expected(lines, k, value, PortSlot))
    ensures ReadsBack(lines, k, value) ==>
      (k == Id ==> id == Some(value)) && (k == Address || k == Server ==> address == value) &&
      (k == Port ==> port == PortOf(value)) &&
      (k == Port && 1 <= |value| <= 4 && AllDigits(value) ==> port == Decimal(value))
  {
    var file := new File(Join(lines));
    var ret, produced := WriteToCfg(file, Name(k), value, true, true);
    var changed := new File(produced);
    ret, id, address, port := ReadCfg(changed, None);
    ReadAfterWrite(lines, k, value, IdSlot);
    ReadAfterWrite(lines, k, value, AddressSlot);
    ReadAfterWrite(lines, k, value, PortSlot);
    ExpectedBack(lines, k, value);
    if k == Port && 1 <= |value| <= 4 && AllDigits(value) {
      PortDigits(value);
    }
  }
}
