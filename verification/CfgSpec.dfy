/** cfg_parsing.c without a file: the scanner as an automaton fed one character at a time, the writer's
    scanner likewise, and the lines of a file. */
module CfgSpec {
  import opened Stdio

  datatype Key = Address | Server | Port | Id

  function Text(k: Key): (s: string)
    ensures 3 <= |s| <= 8 && OneLine(s) && s[|s| - 1] == '='
  {
    match k
    case Address => "address="
    case Server => "server="
    case Port => "port="
    case Id => "id="
  }

  function KeyOf(c: char): Option<Key> {
    if c == 'a' then Some(Address)
    else if c == 's' then Some(Server)
    else if c == 'p' then Some(Port)
    else if c == 'i' then Some(Id)
    else None
  }

  // ---------------------------------------------------------------- values

  /** Index of the newline, byte 0xFF or end of file that closes the line in progress at `q`. */
  function LineEnd(content: string, q: nat): (e: nat)
    requires q <= |content|
    ensures q <= e <= |content|
    ensures e < |content| ==> content[e] == '\n' || content[e] == EOF
    decreases |content| - q
  {
    if q == |content| || content[q] == '\n' || content[q] == EOF then q else LineEnd(content, q + 1)
  }

  lemma {:induction false} LineEndIsFirst(content: string, q: nat)
    requires q <= |content|
    ensures OneLine(content[q..LineEnd(content, q)])
    decreases |content| - q
  {
    if LineEnd(content, q) > q {
      LineEndIsFirst(content, q + 1);
      assert content[q..LineEnd(content, q)] == [content[q]] + content[q + 1..LineEnd(content, q)];
    }
  }

  /** `file_read_value` with a limit: nothing is cut when the limit is 0 or exceeds the length. */
  function Shortened(v: string, limit: nat): string {
    if limit != 0 && |v| >= limit then v[..limit - 1] else v
  }

  predicate IsSpace(c: char) {
    c in " \t\n\r" || c == 11 as char || c == 12 as char
  }

  predicate IsDigit(c: char) {
    '0' <= c <= '9'
  }

  function Digits(s: string, acc: int): int
    decreases |s|
  {
    if s == "" || !IsDigit(s[0]) then acc
    else Digits(s[1..], 10 * acc + (s[0] as int - '0' as int))
  }

  /** `strtol(s, NULL, 10)` for texts too short to overflow. */
  function Strtol(s: string): int {
    if s == "" then 0
    else if IsSpace(s[0]) then Strtol(s[1..])
    else if s[0] == '-' then -Digits(s[1..], 0)
    else if s[0] == '+' then Digits(s[1..], 0)
    else Digits(s, 0)
  }

  const PORT_LIMIT: nat := 5

  function PortOf(v: string): int {
    Strtol(Shortened(v, PORT_LIMIT))
  }

  function Pow10(n: nat): nat {
    if n == 0 then 1 else 10 * Pow10(n - 1)
  }

  lemma {:induction false} DigitsBound(s: string, acc: nat)
    ensures 0 <= Digits(s, acc) < (acc + 1) * Pow10(|s|)
    decreases |s|
  {
    if s != "" && IsDigit(s[0]) {
      var d := s[0] as int - '0' as int;
      DigitsBound(s[1..], 10 * acc + d);
      Scale(10 * acc + d + 1, 10 * (acc + 1), Pow10(|s| - 1));
      TenTimes(acc + 1, Pow10(|s| - 1));
    } else {
      Pow10Positive(|s|);
      Scale(1, Pow10(|s|), acc + 1);
    }
  }

  lemma Scale(a: nat, b: nat, c: nat)
    requires a <= b
    ensures a * c <= b * c
  {
  }

  lemma TenTimes(a: nat, p: nat)
    ensures (10 * a) * p == a * (10 * p)
  {
  }

  lemma Pow10Positive(n: nat)
    ensures Pow10(n) >= 1
  {
  }

  lemma {:induction false} StrtolRange(s: string)
    requires |s| <= 4
    ensures -999 <= Strtol(s) <= 9999
  {
    assert Pow10(0) == 1 && Pow10(1) == 10 && Pow10(2) == 100 && Pow10(3) == 1000 && Pow10(4) == 10000;
    if s != "" {
      if IsSpace(s[0]) {
        StrtolRange(s[1..]);
      } else {
        DigitsBound(s, 0);
        DigitsBound(s[1..], 0);
        if s[0] == '+' || s[0] == '-' {
          assert Pow10(|s| - 1) <= 1000;
        } else {
          assert Pow10(|s|) <= 10000;
        }
      }
    }
  }

  /** Whatever stands after `port=`, the port read from the file lies in this range. */
  lemma PortRange(v: string)
    ensures -999 <= PortOf(v) <= 9999
  {
    StrtolRange(Shortened(v, PORT_LIMIT));
  }

  predicate AllDigits(s: string) {
    forall i :: 0 <= i < |s| ==> IsDigit(s[i])
  }

  /** The number written in decimal, read from its last digit. */
  function Decimal(s: string): int
    requires AllDigits(s)
  {
    if s == "" then 0 else 10 * Decimal(s[..|s| - 1]) + (s[|s| - 1] as int - '0' as int)
  }

  lemma {:induction false} DigitsLast(s: string, acc: int)
    requires s != "" && AllDigits(s)
    ensures Digits(s, acc) == 10 * Digits(s[..|s| - 1], acc) + (s[|s| - 1] as int - '0' as int)
    decreases |s|
  {
    if |s| > 1 {
      DigitsLast(s[1..], 10 * acc + (s[0] as int - '0' as int));
      assert s[..|s| - 1][1..] == s[1..][..|s| - 2] && s[..|s| - 1][0] == s[0];
    }
  }

  lemma {:induction false} DigitsAreDecimal(s: string)
    requires AllDigits(s)
    ensures Digits(s, 0) == Decimal(s)
    decreases |s|
  {
    if s != "" {
      DigitsLast(s, 0);
      DigitsAreDecimal(s[..|s| - 1]);
    }
  }

  /** A port of one to four digits means its decimal value. */
  lemma PortDigits(v: string)
    requires 1 <= |v| <= 4 && AllDigits(v)
    ensures PortOf(v) == Decimal(v)
  {
    DigitsAreDecimal(v);
  }

  /** A longer one is cut to its first four digits. */
  lemma PortCut(v: string)
    requires |v| >= 5 && AllDigits(v[..4])
    ensures PortOf(v) == Decimal(v[..4])
  {
    DigitsAreDecimal(v[..4]);
  }

  /** `strtol` on blanks, a sign, digits and whatever follows them: the decimal value, with its sign. */
  lemma {:induction false} StrtolMeans(blanks: string, sign: string, digits: string, rest: string)
    requires forall i :: 0 <= i < |blanks| ==> blanks[i] as int in {9, 10, 11, 12, 13, 32}
    requires sign in {"", "+", "-"} && AllDigits(digits)
    requires rest != "" ==> !('0' <= rest[0] <= '9')
    requires sign == "" ==> digits != ""
    ensures Strtol(blanks + sign + digits + rest) == if sign == "-" then -Decimal(digits) else Decimal(digits)
  {
    if blanks == "" {
      assert blanks + sign + digits + rest == sign + digits + rest;
      SignedDigits(sign, digits, rest);
    } else {
      var s := blanks + sign + digits + rest;
      assert s[0] == blanks[0] && IsSpace(blanks[0]);
      assert s[1..] == blanks[1..] + sign + digits + rest;
      StrtolMeans(blanks[1..], sign, digits, rest);
    }
  }

  lemma SignedDigits(sign: string, digits: string, rest: string)
    requires sign in {"", "+", "-"} && AllDigits(digits)
    requires rest != "" ==> !('0' <= rest[0] <= '9')
    requires sign == "" ==> digits != ""
    ensures Strtol(sign + digits + rest) == if sign == "-" then -Decimal(digits) else Decimal(digits)
  {
    var s := sign + digits + rest;
    DigitsStop(digits, rest, 0);
    DigitsAreDecimal(digits);
    if sign == "" {
      assert s[0] == digits[0] && s == digits + rest;
    } else {
      assert s[1..] == digits + rest;
    }
  }

  lemma {:induction false} DigitsStop(digits: string, rest: string, acc: int)
    requires AllDigits(digits) && (rest != "" ==> !IsDigit(rest[0]))
    ensures Digits(digits + rest, acc) == Digits(digits, acc)
    decreases |digits|
  {
    if digits == "" {
      assert digits + rest == rest;
    } else {
      assert (digits + rest)[1..] == digits[1..] + rest;
      DigitsStop(digits[1..], rest, 10 * acc + (digits[0] as int - '0' as int));
    }
  }

  // ---------------------------------------------------------------- the scanner

  datatype Config = Config(address: Option<string>, port: Option<int>, id: Option<string>)

  const EMPTY := Config(None, None, None)

  /** The limit each key passes to `file_read_value`. */
  function Limit(k: Key): nat {
    if k == Port then PORT_LIMIT else 0
  }

  function Stored(cfg: Config, k: Key, value: string): Config {
    match k
    case Address => cfg.(address := Some(value))
    case Server => cfg.(address := Some(value))
    case Port => cfg.(port := Some(Strtol(value)))
    case Id => cfg.(id := Some(value))
  }

  /** The effect of a key followed by `v` up to the end of the line. */
  function Assign(cfg: Config, k: Key, v: string): Config {
    Stored(cfg, k, Shortened(v, Limit(k)))
  }

  /** Start: a line begins here. Skip: the rest of the line is ignored. Matching: `n` characters of the
      key were consumed, `ok` if all agreed. Value: the key matched, `text` was read so far. Halted: the
      loop was left because a byte 0xFF was taken for the end of the file. */
  datatype Mode = Start | Skip | Matching(key: Key, n: nat, ok: bool) | Value(key: Key, text: string) | Halted

  datatype Scan = Scan(mode: Mode, cfg: Config)

  const INIT := Scan(Start, EMPTY)

  function Step(s: Scan, c: char): Scan {
    match s.mode
    case Start =>
      if c == EOF then s.(mode := Halted)
      else if KeyOf(c).Some? then s.(mode := Matching(KeyOf(c).value, 1, true))
      else s.(mode := Skip)
    case Skip => if c == EOF then s.(mode := Halted) else if c == '\n' then s.(mode := Start) else s
    case Matching(k, n, ok) =>
      var ok' := ok && n < |Text(k)| && c == Text(k)[n];
      if n + 1 < |Text(k)| then s.(mode := Matching(k, n + 1, ok'))
      else if ok' then s.(mode := Value(k, ""))
      else s.(mode := if c == EOF then Halted else Skip)
    case Value(k, text) =>
      if c == '\n' || c == EOF then Scan(Start, Assign(s.cfg, k, text))
      else s.(mode := Value(k, text + [c]))
    case Halted => s
  }

  function Feed(s: Scan, text: string): Scan
    decreases |text|
  {
    if text == "" then s else Feed(Step(s, text[0]), text[1..])
  }

  /** The end of the file closes a value that is being read. */
  function Finish(s: Scan): Config {
    if s.mode.Value? then Assign(s.cfg, s.mode.key, s.mode.text) else s.cfg
  }

  function Scanned(content: string): Config {
    Finish(Feed(INIT, content))
  }

  predicate PortFits(cfg: Config) {
    cfg.port.Some? ==> -999 <= cfg.port.value <= 9999
  }

  lemma {:induction false} FeedPortFits(s: Scan, text: string)
    requires PortFits(s.cfg)
    ensures PortFits(Feed(s, text).cfg)
    decreases |text|
  {
    if text != "" {
      if s.mode.Value? {
        PortRange(s.mode.text);
      }
      FeedPortFits(Step(s, text[0]), text[1..]);
    }
  }

  /** Any port read from any file lies in that range. */
  lemma PortInRange(content: string)
    ensures PortFits(Scanned(content))
  {
    FeedPortFits(INIT, content);
    var s := Feed(INIT, content);
    if s.mode.Value? {
      PortRange(s.mode.text);
    }
  }

  lemma {:induction false} FeedConcat(s: Scan, a: string, b: string)
    ensures Feed(s, a + b) == Feed(Feed(s, a), b)
    decreases |a|
  {
    if a == "" {
      assert a + b == b;
    } else {
      assert (a + b)[1..] == a[1..] + b;
      FeedConcat(Step(s, a[0]), a[1..], b);
    }
  }

  lemma FeedOne(s: Scan, c: char)
    ensures Feed(s, [c]) == Step(s, c)
  {
    assert [c][1..] == "";
  }

  lemma {:induction false} FeedHalted(s: Scan, text: string)
    requires s.mode.Halted?
    ensures Feed(s, text) == s
    decreases |text|
  {
    if text != "" {
      FeedHalted(s, text[1..]);
    }
  }

  lemma {:induction false} FeedSkip(s: Scan, text: string)
    requires s.mode.Skip? && OneLine(text)
    ensures Feed(s, text) == s
    decreases |text|
  {
    if text != "" {
      FeedSkip(s, text[1..]);
    }
  }

  lemma {:induction false} FeedValue(s: Scan, text: string)
    requires s.mode.Value? && OneLine(text)
    ensures Feed(s, text) == s.(mode := Value(s.mode.key, s.mode.text + text))
    decreases |text|
  {
    if text == "" {
      assert s.mode.text + text == s.mode.text;
    } else {
      FeedValue(Step(s, text[0]), text[1..]);
      assert s.mode.text + [text[0]] + text[1..] == s.mode.text + text;
    }
  }

  lemma SliceHead<T>(s: seq<T>, n: nat, m: nat)
    requires n < m <= |s|
    ensures s[n..m] == [s[n]] + s[n + 1..m]
  {
  }

  /** The characters after the initial are consumed one by one, agreeing or not, up to the length of
      the key; only then does the scanner decide. */
  lemma {:induction false} FeedMatching(s: Scan, text: string)
    requires s.mode.Matching? && s.mode.n < |Text(s.mode.key)|
    requires |text| <= |Text(s.mode.key)| - s.mode.n
    ensures var k, n := s.mode.key, s.mode.n;
            var ok := s.mode.ok && text == Text(k)[n..n + |text|];
            Feed(s, text) ==
              if n + |text| < |Text(k)| then s.(mode := Matching(k, n + |text|, ok))
              else if ok then s.(mode := Value(k, ""))
              else if text[|text| - 1] == EOF then s.(mode := Halted)
              else s.(mode := Skip)
    decreases |text|
  {
    var k, n := s.mode.key, s.mode.n;
    if text != "" {
      var t := Text(k)[n..n + |text|];
      SliceHead(Text(k), n, n + |text|);
      SliceHead(text, 0, |text|);
      assert t[1..] == Text(k)[n + 1..n + |text|];
      if |text| > 1 {
        FeedMatching(Step(s, text[0]), text[1..]);
        assert text[1..][|text| - 2] == text[|text| - 1];
      } else {
        FeedOne(s, text[0]);
        assert text[1..] == "" && t[1..] == "";
      }
    }
  }
}
