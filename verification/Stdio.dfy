/** The little of stdio that the repository relies on. A C `char` is a Dafny `char`. */
module Stdio {

  /** `fgetc` answers -1 at the end of the file; stored in a signed `char` that value is also the
      byte 0xFF, so the two cannot be told apart. */
  const EOF: char := 255 as char

  datatype Option<+T> = None | Some(value: T)

  /** What the next `fgetc` at position `i` yields once it is stored in a `char`. */
  function CharAt(content: string, i: nat): char {
    if i < |content| then content[i] else EOF
  }

  predicate Clean(s: string) {
    EOF !in s
  }

  predicate OneLine(s: string) {
    Clean(s) && '\n' !in s
  }

  /** The part of a text before its first byte 0xFF. */
  function UntilEof(s: string): string {
    if s == "" || s[0] == EOF then "" else [s[0]] + UntilEof(s[1..])
  }

  /** It is a prefix without byte 255; whatever was left off begins with that byte. */
  lemma {:induction false} UntilEofMeans(s: string)
    ensures var t := UntilEof(s);
            t <= s && (forall c :: c in t ==> c as int != 255) && (|t| < |s| ==> s[|t|] as int == 255)
  {
    if s != "" && s[0] != EOF {
      UntilEofMeans(s[1..]);
      assert s == [s[0]] + s[1..];
    }
  }

  lemma {:induction false} UntilEofClean(s: string)
    requires Clean(s)
    ensures UntilEof(s) == s
  {
    if s != "" {
      UntilEofClean(s[1..]);
    }
  }

  function Min(a: nat, b: nat): nat {
    if a < b then a else b
  }

  /** `realloc` on a buffer: the common prefix survives, what is new is undefined. */
  method Realloc(a: array<char>, n: nat) returns (b: array<char>)
    ensures fresh(b) && b.Length == n
    ensures b[..Min(n, a.Length)] == a[..Min(n, a.Length)]
  {
    b := new char[n](j requires j >= 0 reads a => if j < a.Length then a[j] else '?');
  }

  class File {
    var content: string
    var pos: nat

    constructor (content: string)
      ensures this.content == content && pos == 0
    {
      this.content, pos := content, 0;
    }

    method Fgetc() returns (c: char)
      modifies `pos
      ensures c == CharAt(content, old(pos))
      ensures pos == if old(pos) < |content| then old(pos) + 1 else old(pos)
    {
      if pos < |content| {
        c := content[pos];
        pos := pos + 1;
      } else {
        c := EOF;
      }
    }
  }
}
