/** Bytes, C strings and the few byte constants that the JSON code compares against. */
module Text {

  datatype Option<+T> = None | Some(value: T)

  type byte = x: int | 0 <= x < 256

  /** The visible contents of a NUL-terminated C string. */
  type cstring = s: seq<byte> | NulFree(s) witness []

  const QUOTE: byte := 34
  const PLUS: byte := 43
  const COMMA: byte := 44
  const MINUS: byte := 45
  const DOT: byte := 46
  const SLASH: byte := 47
  const COLON: byte := 58
  const LBRACKET: byte := 91
  const BACKSLASH: byte := 92
  const RBRACKET: byte := 93
  const LBRACE: byte := 123
  const RBRACE: byte := 125
  const TAB: byte := 9
  const NEWLINE: byte := 10
  const SPACE: byte := 32

  const NULL_WORD: cstring := [110, 117, 108, 108]
  const TRUE_WORD: cstring := [116, 114, 117, 101]
  const FALSE_WORD: cstring := [102, 97, 108, 115, 101]

  predicate NulFree(s: seq<byte>) {
    forall i :: 0 <= i < |s| ==> s[i] != 0
  }

  predicate IsDigit(b: byte) {
    48 <= b <= 57
  }

  /** What a C reader sees of a byte block: everything before its first NUL. */
  function CString(s: seq<byte>): (r: cstring)
    ensures r <= s
    ensures NulFree(s) ==> r == s
    ensures !NulFree(s) ==> |r| < |s| && s[|r|] == 0
  {
    if s == [] || s[0] == 0 then [] else [s[0]] + CString(s[1..])
  }

  /** Whitespace for the parser is every byte up to the blank. */
  function SkipWs(s: seq<byte>): (r: seq<byte>)
    ensures |r| <= |s|
    ensures r != [] ==> r[0] > 32
  {
    if s != [] && s[0] <= 32 then SkipWs(s[1..]) else s
  }

  lemma Assoc(a: seq<byte>, b: seq<byte>, c: seq<byte>)
    ensures a + b + c == a + (b + c)
  {
  }

  lemma Front(x: byte, s: seq<byte>)
    ensures ([x] + s)[0] == x && ([x] + s)[1..] == s
  {
  }

  lemma TakeDrop(a: seq<byte>, b: seq<byte>)
    ensures (a + b)[..|a|] == a && (a + b)[|a|..] == b
  {
  }

  lemma SkipBlanks(ws: seq<byte>, s: seq<byte>)
    requires forall i :: 0 <= i < |ws| ==> ws[i] <= 32
    ensures SkipWs(ws + s) == SkipWs(s)
  {
    if ws == [] {
      assert ws + s == s;
    } else {
      assert (ws + s)[1..] == ws[1..] + s;
      SkipBlanks(ws[1..], s);
    }
  }
}
