/**
 JSON string literals: the escaping printer, the two passes of the parser over a literal,
 and their relation to section 7 of RFC 8259 and section 3 of RFC 3629.
 A literal body is the text between the quotes.
 */
module Literal {
  import opened Text

  const LETTER_U: byte := 117

  // ---------------------------------------------------------------- printing

  function HexChar(n: int): (b: byte)
    requires 0 <= n < 16
    ensures HexValue(b) == n
  {
    if n < 10 then 48 + n else 87 + n
  }

  /** The letter after the backslash in a two-character escape, if there is one. */
  function ShortEscape(b: byte): (r: Option<byte>) {
    if b == QUOTE || b == BACKSLASH then Some(b)
    else if b == 8 then Some(98)
    else if b == 12 then Some(102)
    else if b == 10 then Some(110)
    else if b == 13 then Some(114)
    else if b == 9 then Some(116)
    else None
  }

  function EscapeByte(b: byte): (r: seq<byte>)
    ensures 1 <= |r| <= 6
    ensures b != 0 ==> NulFree(r)
  {
    if ShortEscape(b).Some? then [BACKSLASH, ShortEscape(b).value]
    else if b < 32 then [BACKSLASH, LETTER_U, 48, 48, HexChar(b / 16), HexChar(b % 16)]
    else [b]
  }

  function Escape(s: seq<byte>): (r: seq<byte>)
    ensures NulFree(s) ==> NulFree(r)
    ensures |r| >= |s|
  {
    if s == [] then [] else EscapeByte(s[0]) + Escape(s[1..])
  }

  /** A quoted literal; a missing string prints like an empty one. */
  function Quoted(s: Option<cstring>): (r: seq<byte>) {
    match s
    case None => [QUOTE, QUOTE]
    case Some(t) => [QUOTE] + Escape(t) + [QUOTE]
  }

  // ---------------------------------------------------------------- first pass

  /** Position of the closing quote: a quote that no first-pass escape covers. */
  function CloseAt(s: seq<byte>): (r: Option<nat>)
    ensures r.Some? ==> r.value < |s| && s[r.value] == QUOTE
  {
    if s == [] then None
    else if s[0] == QUOTE then Some(0)
    else
      var n := if s[0] == BACKSLASH then 2 else 1;
      if |s| < n then None
      else
        match CloseAt(s[n..])
        case None => None
        case Some(k) => Some(n + k)
  }

  /** How many backslashes start a first-pass escape; `mid` says that the first byte is already covered by one. */
  function Skips(b: seq<byte>, mid: bool): (n: nat)
    ensures n <= |b|
  {
    if b == [] then 0
    else if !mid && b[0] == BACKSLASH then 1 + Skips(b[1..], true)
    else Skips(b[1..], false)
  }

  /** Whether the byte after `b` is covered by an escape that starts in `b`. */
  predicate MidAfter(b: seq<byte>, mid: bool) {
    if b == [] then mid
    else MidAfter(b[1..], !mid && b[0] == BACKSLASH)
  }

  // ---------------------------------------------------------------- second pass

  function HexValue(b: byte): (n: int)
    ensures -1 <= n < 16
  {
    if 48 <= b <= 57 then b - 48
    else if 65 <= b <= 70 then b - 55
    else if 97 <= b <= 102 then b - 87
    else -1
  }

  /** Four hexadecimal digits; anything else reads as code 0. */
  function Hex4(s: seq<byte>): (n: nat)
    requires |s| >= 4
    ensures n < 0x10000
  {
    if HexValue(s[0]) < 0 || HexValue(s[1]) < 0 || HexValue(s[2]) < 0 || HexValue(s[3]) < 0 then 0
    else HexValue(s[0]) * 4096 + HexValue(s[1]) * 256 + HexValue(s[2]) * 16 + HexValue(s[3])
  }

  /** UTF-8 as tabulated in section 3 of RFC 3629. */
  function Utf8(cp: nat): (r: seq<byte>)
    requires cp < 0x110000
    ensures 1 <= |r| <= 4
    ensures |r| == 4 <==> cp >= 0x10000
    ensures cp != 0 ==> NulFree(r)
  {
    if cp < 0x80 then [cp]
    else if cp < 0x800 then [0xC0 + cp / 64, 0x80 + cp % 64]
    else if cp < 0x10000 then [0xE0 + cp / 4096, 0x80 + cp / 64 % 64, 0x80 + cp % 64]
    else [0xF0 + cp / 262144, 0x80 + cp / 4096 % 64, 0x80 + cp / 64 % 64, 0x80 + cp % 64]
  }

  predicate HighSurrogate(n: int) {
    0xD800 <= n <= 0xDBFF
  }

  predicate LowSurrogate(n: int) {
    0xDC00 <= n <= 0xDFFF
  }

  /** The code point of a UTF-16 surrogate pair. */
  function Combine(high: nat, low: nat): (cp: nat)
    requires HighSurrogate(high) && LowSurrogate(low)
    ensures 0x10000 <= cp < 0x110000
  {
    0x10000 + (high - 0xD800) * 1024 + (low - 0xDC00)
  }

  datatype Unit = BadUnit | Unit(length: nat, codepoint: nat)

  /** One or two \uXXXX sequences at the start of `b`. */
  function Utf16(b: seq<byte>): (r: Unit)
    requires |b| >= 2 && b[0] == BACKSLASH && b[1] == LETTER_U
    ensures r.Unit? ==> r.codepoint < 0x110000 && (r.length == 6 || r.length == 12) && r.length <= |b|
    ensures r.Unit? && r.codepoint >= 0x10000 ==> r.length == 12
  {
    if |b| < 6 then BadUnit
    else
      var first := Hex4(b[2..]);
      if LowSurrogate(first) then BadUnit
      else if HighSurrogate(first) then
        if |b| < 12 || b[6] != BACKSLASH || b[7] != LETTER_U then BadUnit
        else
          var second := Hex4(b[8..]);
          if LowSurrogate(second) then Unit(12, Combine(first, second)) else BadUnit
      else Unit(6, first)
  }

  /** The byte that a two-character escape stands for. */
  function ShortMeaning(b: byte): (r: Option<byte>) {
    if b == QUOTE || b == BACKSLASH || b == SLASH then Some(b)
    else if b == 98 then Some(8)
    else if b == 102 then Some(12)
    else if b == 110 then Some(10)
    else if b == 114 then Some(13)
    else if b == 116 then Some(9)
    else None
  }

  datatype Step = BadStep | Step(length: nat, bytes: seq<byte>)

  /**
   One step of the second pass. A backslash that is the last byte of the body pairs with the
   closing quote, which then counts as consumed although it is not part of the body.
   */
  function Next(b: seq<byte>): (r: Step)
    requires b != []
    ensures r.Step? ==> r.length > 0 && 1 <= |r.bytes| <= 4
    ensures r.Step? ==> r.length <= |b| || (|b| == 1 && r.length == 2)
  {
    if b[0] != BACKSLASH then Step(1, [b[0]])
    else
      var e := if |b| == 1 then QUOTE else b[1];
      if ShortMeaning(e).Some? then Step(2, [ShortMeaning(e).value])
      else if e == LETTER_U then
        match Utf16(b)
        case BadUnit => BadStep
        case Unit(n, cp) => Step(n, Utf8(cp))
      else BadStep
  }

  function Advance(b: seq<byte>, n: nat): (r: seq<byte>)
    ensures n <= |b| ==> r == b[n..]
  {
    if n <= |b| then b[n..] else []
  }

  /** The bytes that a literal body decodes to. */
  function Unescape(b: seq<byte>): (r: Option<seq<byte>>)
    decreases |b|
  {
    if b == [] then Some([])
    else
      match Next(b)
      case BadStep => None
      case Step(n, bytes) =>
        match Unescape(Advance(b, n))
        case None => None
        case Some(rest) => Some(bytes + rest)
  }

  // ---------------------------------------------------------------- printing and parsing are inverse

  lemma NextEscapeByte(x: byte, rest: seq<byte>)
    requires x != 0
    ensures Next(EscapeByte(x) + rest) == Step(|EscapeByte(x)|, [x])
  {
    var b := EscapeByte(x) + rest;
    if ShortEscape(x).Some? {
      assert b[0] == BACKSLASH && b[1] == ShortEscape(x).value;
    } else if x < 32 {
      assert b[..6] == EscapeByte(x);
      assert b[1] == LETTER_U && b[2] == 48 && b[3] == 48;
      var t := b[2..];
      assert t[2] == b[4] && t[3] == b[5];
      assert Hex4(t) == x;
    }
  }

  lemma {:induction false} UnescapeEscape(s: cstring)
    ensures Unescape(Escape(s)) == Some(s)
  {
    if s != [] {
      NextEscapeByte(s[0], Escape(s[1..]));
      UnescapeEscape(s[1..]);
      assert Advance(Escape(s), |EscapeByte(s[0])|) == Escape(s[1..]);
      assert [s[0]] + s[1..] == s;
    }
  }

  function Shift(r: Option<nat>, n: nat): (s: Option<nat>) {
    match r
    case None => None
    case Some(k) => Some(n + k)
  }

  lemma CloseAtNext(x: byte, s: seq<byte>)
    requires x != QUOTE && x != BACKSLASH
    ensures CloseAt([x] + s) == Shift(CloseAt(s), 1)
  {
    assert ([x] + s)[1..] == s;
  }

  lemma {:induction false} CloseAtPlain(p: seq<byte>, s: seq<byte>)
    requires forall i :: 0 <= i < |p| ==> p[i] != QUOTE && p[i] != BACKSLASH
    ensures CloseAt(p + s) == Shift(CloseAt(s), |p|)
  {
    hide CloseAt;
    if p == [] {
      assert p + s == s;
    } else {
      CloseAtPlain(p[1..], s);
      CloseAtNext(p[0], p[1..] + s);
      assert p + s == [p[0]] + (p[1..] + s);
    }
  }

  lemma CloseAtEscapeByte(x: byte, s: seq<byte>)
    ensures CloseAt(EscapeByte(x) + s) == Shift(CloseAt(s), |EscapeByte(x)|)
  {
    var e := EscapeByte(x);
    if ShortEscape(x).Some? {
      assert (e + s)[2..] == s;
    } else if x < 32 {
      CloseAtPlain(e[2..], s);
      assert (e + s)[2..] == e[2..] + s;
    } else {
      CloseAtPlain(e, s);
    }
  }

  lemma {:induction false} CloseAtEscape(s: seq<byte>, rest: seq<byte>)
    ensures CloseAt(Escape(s) + ([QUOTE] + rest)) == Some(|Escape(s)|)
  {
    hide CloseAt, EscapeByte;
    var end := [QUOTE] + rest;
    if s == [] {
      assert Escape(s) + end == end;
      CloseAtQuote(rest);
    } else {
      CloseAtEscape(s[1..], rest);
      CloseAtEscapeByte(s[0], Escape(s[1..]) + end);
      Assoc(EscapeByte(s[0]), Escape(s[1..]), end);
    }
  }

  lemma CloseAtQuote(rest: seq<byte>)
    ensures CloseAt([QUOTE] + rest) == Some(0)
  {
  }

  // ---------------------------------------------------------------- the first pass over-estimates

  lemma {:induction false} SkipsSplit(a: seq<byte>, b: seq<byte>, mid: bool)
    ensures Skips(a + b, mid) == Skips(a, mid) + Skips(b, MidAfter(a, mid))
    ensures MidAfter(a + b, mid) == MidAfter(b, MidAfter(a, mid))
  {
    if a == [] {
      assert a + b == b;
    } else {
      assert (a + b)[1..] == a[1..] + b;
      SkipsSplit(a[1..], b, !mid && a[0] == BACKSLASH);
    }
  }

  lemma {:induction false} SkipsAtMostHalf(b: seq<byte>, mid: bool)
    ensures 2 * Skips(b, mid) <= |b| + 1
  {
    if b == [] {
    } else if !mid && b[0] == BACKSLASH && |b| > 1 {
      assert b[1..][1..] == b[2..];
      SkipsAtMostHalf(b[2..], false);
    } else {
      SkipsAtMostHalf(b[1..], false);
    }
  }

  /** The closing quote is found where no escape is pending. */
  lemma {:induction false} ClosedBody(s: seq<byte>)
    requires CloseAt(s).Some?
    ensures !MidAfter(s[..CloseAt(s).value], false)
  {
    var k := CloseAt(s).value;
    if k > 0 {
      var n := if s[0] == BACKSLASH then 2 else 1;
      ClosedBody(s[n..]);
      assert s[n..][..k - n] == s[n..k];
      assert s[..k] == s[..n] + s[n..k];
      SkipsSplit(s[..n], s[n..k], false);
      assert !MidAfter(s[..n], false) by {
        assert s[..n][1..] == s[1..n];
        if n == 2 {
          assert s[1..n][1..] == [];
          assert !MidAfter(s[1..n], true);
        }
      }
    }
  }

  /** Bytes that the first pass still reserves for the part `b` of a body. */
  function Room(b: seq<byte>, mid: bool): (n: nat) {
    |b| - Skips(b, mid)
  }

  /**
   Each second-pass step writes no more than the room it gives up, also when a malformed \u
   escape has moved the two passes out of step.
   */
  lemma StepFits(b: seq<byte>, mid: bool)
    requires b != [] && !MidAfter(b, mid) && Next(b).Step?
    ensures var n := if Next(b).length <= |b| then Next(b).length else |b|;
            && !MidAfter(b[n..], MidAfter(b[..n], mid))
            && |Next(b).bytes| + Room(b[n..], MidAfter(b[..n], mid)) <= Room(b, mid)
  {
    var n := if Next(b).length <= |b| then Next(b).length else |b|;
    assert b == b[..n] + b[n..];
    SkipsSplit(b[..n], b[n..], mid);
    SkipsAtMostHalf(b[..n], mid);
    if n == 1 && b[0] == BACKSLASH {
      assert b[..n] == b && b[1..] == [];
    }
  }

  /** For every closed literal, decoded bytes plus terminator fit the first pass's allocation. */
  lemma {:induction false} DecodedFits(b: seq<byte>, mid: bool)
    requires !MidAfter(b, mid) && Unescape(b).Some?
    ensures |Unescape(b).value| <= Room(b, mid)
    decreases |b|
  {
    if b != [] {
      StepFits(b, mid);
      var n := if Next(b).length <= |b| then Next(b).length else |b|;
      assert Advance(b, Next(b).length) == b[n..];
      DecodedFits(b[n..], MidAfter(b[..n], mid));
    }
  }

  /** The block size the first pass computes for a body: both quotes, less one byte for each escape. */
  function Allocated(b: seq<byte>): (n: nat) {
    |b| + 1 - Skips(b, false) + 1
  }

  /** Whatever follows an opening quote: if the literal closes and decodes, bytes and terminator fit its block. */
  lemma LiteralFits(s: seq<byte>)
    requires CloseAt(s).Some?
    ensures var b := s[..CloseAt(s).value];
            Unescape(b).Some? ==> |Unescape(b).value| + 1 <= Allocated(b)
  {
    hide Unescape;
    var b := s[..CloseAt(s).value];
    ClosedBody(s);
    if Unescape(b).Some? {
      DecodedFits(b, false);
    }
  }

  // ---------------------------------------------------------------- section 7 of RFC 8259

  /**
   The pieces of a literal body. The first four are the grammar's; `Broken` is a \u whose four
   bytes are not hexadecimal digits and `Hanging` a final backslash left over by a `Broken`.
   */
  datatype Piece =
    | Plain(b: byte)
    | Short(letter: byte)
    | Code(digits: seq<byte>)
    | Pair(high: seq<byte>, low: seq<byte>)
    | Broken(junk: seq<byte>)
    | Hanging

  predicate FourHex(d: seq<byte>) {
    |d| == 4 && forall i :: 0 <= i < 4 ==> HexValue(d[i]) >= 0
  }

  predicate ValidPiece(p: Piece) {
    match p
    case Plain(b) => b != BACKSLASH
    case Short(l) => ShortMeaning(l).Some?
    case Code(d) => FourHex(d) && !HighSurrogate(Hex4(d)) && !LowSurrogate(Hex4(d))
    case Pair(h, l) => FourHex(h) && FourHex(l) && HighSurrogate(Hex4(h)) && LowSurrogate(Hex4(l))
    case Broken(j) => |j| == 4 && !FourHex(j)
    case Hanging => true
  }

  predicate Spelling(ps: seq<Piece>) {
    && (forall i :: 0 <= i < |ps| ==> ValidPiece(ps[i]))
    && (forall i :: 0 <= i < |ps| - 1 ==> !ps[i].Hanging?)
  }

  function Spell(p: Piece): (r: seq<byte>) {
    match p
    case Plain(b) => [b]
    case Short(l) => [BACKSLASH, l]
    case Code(d) => [BACKSLASH, LETTER_U] + d
    case Pair(h, l) => [BACKSLASH, LETTER_U] + h + [BACKSLASH, LETTER_U] + l
    case Broken(j) => [BACKSLASH, LETTER_U] + j
    case Hanging => [BACKSLASH]
  }

  function Meaning(p: Piece): (r: seq<byte>)
    requires ValidPiece(p)
  {
    match p
    case Plain(b) => [b]
    case Short(l) => [ShortMeaning(l).value]
    case Code(d) => Utf8(Hex4(d))
    case Pair(h, l) => Utf8(Combine(Hex4(h), Hex4(l)))
    case Broken(_) => [0]
    case Hanging => [QUOTE]
  }

  function SpellAll(ps: seq<Piece>): (r: seq<byte>) {
    if ps == [] then [] else Spell(ps[0]) + SpellAll(ps[1..])
  }

  function MeaningAll(ps: seq<Piece>): (r: seq<byte>)
    requires Spelling(ps)
  {
    if ps == [] then [] else Meaning(ps[0]) + MeaningAll(ps[1..])
  }

  lemma NextUnit(b: seq<byte>, d: seq<byte>)
    requires |d| == 4 && [BACKSLASH, LETTER_U] + d <= b
    requires !HighSurrogate(Hex4(d)) && !LowSurrogate(Hex4(d))
    ensures Next(b) == Step(6, Utf8(Hex4(d)))
  {
    assert b[0] == BACKSLASH && b[1] == LETTER_U && b[2..][..4] == d;
    assert Hex4(b[2..]) == Hex4(d);
    assert Utf16(b) == Unit(6, Hex4(d));
  }

  lemma NextPair(b: seq<byte>, h: seq<byte>, l: seq<byte>)
    requires |h| == |l| == 4 && [BACKSLASH, LETTER_U] + h + [BACKSLASH, LETTER_U] + l <= b
    requires HighSurrogate(Hex4(h)) && LowSurrogate(Hex4(l))
    ensures Next(b) == Step(12, Utf8(Combine(Hex4(h), Hex4(l))))
  {
    var t := [BACKSLASH, LETTER_U] + h + [BACKSLASH, LETTER_U] + l;
    assert b[0] == t[0] && b[1] == t[1] && b[6] == t[6] && b[7] == t[7];
    assert b[2..][..4] == t[2..6] == h && b[8..][..4] == t[8..12] == l;
    assert Hex4(b[2..]) == Hex4(h) && Hex4(b[8..]) == Hex4(l);
    assert Utf16(b) == Unit(12, Combine(Hex4(h), Hex4(l)));
  }

  lemma NextLone(b: seq<byte>, d: seq<byte>)
    requires |d| == 4 && [BACKSLASH, LETTER_U] + d <= b
    requires HighSurrogate(Hex4(d)) || LowSurrogate(Hex4(d))
    requires HighSurrogate(Hex4(d)) ==>
               !(|b| >= 12 && b[6] == BACKSLASH && b[7] == LETTER_U && LowSurrogate(Hex4(b[8..])))
    ensures Next(b) == BadStep
  {
    assert b[0] == BACKSLASH && b[1] == LETTER_U && b[2..][..4] == d;
    assert Hex4(b[2..]) == Hex4(d);
    assert Utf16(b) == BadUnit;
  }

  lemma NextPiece(p: Piece, rest: seq<byte>)
    requires ValidPiece(p) && (p.Hanging? ==> rest == [])
    ensures Next(Spell(p) + rest).Step?
    ensures Next(Spell(p) + rest).bytes == Meaning(p)
    ensures Advance(Spell(p) + rest, Next(Spell(p) + rest).length) == rest
  {
    var b := Spell(p) + rest;
    match p
    case Plain(_) =>
    case Short(_) =>
    case Code(d) => NextUnit(b, d);
    case Pair(h, l) => NextPair(b, h, l);
    case Broken(j) =>
      assert Hex4(j) == 0 && Utf8(0) == [0];
      NextUnit(b, j);
    case Hanging =>
      assert b == [BACKSLASH];
  }

  /** Every well-formed literal decodes to the UTF-8 of its code points, surrogate pairs combined. */
  lemma {:induction false} PiecesDecode(ps: seq<Piece>)
    requires Spelling(ps)
    ensures Unescape(SpellAll(ps)) == Some(MeaningAll(ps))
  {
    if ps != [] {
      assert Spelling(ps[1..]);
      assert ps[0].Hanging? ==> ps[1..] == [];
      NextPiece(ps[0], SpellAll(ps[1..]));
      PiecesDecode(ps[1..]);
    }
  }

  lemma FirstPiece(b: seq<byte>) returns (p: Piece)
    requires b != [] && Next(b).Step?
    ensures ValidPiece(p) && 0 < |Spell(p)| && Spell(p) <= b && (p.Hanging? ==> |b| == |Spell(p)|)
    ensures Next(b).bytes == Meaning(p) && Advance(b, Next(b).length) == b[|Spell(p)|..]
  {
    if b[0] != BACKSLASH {
      p := Plain(b[0]);
    } else if |b| == 1 {
      p := Hanging;
    } else if ShortMeaning(b[1]).Some? {
      p := Short(b[1]);
    } else {
      p := FirstUnit(b);
    }
  }

  lemma FirstUnit(b: seq<byte>) returns (p: Piece)
    requires |b| >= 2 && b[0] == BACKSLASH && b[1] == LETTER_U && Utf16(b).Unit?
    ensures ValidPiece(p) && Spell(p) <= b && !p.Hanging?
    ensures |Spell(p)| == Utf16(b).length && Meaning(p) == Utf8(Utf16(b).codepoint)
  {
    hide Utf8, Combine, Hex4;
    var d := b[2..6];
    assert b[..6] == [BACKSLASH, LETTER_U] + d;
    Hex4Prefix(b[2..], d);
    if Utf16(b).length == 12 {
      var l := b[8..12];
      assert b[..12] == [BACKSLASH, LETTER_U] + d + [BACKSLASH, LETTER_U] + l;
      Hex4Prefix(b[8..], l);
      p := Pair(d, l);
    } else if FourHex(d) {
      p := Code(d);
    } else {
      Utf8Zero();
      p := Broken(d);
    }
  }

  lemma Hex4Prefix(s: seq<byte>, d: seq<byte>)
    requires |d| == 4 && d <= s
    ensures Hex4(s) == Hex4(d)
    ensures !FourHex(d) ==> Hex4(d) == 0
    ensures Hex4(d) != 0 ==> FourHex(d)
  {
  }

  lemma Utf8Zero()
    ensures Utf8(0) == [0]
  {
  }

  lemma NothingSpelled(ps: seq<Piece>)
    requires SpellAll(ps) == []
    ensures ps == []
  {
  }

  lemma PrependPiece(p: Piece, ps: seq<Piece>)
    requires ValidPiece(p) && Spelling(ps) && (p.Hanging? ==> ps == [])
    ensures Spelling([p] + ps)
    ensures SpellAll([p] + ps) == Spell(p) + SpellAll(ps)
    ensures MeaningAll([p] + ps) == Meaning(p) + MeaningAll(ps)
  {
    var all := [p] + ps;
    assert all[1..] == ps;
    forall i | 0 <= i < |all|
      ensures ValidPiece(all[i]) && (i < |all| - 1 ==> !all[i].Hanging?)
    {
      assert i > 0 ==> all[i] == ps[i - 1];
    }
  }

  lemma EmptyBody()
    ensures Spelling([]) && SpellAll([]) == [] && Unescape([]) == Some(MeaningAll([]))
  {
  }

  lemma Decodable(b: seq<byte>)
    requires b != [] && Unescape(b).Some?
    ensures Next(b).Step?
  {
  }

  lemma UnescapeStep(b: seq<byte>, p: Piece)
    requires b != [] && Next(b).Step? && ValidPiece(p) && |Spell(p)| <= |b|
    requires Next(b).bytes == Meaning(p) && Advance(b, Next(b).length) == b[|Spell(p)|..]
    ensures Unescape(b).Some? <==> Unescape(b[|Spell(p)|..]).Some?
    ensures Unescape(b).Some? ==> Unescape(b).value == Meaning(p) + Unescape(b[|Spell(p)|..]).value
  {
  }

  /** Nothing else decodes: an accepted body is spelled by pieces, so an unpaired surrogate is rejected. */
  lemma {:induction false} OnlyPiecesDecode(b: seq<byte>) returns (ps: seq<Piece>)
    requires Unescape(b).Some?
    ensures Spelling(ps) && SpellAll(ps) == b && Unescape(b) == Some(MeaningAll(ps))
    decreases |b|
  {
    hide *;
    if b == [] {
      ps := [];
      EmptyBody();
    } else {
      Decodable(b);
      var p := FirstPiece(b);
      var tail := b[|Spell(p)|..];
      UnescapeStep(b, p);
      var rest := OnlyPiecesDecode(tail);
      if p.Hanging? {
        NothingSpelled(rest);
      }
      ps := [p] + rest;
      PrependPiece(p, rest);
      assert SpellAll(ps) == Spell(p) + tail == b;
    }
  }

  /** A surrogate escape that is not half of a pair makes the whole literal invalid. */
  lemma {:induction false} UnpairedSurrogateRejected(ps: seq<Piece>, d: seq<byte>, tail: seq<byte>)
    requires Spelling(ps) && forall i :: 0 <= i < |ps| ==> !ps[i].Hanging?
    requires FourHex(d) && (HighSurrogate(Hex4(d)) || LowSurrogate(Hex4(d)))
    requires HighSurrogate(Hex4(d)) ==>
               !(|tail| >= 6 && tail[0] == BACKSLASH && tail[1] == LETTER_U && LowSurrogate(Hex4(tail[2..])))
    ensures Unescape(SpellAll(ps) + ([BACKSLASH, LETTER_U] + d + tail)) == None
  {
    var bad := [BACKSLASH, LETTER_U] + d + tail;
    if ps == [] {
      assert SpellAll(ps) + bad == bad;
      assert |tail| >= 6 ==> bad[8..] == tail[2..];
      NextLone(bad, d);
    } else {
      var rest := SpellAll(ps[1..]) + bad;
      UnpairedSurrogateRejected(ps[1..], d, tail);
      Assoc(Spell(ps[0]), SpellAll(ps[1..]), bad);
      NextPiece(ps[0], rest);
    }
  }

  // ---------------------------------------------------------------- pieces within a literal

  lemma HexPlain(d: seq<byte>)
    requires FourHex(d)
    ensures forall i :: 0 <= i < |d| ==> d[i] != QUOTE && d[i] != BACKSLASH
  {
  }

  lemma EscapeThen(x: byte, rest: seq<byte>)
    ensures CloseAt([BACKSLASH, x] + rest) == Shift(CloseAt(rest), 2)
  {
    assert ([BACKSLASH, x] + rest)[2..] == rest;
  }

  lemma CodeThen(d: seq<byte>, rest: seq<byte>)
    requires FourHex(d)
    ensures CloseAt([BACKSLASH, LETTER_U] + d + rest) == Shift(CloseAt(rest), 6)
  {
    hide CloseAt;
    HexPlain(d);
    CloseAtPlain(d, rest);
    EscapeThen(LETTER_U, d + rest);
    Assoc([BACKSLASH, LETTER_U], d, rest);
  }

  /** The first pass goes over a piece as the second does, unless it is broken or left hanging. */
  lemma PieceThen(p: Piece, rest: seq<byte>)
    requires ValidPiece(p) && !p.Broken? && !p.Hanging? && p != Plain(QUOTE)
    ensures CloseAt(Spell(p) + rest) == Shift(CloseAt(rest), |Spell(p)|)
  {
    hide CloseAt;
    match p
    case Plain(b) => CloseAtNext(b, rest);
    case Short(l) => EscapeThen(l, rest);
    case Code(d) => CodeThen(d, rest);
    case Pair(h, l) =>
      var tail := [BACKSLASH, LETTER_U] + l + rest;
      CodeThen(l, rest);
      CodeThen(h, tail);
      PairSpelling(h, l, rest);
  }

  lemma PairSpelling(h: seq<byte>, l: seq<byte>, rest: seq<byte>)
    ensures [BACKSLASH, LETTER_U] + h + [BACKSLASH, LETTER_U] + l + rest == [BACKSLASH, LETTER_U] + h + ([BACKSLASH, LETTER_U] + l + rest)
  {
  }

  lemma PieceDecodes(p: Piece, d: seq<byte>)
    requires ValidPiece(p) && !p.Hanging? && Unescape(d).Some?
    ensures Unescape(Spell(p) + d) == Some(Meaning(p) + Unescape(d).value)
  {
    NextPiece(p, d);
    SpellSome(p, d);
    hide Next, Spell, Meaning;
  }

  lemma SpellSome(p: Piece, d: seq<byte>)
    ensures Spell(p) + d != []
  {
  }
}
