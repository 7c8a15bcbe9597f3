/**
 String literals in terms of characters: a decoder by the grammar in section 4 of RFC 3629, and the
 ways section 7 of RFC 8259 offers to write a character. The parser turns every literal into the
 UTF-8 of the characters that were written.
 */
module CodePoints {
  import opened Text
  import opened Literal
  import opened Json

  /** A Unicode scalar value: any code point but the surrogates. */
  predicate Character(cp: nat) {
    cp < 0xD800 || 0xE000 <= cp < 0x110000
  }

  // ---- UTF-8 ----

  predicate TailByte(b: byte) {
    0x80 <= b <= 0xBF
  }

  /** The bits that a byte of a given mark carries. */
  function Carried(b: byte, mark: int): (n: int) {
    b - mark
  }

  predicate Three(s: seq<byte>) {
    && |s| >= 3 && TailByte(s[2])
    && (if s[0] == 0xE0 then 0xA0 <= s[1] <= 0xBF
        else if s[0] == 0xED then 0x80 <= s[1] <= 0x9F
        else 0xE1 <= s[0] <= 0xEF && TailByte(s[1]))
  }

  predicate Four(s: seq<byte>) {
    && |s| >= 4 && TailByte(s[2]) && TailByte(s[3])
    && (if s[0] == 0xF0 then 0x90 <= s[1] <= 0xBF
        else if s[0] == 0xF4 then 0x80 <= s[1] <= 0x8F
        else 0xF1 <= s[0] <= 0xF3 && TailByte(s[1]))
  }

  /** The character at the front of a text, and the number of its bytes. */
  function First(s: seq<byte>): (r: Option<(nat, nat)>)
    ensures r.Some? ==> 1 <= r.value.1 <= |s|
  {
    if s == [] then None
    else if s[0] <= 0x7F then Some((s[0], 1))
    else if 0xC2 <= s[0] <= 0xDF then
      if |s| >= 2 && TailByte(s[1]) then Some((Carried(s[0], 0xC0) * 64 + Carried(s[1], 0x80), 2)) else None
    else if Three(s) then
      Some((Carried(s[0], 0xE0) * 4096 + Carried(s[1], 0x80) * 64 + Carried(s[2], 0x80), 3))
    else if Four(s) then
      Some((Carried(s[0], 0xF0) * 262144 + Carried(s[1], 0x80) * 4096 + Carried(s[2], 0x80) * 64 + Carried(s[3], 0x80), 4))
    else None
  }

  /** The characters of a text, if it is UTF-8. */
  function Characters(s: seq<byte>): (r: Option<seq<nat>>)
    decreases |s|
  {
    if s == [] then Some([]) else
    var c := First(s);
    if c.None? then None else
    var rest := Characters(s[c.value.1..]);
    if rest.None? then None else Some([c.value.0] + rest.value)
  }

  lemma SplitThree(cp: nat)
    requires cp < 0x10000
    ensures cp == cp / 4096 * 4096 + cp / 64 % 64 * 64 + cp % 64 && cp / 4096 < 16
    ensures cp / 4096 == 0 && 0x800 <= cp ==> cp / 64 % 64 >= 32
    ensures cp / 4096 == 13 && !(0xD800 <= cp < 0xE000) ==> cp / 64 % 64 < 32
  {
  }

  lemma SplitFour(cp: nat)
    requires 0x10000 <= cp < 0x110000
    ensures cp == cp / 262144 * 262144 + cp / 4096 % 64 * 4096 + cp / 64 % 64 * 64 + cp % 64 && cp / 262144 <= 4
    ensures cp / 262144 == 0 ==> cp / 4096 % 64 >= 16
    ensures cp / 262144 == 4 ==> cp / 4096 % 64 < 16
  {
  }

  /** The encoder's bytes are read back as the code point, whatever follows. */
  lemma FirstEncoded(cp: nat, rest: seq<byte>)
    requires Character(cp)
    ensures First(Utf8(cp) + rest) == Some((cp, |Utf8(cp)|))
  {
    var u := Utf8(cp);
    var s := u + rest;
    assert forall i :: 0 <= i < |u| ==> s[i] == u[i];
    if 0x800 <= cp < 0x10000 {
      SplitThree(cp);
      assert Three(s);
    } else if cp >= 0x10000 {
      SplitFour(cp);
      assert !Three(s) && Four(s);
    }
  }

  lemma JoinThree(a: nat, b: nat, c: nat)
    requires b < 64 && c < 64
    ensures var cp := a * 4096 + b * 64 + c; cp / 4096 == a && cp / 64 % 64 == b && cp % 64 == c
  {
    var cp := a * 4096 + b * 64 + c;
    assert cp / 64 == a * 64 + b;
  }

  lemma JoinFour(a: nat, b: nat, c: nat, d: nat)
    requires b < 64 && c < 64 && d < 64
    ensures var cp := a * 262144 + b * 4096 + c * 64 + d;
            cp / 262144 == a && cp / 4096 % 64 == b && cp / 64 % 64 == c && cp % 64 == d
  {
    JoinThree(a * 64 + b, c, d);
    var cp := a * 262144 + b * 4096 + c * 64 + d;
    assert cp == (a * 64 + b) * 4096 + c * 64 + d;
  }

  lemma EncodedThree(s: seq<byte>)
    requires Three(s)
    ensures var cp := Carried(s[0], 0xE0) * 4096 + Carried(s[1], 0x80) * 64 + Carried(s[2], 0x80);
            0x800 <= cp < 0x10000 && Character(cp) && s[..3] == Utf8(cp)
  {
    JoinThree(Carried(s[0], 0xE0), Carried(s[1], 0x80), Carried(s[2], 0x80));
    assert s[..3] == [s[0], s[1], s[2]];
  }

  lemma EncodedFour(s: seq<byte>)
    requires Four(s)
    ensures var cp := Carried(s[0], 0xF0) * 262144 + Carried(s[1], 0x80) * 4096 + Carried(s[2], 0x80) * 64 + Carried(s[3], 0x80);
            0x10000 <= cp && Character(cp) && s[..4] == Utf8(cp)
  {
    JoinFour(Carried(s[0], 0xF0), Carried(s[1], 0x80), Carried(s[2], 0x80), Carried(s[3], 0x80));
    assert s[..4] == [s[0], s[1], s[2], s[3]];
  }

  /** And conversely: what the grammar takes for a character is the encoder's text of it. */
  lemma FirstIsEncoded(s: seq<byte>)
    requires First(s).Some?
    ensures var (cp, n) := First(s).value; Character(cp) && s[..n] == Utf8(cp)
  {
    if s[0] > 0xDF {
      hide Utf8, Character;
      if Three(s) {
        EncodedThree(s);
      } else {
        EncodedFour(s);
      }
    }
  }

  lemma CharactersEncoded(cp: nat, rest: seq<byte>)
    requires Character(cp) && Characters(rest).Some?
    ensures Characters(Utf8(cp) + rest) == Some([cp] + Characters(rest).value)
  {
    FirstEncoded(cp, rest);
    assert (Utf8(cp) + rest)[|Utf8(cp)|..] == rest;
  }

  // ---- escapes ----

  const LOWER_DIGITS: string := "0123456789abcdef"
  const UPPER_DIGITS: string := "0123456789ABCDEF"

  function Digit(n: nat, upper: bool): (b: byte)
    requires n < 16
    ensures HexValue(b) == n
  {
    (if upper then UPPER_DIGITS[n] else LOWER_DIGITS[n]) as int
  }

  /** A number below 65536 in hexadecimal, most significant digit first. */
  function FourDigits(n: nat, upper: bool): (d: seq<byte>)
    requires n < 0x10000
    ensures FourHex(d)
  {
    [Digit(n / 4096, upper), Digit(n / 256 % 16, upper), Digit(n / 16 % 16, upper), Digit(n % 16, upper)]
  }

  lemma FourDigitsRead(n: nat, upper: bool)
    requires n < 0x10000
    ensures Hex4(FourDigits(n, upper)) == n
  {
    hide Digit, HexValue;
    SplitHex(n);
  }

  lemma SplitHex(n: nat)
    requires n < 0x10000
    ensures n / 4096 < 16 && n == n / 4096 * 4096 + n / 256 % 16 * 256 + n / 16 % 16 * 16 + n % 16
  {
  }

  /** How a character is written: as it is, with a letter behind a backslash, or by its number. */
  datatype Way = Raw | Letter | Numbered(upper: bool)

  /** The letters and the characters they stand for: quotation mark, reverse solidus, solidus, BS, FF, LF, CR, HT. */
  const LETTERS: string := "\"\\/bfnrt"
  const MEANINGS: seq<nat> := ['\"' as int, '\\' as int, '/' as int, 8, 12, '\n' as int, '\r' as int, '\t' as int]

  predicate Writable(cp: nat, way: Way) {
    && Character(cp) && cp != 0
    && (way.Raw? ==> cp != '\"' as int && cp != '\\' as int)
    && (way.Letter? ==> cp in MEANINGS)
  }

  /** The UTF-16 halves of a character beyond the first 65536. */
  function HighHalf(cp: nat): (h: nat)
    requires 0x10000 <= cp < 0x110000
    ensures HighSurrogate(h)
  {
    0xD800 + (cp - 0x10000) / 1024
  }

  function LowHalf(cp: nat): (l: nat)
    requires 0x10000 <= cp < 0x110000
    ensures LowSurrogate(l)
  {
    0xDC00 + (cp - 0x10000) % 1024
  }

  lemma HalvesCombine(cp: nat)
    requires 0x10000 <= cp < 0x110000
    ensures Combine(HighHalf(cp), LowHalf(cp)) == cp
  {
  }

  function Position(cp: nat, i: nat): (j: nat)
    requires i < |MEANINGS| && cp in MEANINGS[i..]
    ensures j < |MEANINGS| && MEANINGS[j] == cp
    decreases |MEANINGS| - i
  {
    if MEANINGS[i] == cp then i else Position(cp, i + 1)
  }

  function Numeric(n: nat, upper: bool): (s: seq<byte>)
    requires n < 0x10000
  {
    ['\\' as int, 'u' as int] + FourDigits(n, upper)
  }

  function Written(cp: nat, way: Way): (s: seq<byte>)
    requires Writable(cp, way)
  {
    match way
    case Raw => Utf8(cp)
    case Letter => ['\\' as int, LETTERS[Position(cp, 0)] as int]
    case Numbered(upper) =>
      if cp < 0x10000 then Numeric(cp, upper) else Numeric(HighHalf(cp), upper) + Numeric(LowHalf(cp), upper)
  }

  function WrittenAll(cps: seq<nat>, ways: seq<Way>): (s: seq<byte>)
    requires |cps| == |ways| && forall i :: 0 <= i < |cps| ==> Writable(cps[i], ways[i])
  {
    if cps == [] then [] else Written(cps[0], ways[0]) + WrittenAll(cps[1..], ways[1..])
  }

  // ---- reading what was written ----

  /** A piece of a literal body that decodes to some bytes, wherever it stands. */
  ghost predicate Decodes(w: seq<byte>, bytes: seq<byte>) {
    && (forall d :: Unescape(d).Some? ==> Unescape(w + d) == Some(bytes + Unescape(d).value))
    && (forall d :: CloseAt(w + d) == Shift(CloseAt(d), |w|))
  }

  lemma DecodesBefore(w: seq<byte>, bytes: seq<byte>, d: seq<byte>, e: seq<byte>)
    requires Decodes(w, bytes) && Unescape(d).Some?
    ensures Unescape(w + d) == Some(bytes + Unescape(d).value) && CloseAt(w + e) == Shift(CloseAt(e), |w|)
  {
    hide Unescape, CloseAt;
  }

  lemma {:induction false} PlainDecodes(w: seq<byte>, d: seq<byte>)
    requires (forall i :: 0 <= i < |w| ==> w[i] != BACKSLASH) && Unescape(d).Some?
    ensures Unescape(w + d) == Some(w + Unescape(d).value)
  {
    hide Unescape;
    if w == [] {
      assert w + d == d && w + Unescape(d).value == Unescape(d).value;
    } else {
      PlainDecodes(w[1..], d);
      PieceDecodes(Plain(w[0]), w[1..] + d);
      assert w + d == Spell(Plain(w[0])) + (w[1..] + d);
      assert w + Unescape(d).value == [w[0]] + (w[1..] + Unescape(d).value);
    }
  }

  lemma RawPlain(cp: nat)
    requires Character(cp) && cp != QUOTE && cp != BACKSLASH
    ensures forall i :: 0 <= i < |Utf8(cp)| ==> Utf8(cp)[i] != QUOTE && Utf8(cp)[i] != BACKSLASH
  {
  }

  /** The piece that an escape is. */
  function Escaped(cp: nat, way: Way): (p: Piece)
    requires Writable(cp, way) && !way.Raw?
  {
    match way
    case Letter => Short(LETTERS[Position(cp, 0)] as int)
    case Numbered(upper) =>
      if cp < 0x10000 then Code(FourDigits(cp, upper))
      else Pair(FourDigits(HighHalf(cp), upper), FourDigits(LowHalf(cp), upper))
  }

  lemma EscapedMeans(cp: nat, way: Way)
    requires Writable(cp, way) && !way.Raw?
    ensures var p := Escaped(cp, way);
            && ValidPiece(p) && !p.Broken? && !p.Hanging? && p != Plain(QUOTE)
            && Spell(p) == Written(cp, way) && Meaning(p) == Utf8(cp)
  {
    hide Digit, FourDigits, Hex4, HighHalf, LowHalf, Combine;
    match way
    case Letter => LetterMeans(cp);
    case Numbered(upper) =>
      if cp < 0x10000 {
        FourDigitsRead(cp, upper);
      } else {
        FourDigitsRead(HighHalf(cp), upper);
        FourDigitsRead(LowHalf(cp), upper);
        HalvesCombine(cp);
        assert Numeric(HighHalf(cp), upper) + Numeric(LowHalf(cp), upper)
            == Spell(Pair(FourDigits(HighHalf(cp), upper), FourDigits(LowHalf(cp), upper)));
      }
  }

  lemma LetterMeans(cp: nat)
    requires cp in MEANINGS
    ensures ShortMeaning(LETTERS[Position(cp, 0)] as int) == Some(cp)
  {
    var j := Position(cp, 0);
    assert j == 0 || j == 1 || j == 2 || j == 3 || j == 4 || j == 5 || j == 6 || j == 7;
  }

  lemma WrittenDecodes(cp: nat, way: Way)
    requires Writable(cp, way)
    ensures Decodes(Written(cp, way), Utf8(cp))
  {
    hide Unescape, CloseAt, Escaped, Utf8, Spell, Meaning, ValidPiece;
    var w := Written(cp, way);
    if way.Raw? {
      RawPlain(cp);
      forall d | Unescape(d).Some? ensures Unescape(w + d) == Some(w + Unescape(d).value) {
        PlainDecodes(w, d);
      }
      forall d ensures CloseAt(w + d) == Shift(CloseAt(d), |w|) {
        CloseAtPlain(w, d);
      }
    } else {
      EscapedMeans(cp, way);
      var p := Escaped(cp, way);
      forall d | Unescape(d).Some? ensures Unescape(w + d) == Some(Utf8(cp) + Unescape(d).value) {
        PieceDecodes(p, d);
      }
      forall d ensures CloseAt(w + d) == Shift(CloseAt(d), |w|) {
        PieceThen(p, d);
      }
    }
  }

  /** A body, its end and its characters. */
  ghost predicate Means(body: seq<byte>, rest: seq<byte>, cps: seq<nat>) {
    && CloseAt(body + ([QUOTE] + rest)) == Some(|body|)
    && Unescape(body).Some? && NulFree(Unescape(body).value) && Characters(Unescape(body).value) == Some(cps)
  }

  lemma MeansMore(cp: nat, way: Way, tail: seq<byte>, rest: seq<byte>, cps: seq<nat>)
    requires Writable(cp, way) && Means(tail, rest, cps)
    ensures Means(Written(cp, way) + tail, rest, [cp] + cps)
  {
    hide Unescape, CloseAt, Written, Utf8, Characters, NulFree, Writable, Decodes;
    var w := Written(cp, way);
    WrittenDecodes(cp, way);
    NoNul(cp, way, Unescape(tail).value);
    DecodesBefore(w, Utf8(cp), tail, tail + ([QUOTE] + rest));
    Assoc(w, tail, [QUOTE] + rest);
    CharactersEncoded(cp, Unescape(tail).value);
  }

  lemma MeansNothing(rest: seq<byte>)
    ensures Means([], rest, [])
  {
    assert [] + ([QUOTE] + rest) == [QUOTE] + rest;
    CloseAtQuote(rest);
  }

  lemma {:induction false} BodyMeans(cps: seq<nat>, ways: seq<Way>, rest: seq<byte>)
    requires |cps| == |ways| && forall i :: 0 <= i < |cps| ==> Writable(cps[i], ways[i])
    ensures Means(WrittenAll(cps, ways), rest, cps)
  {
    hide Means, Written, Writable;
    if cps == [] {
      MeansNothing(rest);
    } else {
      BodyMeans(cps[1..], ways[1..], rest);
      MeansMore(cps[0], ways[0], WrittenAll(cps[1..], ways[1..]), rest, cps[1..]);
      assert [cps[0]] + cps[1..] == cps;
    }
  }

  lemma NoNul(cp: nat, way: Way, s: seq<byte>)
    requires Writable(cp, way) && NulFree(s)
    ensures Character(cp) && NulFree(Utf8(cp) + s)
  {
  }

  /**
   A literal read by the parser holds the characters that were written, in whatever of the ways of
   RFC 8259 each was written, and nothing of what follows the closing quote.
   */
  lemma LiteralMeans(cps: seq<nat>, ways: seq<Way>, rest: seq<byte>)
    requires |cps| == |ways| && forall i :: 0 <= i < |cps| ==> Writable(cps[i], ways[i])
    ensures var r := ParseString([QUOTE] + WrittenAll(cps, ways) + [QUOTE] + rest);
            r.Ok? && r.rest == rest && Characters(r.value) == Some(cps)
  {
    hide Means, WrittenAll, Characters, Writable, ParseString;
    BodyMeans(cps, ways, rest);
    MeansRead(WrittenAll(cps, ways), rest, cps);
  }

  lemma MeansRead(body: seq<byte>, rest: seq<byte>, cps: seq<nat>)
    requires Means(body, rest, cps)
    ensures var r := ParseString([QUOTE] + body + [QUOTE] + rest);
            r.Ok? && r.rest == rest && Characters(r.value) == Some(cps)
  {
    hide Unescape, CloseAt, Characters, CString;
    var s := [QUOTE] + body + [QUOTE] + rest;
    Slices(body, rest);
    assert ParseString(s) == Ok(CString(Unescape(body).value), rest);
  }

  lemma Slices(body: seq<byte>, rest: seq<byte>)
    ensures var s := [QUOTE] + body + [QUOTE] + rest;
            s[1..] == body + ([QUOTE] + rest) && s[1..1 + |body|] == body && s[|body| + 2..] == rest
  {
  }

  // ---- what the printer writes ----

  /** The printer writes a byte as it is, with its letter if it has one other than "/", or as a number in lower case. */
  lemma EscapeWritten(b: byte)
    requires b != 0
    ensures EscapeByte(b) ==
      (if b in MEANINGS && b != '/' as int then ['\\' as int, LETTERS[Position(b, 0)] as int]
       else if b < 32 then Numeric(b, false)
       else [b])
  {
    hide FourDigits;
    if b in MEANINGS {
      LetterMeans(b);
    } else if b < 32 {
      PrintedDigits(b);
    }
  }

  lemma PrintedDigits(b: byte)
    requires b < 32
    ensures FourDigits(b, false) == [48, 48, HexChar(b / 16), HexChar(b % 16)]
  {
    PrintedDigit(b / 16);
    PrintedDigit(b % 16);
    PrintedDigit(0);
    assert b / 4096 == 0 && b / 256 % 16 == 0 && b / 16 % 16 == b / 16;
  }

  lemma PrintedDigit(n: nat)
    requires n < 16
    ensures Digit(n, false) == HexChar(n)
  {
  }

  /** No control characters as they are, no quotation marks, and no malformed escapes. */
  predicate Proper(p: Piece) {
    && ValidPiece(p) && !p.Broken? && !p.Hanging?
    && (p.Plain? ==> p.b >= 32 && p.b != QUOTE)
  }

  lemma {:induction false} EscapeJoin(a: seq<byte>, b: seq<byte>)
    ensures Escape(a + b) == Escape(a) + Escape(b)
  {
    if a == [] {
      assert a + b == b;
    } else {
      assert (a + b)[0] == a[0] && (a + b)[1..] == a[1..] + b;
      EscapeJoin(a[1..], b);
    }
  }

  lemma {:induction false} HighEscape(s: seq<byte>)
    requires forall i :: 0 <= i < |s| ==> s[i] >= 0x80
    ensures Escape(s) == s
  {
    if s != [] {
      HighEscape(s[1..]);
    }
  }

  lemma EscapeOne(b: byte)
    ensures Escape([b]) == EscapeByte(b)
  {
    assert [b][1..] == [];
  }

  lemma PieceLength(p: Piece)
    requires Proper(p)
    ensures |Escape(Meaning(p))| <= |Spell(p)|
  {
    hide Escape;
    if p.Plain? || p.Short? {
      EscapeOne(Meaning(p)[0]);
    } else {
      var cp := if p.Code? then Hex4(p.digits) else Combine(Hex4(p.high), Hex4(p.low));
      if cp < 0x80 {
        EscapeOne(cp);
      } else {
        HighEscape(Utf8(cp));
      }
    }
  }

  /** Of all literals of RFC 8259 for the same bytes, none is shorter than the printed one. */
  lemma {:induction false} EscapeShortest(ps: seq<Piece>)
    requires forall i :: 0 <= i < |ps| ==> Proper(ps[i])
    ensures Spelling(ps) && |Escape(MeaningAll(ps))| <= |SpellAll(ps)|
  {
    if ps != [] {
      hide Meaning, Spell, Escape;
      EscapeShortest(ps[1..]);
      PieceLength(ps[0]);
      EscapeJoin(Meaning(ps[0]), MeaningAll(ps[1..]));
    }
  }
}
