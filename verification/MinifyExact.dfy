/** What cJSON_Minify must not drop: if a text that lost only blanks reads the same, no literal lost a byte. */
module MinifyExact {
  import opened Text
  import opened Literal
  import opened Numbers
  import opened Json
  import opened RoundTrip
  import opened Minify
  import P = Parsing

  /** `m` is `s` with some blanks dropped, wherever they are. */
  predicate Sparse(s: seq<byte>, m: seq<byte>)
    decreases |s|
  {
    if s == [] then m == []
    else (Blank(s[0]) && Sparse(s[1..], m)) || (m != [] && m[0] == s[0] && Sparse(s[1..], m[1..]))
  }

  /** The literals of the text decode without a NUL. */
  predicate Pure(s: seq<byte>)
    decreases |s|
  {
    if s == [] then true
    else if s[0] == QUOTE && CloseAt(s[1..]).Some? then
      var b := Unescape(s[1..1 + CloseAt(s[1..]).value]);
      (b.Some? ==> NulFree(b.value)) && Pure(s[CloseAt(s[1..]).value + 2..])
    else Pure(s[1..])
  }

  // ---- dropping blanks ----

  lemma {:induction false} SparseBehind(p: seq<byte>, s: seq<byte>, m: seq<byte>)
    requires Sparse(s, m)
    ensures Sparse(p + s, p + m)
  {
    if p == [] {
      assert p + s == s && p + m == m;
    } else {
      SparseBehind(p[1..], s, m);
      assert (p + s)[1..] == p[1..] + s && (p + m)[1..] == p[1..] + m;
    }
  }

  lemma {:induction false} SparseShorter(s: seq<byte>, m: seq<byte>)
    requires Sparse(s, m)
    ensures |m| <= |s| && (|m| == |s| ==> m == s)
    decreases |s|
  {
    if s != [] {
      if Blank(s[0]) && Sparse(s[1..], m) {
        SparseShorter(s[1..], m);
      } else {
        SparseShorter(s[1..], m[1..]);
        assert m == [m[0]] + m[1..] && s == [s[0]] + s[1..];
      }
    }
  }

  lemma SparseKept(s: seq<byte>, m: seq<byte>)
    requires Sparse(s, m) && s != [] && !Blank(s[0])
    ensures m != [] && m[0] == s[0] && Sparse(s[1..], m[1..])
  {
  }

  lemma {:induction false} SparseWord(w: seq<byte>, rest: seq<byte>, m: seq<byte>)
    requires Sparse(w + rest, m) && forall i :: 0 <= i < |w| ==> !Blank(w[i])
    ensures w <= m && Sparse(rest, m[|w|..])
  {
    hide Sparse;
    if w == [] {
      assert w + rest == rest && m[0..] == m;
    } else {
      assert (w + rest)[0] == w[0] && (w + rest)[1..] == w[1..] + rest;
      SparseKept(w + rest, m);
      SparseWord(w[1..], rest, m[1..]);
      assert m[1..][|w| - 1..] == m[|w|..];
    }
  }

  // ---- literals ----

  lemma PieceUnblank(p: Piece)
    requires ValidPiece(p) && !p.Broken? && (p.Plain? ==> !Blank(p.b))
    ensures forall i :: 0 <= i < |Spell(p)| ==> !Blank(Spell(p)[i])
  {
  }

  /** A literal body as both passes see it, with the closing quote behind it. */
  predicate Closed(b: seq<byte>, rest: seq<byte>) {
    CloseAt(b + [QUOTE] + rest) == Some(|b|) && Unescape(b).Some?
  }

  /** The same, decoding without a NUL. */
  predicate Body(b: seq<byte>, rest: seq<byte>) {
    Closed(b, rest) && NulFree(Unescape(b).value)
  }

  /** The first piece of a body, and that what is left is a body unless the piece is broken. */
  lemma ClosedPiece(b: seq<byte>, rest: seq<byte>) returns (p: Piece, tail: seq<byte>)
    requires Closed(b, rest) && b != []
    ensures ValidPiece(p) && !p.Hanging? && p != Plain(QUOTE) && 0 < |Spell(p)|
    ensures b == Spell(p) + tail && Unescape(tail).Some? && Unescape(b).value == Meaning(p) + Unescape(tail).value
    ensures !p.Broken? ==> Closed(tail, rest)
  {
    hide CloseAt, Unescape, Next, Spell, Meaning, ValidPiece, Advance;
    Decodable(b);
    p := FirstPiece(b);
    tail := b[|Spell(p)|..];
    UnescapeStep(b, p);
    assert b == Spell(p) + tail;
    Regrouped(Spell(p), tail, rest);
    SpelledShort(p);
    if p.Hanging? {
      HangingTakes(b, rest);
    }
    if p == Plain(QUOTE) {
      QuoteCloses(b, rest);
    }
    if !p.Broken? {
      PieceThen(p, tail + [QUOTE] + rest);
    }
  }

  lemma BodyPiece(b: seq<byte>, rest: seq<byte>) returns (p: Piece, tail: seq<byte>)
    requires Body(b, rest) && b != []
    ensures ValidPiece(p) && !p.Broken? && !p.Hanging? && p != Plain(QUOTE) && 0 < |Spell(p)|
    ensures b == Spell(p) + tail && Body(tail, rest) && Unescape(b).value == Meaning(p) + Unescape(tail).value
  {
    hide Closed, Unescape, Spell, Meaning, ValidPiece, NulFree;
    BodyClosed(b, rest);
    p, tail := ClosedPiece(b, rest);
    NulFreeParts(Meaning(p), Unescape(tail).value);
    BrokenIsNul(p);
  }

  lemma BodyClosed(b: seq<byte>, rest: seq<byte>)
    requires Body(b, rest)
    ensures Closed(b, rest) && Unescape(b).Some? && NulFree(Unescape(b).value)
  {
  }

  lemma SpelledShort(p: Piece)
    ensures p.Hanging? ==> Spell(p) == [BACKSLASH]
    ensures p.Plain? ==> Spell(p) == [p.b]
  {
  }

  lemma NulFreeParts(a: seq<byte>, b: seq<byte>)
    requires NulFree(a + b)
    ensures NulFree(a) && NulFree(b)
  {
    assert forall i :: 0 <= i < |a| ==> (a + b)[i] == a[i];
    assert forall i :: 0 <= i < |b| ==> (a + b)[|a| + i] == b[i];
  }

  lemma BrokenIsNul(p: Piece)
    requires ValidPiece(p)
    ensures p.Broken? ==> !NulFree(Meaning(p))
  {
    if p.Broken? {
      assert Meaning(p)[0] == 0;
    }
  }

  lemma Regrouped(a: seq<byte>, b: seq<byte>, rest: seq<byte>)
    ensures a + b + [QUOTE] + rest == a + (b + [QUOTE] + rest)
  {
  }

  lemma HangingTakes(b: seq<byte>, rest: seq<byte>)
    requires b != [] && b[0] == BACKSLASH && |b| == 1
    ensures CloseAt(b + [QUOTE] + rest) != Some(|b|)
  {
    assert b + [QUOTE] + rest == [BACKSLASH, QUOTE] + rest;
    EscapeThen(QUOTE, rest);
  }

  lemma QuoteCloses(b: seq<byte>, rest: seq<byte>)
    requires b != [] && b[0] == QUOTE
    ensures CloseAt(b + [QUOTE] + rest) == Some(0)
  {
    assert (b + [QUOTE] + rest)[0] == QUOTE;
  }

  /** Dropping blanks from a body leaves a body, which decodes to as many bytes less. */
  lemma {:induction false} BodySparse(b: seq<byte>, rest: seq<byte>, m: seq<byte>) returns (c: seq<byte>, q: seq<byte>)
    requires Body(b, rest) && Sparse(b + [QUOTE] + rest, m)
    ensures m == c + [QUOTE] + q && Sparse(b, c) && Sparse(rest, q)
    ensures Body(c, q) && |Unescape(c).value| + |b| == |Unescape(b).value| + |c|
    decreases |b|
  {
    if b == [] {
      assert b + [QUOTE] + rest == [QUOTE] + rest;
      SparseWord([QUOTE], rest, m);
      c, q := [], m[1..];
      assert m == c + [QUOTE] + q;
      EmptyBody();
      QuoteFirst(q);
    } else {
      hide Body, Sparse, Unescape, Spell, Meaning;
      var p, tail := BodyPiece(b, rest);
      Regrouped(Spell(p), tail, rest);
      if p.Plain? && Blank(p.b) && Sparse(tail + [QUOTE] + rest, m) {
        c, q := BodySparse(tail, rest, m);
        BlankDropped(p, b, tail, c);
      } else {
        PieceKept(p, tail + [QUOTE] + rest, m);
        var n := m[|Spell(p)|..];
        var d;
        d, q := BodySparse(tail, rest, n);
        c := Spell(p) + d;
        assert m == c + [QUOTE] + q by { assert m == Spell(p) + n; Regrouped(Spell(p), d, q); }
        PieceBack(p, b, tail, d, q);
      }
    }
  }

  lemma QuoteFirst(q: seq<byte>)
    ensures Body([], q)
  {
    assert ([] + [QUOTE] + q)[0] == QUOTE;
  }

  lemma BlankDropped(p: Piece, b: seq<byte>, tail: seq<byte>, c: seq<byte>)
    requires p.Plain? && ValidPiece(p) && Blank(p.b) && b == Spell(p) + tail && Sparse(tail, c)
    ensures Sparse(b, c) && |b| == |tail| + 1 && |Meaning(p)| == 1
  {
    assert b[0] == p.b && b[1..] == tail;
  }

  lemma PieceKept(p: Piece, rest: seq<byte>, m: seq<byte>)
    requires ValidPiece(p) && !p.Broken? && Sparse(Spell(p) + rest, m) && !(p.Plain? && Blank(p.b) && Sparse(rest, m))
    ensures Spell(p) <= m && Sparse(rest, m[|Spell(p)|..]) && m == Spell(p) + m[|Spell(p)|..]
  {
    if p.Plain? && Blank(p.b) {
      assert (Spell(p) + rest)[1..] == rest;
    } else {
      PieceUnblank(p);
      hide Sparse, Spell;
      SparseWord(Spell(p), rest, m);
    }
  }

  /** A piece put back before a body. */
  lemma PieceBack(p: Piece, b: seq<byte>, tail: seq<byte>, d: seq<byte>, q: seq<byte>)
    requires ValidPiece(p) && !p.Broken? && !p.Hanging? && p != Plain(QUOTE) && b == Spell(p) + tail
    requires Unescape(b).Some? && NulFree(Unescape(b).value) && Unescape(tail).Some? && Unescape(b).value == Meaning(p) + Unescape(tail).value
    requires Sparse(tail, d) && Body(d, q)
    ensures Sparse(b, Spell(p) + d) && Body(Spell(p) + d, q)
    ensures Unescape(Spell(p) + d).value == Meaning(p) + Unescape(d).value
  {
    hide Sparse, Spell, Meaning, NulFree, CloseAt, Next, Unescape, ValidPiece;
    SparseBehind(Spell(p), tail, d);
    NulFreeParts(Meaning(p), Unescape(tail).value);
    NextPiece(p, d);
    PieceDecodes(p, d);
    NulFreeJoined(Meaning(p), Unescape(d).value);
    Regrouped(Spell(p), d, q);
    PieceThen(p, d + [QUOTE] + q);
  }

  lemma NulFreeJoined(a: seq<byte>, b: seq<byte>)
    requires NulFree(a) && NulFree(b)
    ensures NulFree(a + b)
  {
  }

  /** What the parts of two texts have to do with each other, and what that means for the whole. */
  predicate Forced(s: seq<byte>, m: seq<byte>, r: seq<byte>, q: seq<byte>) {
    Sparse(r, q) && Pure(r) && (Thinned(r, q) ==> Thinned(s, m))
  }

  /** A literal that reads the same has lost nothing. */
  lemma StringForced(s: seq<byte>, m: seq<byte>)
    requires ParseString(s).Ok? && Pure(s) && Sparse(s, m) && ParseString(m).Ok? && ParseString(m).value == ParseString(s).value
    ensures Forced(s, m, ParseString(s).rest, ParseString(m).rest)
  {
    hide Sparse, CloseAt, Unescape, NulFree, CString, Thinned, Pure;
    StringOpens(s);
    var k := CloseAt(s[1..]).value;
    var b, rest := s[1..1 + k], s[k + 2..];
    LiteralParts(s);
    SparseOpens(s, m);
    var c, q := BodySparse(b, rest, m[1..]);
    LiteralRead(m, c, q);
    WholeCString(Unescape(b).value);
    WholeCString(Unescape(c).value);
    SparseShorter(b, c);
    if Thinned(rest, q) {
      SameLiteral(s, m, b, rest, q);
    }
  }

  lemma SparseOpens(s: seq<byte>, m: seq<byte>)
    requires Sparse(s, m) && s != [] && s[0] == QUOTE
    ensures m != [] && m[0] == QUOTE && Sparse(s[1..], m[1..])
  {
  }

  lemma LiteralParts(s: seq<byte>)
    requires ParseString(s).Ok? && Pure(s) && s != [] && s[0] == QUOTE && CloseAt(s[1..]).Some?
    ensures var k := CloseAt(s[1..]).value;
            && k + 2 <= |s| && s[1..] == s[1..1 + k] + [QUOTE] + s[k + 2..] && Body(s[1..1 + k], s[k + 2..])
            && ParseString(s) == Ok(CString(Unescape(s[1..1 + k]).value), s[k + 2..]) && Pure(s[k + 2..])
  {
    hide CloseAt, Unescape, CString, NulFree, Pure, ParseString;
    var k := CloseAt(s[1..]).value;
    ParsedLiteral(s);
    ClosingQuote(s[1..], k);
    PureLiteral(s);
    assert s[1..][..k] == s[1..1 + k] && s[1..][k + 1..] == s[k + 2..];
  }

  lemma ParsedLiteral(s: seq<byte>)
    requires ParseString(s).Ok? && s != [] && s[0] == QUOTE && CloseAt(s[1..]).Some?
    ensures var k := CloseAt(s[1..]).value;
            && k + 2 <= |s| && Unescape(s[1..1 + k]).Some?
            && ParseString(s) == Ok(CString(Unescape(s[1..1 + k]).value), s[k + 2..])
  {
    hide CloseAt, Unescape, CString;
  }

  lemma ClosingQuote(t: seq<byte>, k: nat)
    requires CloseAt(t) == Some(k)
    ensures k < |t| && t == t[..k] + [QUOTE] + t[k + 1..]
  {
    hide CloseAt;
  }

  lemma PureLiteral(s: seq<byte>)
    requires Pure(s) && s != [] && s[0] == QUOTE && CloseAt(s[1..]).Some?
    ensures var k := CloseAt(s[1..]).value;
            && k + 2 <= |s| && Pure(s[k + 2..])
            && (Unescape(s[1..1 + k]).Some? ==> NulFree(Unescape(s[1..1 + k]).value))
  {
    hide CloseAt, Unescape, NulFree;
  }

  lemma LiteralRead(m: seq<byte>, c: seq<byte>, q: seq<byte>)
    requires m != [] && m[0] == QUOTE && m[1..] == c + [QUOTE] + q && Closed(c, q)
    ensures ParseString(m) == Ok(CString(Unescape(c).value), q)
  {
    hide CloseAt, Unescape, CString;
    assert m[1..1 + |c|] == m[1..][..|c|] == c && m[|c| + 2..] == m[1..][|c| + 1..] == q;
  }

  lemma WholeCString(b: seq<byte>)
    ensures NulFree(b) ==> CString(b) == b
  {
  }

  lemma SameLiteral(s: seq<byte>, m: seq<byte>, b: seq<byte>, rest: seq<byte>, q: seq<byte>)
    requires s != [] && s[0] == QUOTE && s[1..] == b + [QUOTE] + rest && CloseAt(s[1..]) == Some(|b|)
    requires m != [] && m[0] == QUOTE && m[1..] == b + [QUOTE] + q && Thinned(rest, q)
    ensures Thinned(s, m)
  {
    hide CloseAt;
    var n := |b| + 2;
    assert s == [QUOTE] + (b + [QUOTE] + rest) && m == [QUOTE] + (b + [QUOTE] + q);
    assert m[..n] == s[..n] && s[n..] == rest && m[n..] == q;
  }

  // ---- values ----

  /** Whitespace is skipped on both sides, and nothing is lost by it. */
  lemma {:induction false} SparseSkipWs(s: seq<byte>, m: seq<byte>)
    requires Sparse(s, m) && Pure(s)
    ensures Forced(s, m, SkipWs(s), SkipWs(m))
    decreases |s|
  {
    hide CloseAt, Unescape, NulFree;
    if s != [] && s[0] <= 32 {
      if Blank(s[0]) && Sparse(s[1..], m) {
        SparseSkipWs(s[1..], m);
      } else {
        SparseSkipWs(s[1..], m[1..]);
      }
    }
  }

  /** A mark stays. */
  lemma MarkForced(s: seq<byte>, m: seq<byte>)
    requires Sparse(s, m) && Pure(s) && s != [] && s[0] > 32 && Ordinary(s[0])
    ensures m != [] && m[0] == s[0] && Forced(s, m, s[1..], m[1..])
  {
    hide CloseAt, Unescape, NulFree;
  }

  lemma ForcedFirst(s: seq<byte>, m: seq<byte>)
    requires Sparse(s, m) && s != [] && s[0] > 32
    ensures m != [] && m[0] == s[0]
  {
  }

  lemma NothingSparse(m: seq<byte>)
    requires Sparse([], m)
    ensures m == []
  {
  }

  lemma ForcedOn(s: seq<byte>, m: seq<byte>, r: seq<byte>, q: seq<byte>, t: seq<byte>, u: seq<byte>)
    requires Forced(s, m, r, q) && Forced(r, q, t, u)
    ensures Forced(s, m, t, u)
  {
    hide Sparse, Thinned, Pure;
  }

  lemma {:induction false} WordForced(w: seq<byte>, rest: seq<byte>, m: seq<byte>)
    requires Sparse(w + rest, m) && Pure(w + rest) && forall i :: 0 <= i < |w| ==> w[i] > 32 && Ordinary(w[i])
    ensures w <= m && Forced(w + rest, m, rest, m[|w|..])
  {
    hide Sparse, Pure, Forced;
    if w == [] {
      assert w + rest == rest && m[0..] == m;
      ForcedSelf(rest, m);
    } else {
      var s := w + rest;
      assert s[0] == w[0] && s[1..] == w[1..] + rest;
      MarkForced(s, m);
      ForcedParts(s, m, s[1..], m[1..]);
      WordForced(w[1..], rest, m[1..]);
      assert m[1..][|w| - 1..] == m[|w|..];
      ForcedOn(s, m, s[1..], m[1..], rest, m[|w|..]);
    }
  }

  lemma ForcedSelf(s: seq<byte>, m: seq<byte>)
    requires Sparse(s, m) && Pure(s)
    ensures Forced(s, m, s, m)
  {
  }

  lemma ForcedParts(s: seq<byte>, m: seq<byte>, r: seq<byte>, q: seq<byte>)
    requires Forced(s, m, r, q)
    ensures Sparse(r, q) && Pure(r)
  {
  }

  lemma SparseEnds(s: seq<byte>, m: seq<byte>)
    requires Ends(s) && Sparse(s, m) && Pure(s)
    ensures EndsNumber(m) && EndsNumber(s)
  {
    hide Sparse, Pure, Forced;
    SparseSkipWs(s, m);
    ForcedParts(s, m, SkipWs(s), SkipWs(m));
    if SkipWs(s) != [] {
      ForcedFirst(SkipWs(s), SkipWs(m));
    } else {
      NothingSparse(SkipWs(m));
    }
  }

  /** A number reads the same. */
  lemma NumberForced(c: Codec, s: seq<byte>, m: seq<byte>)
    requires s != [] && (s[0] == MINUS || IsDigit(s[0])) && ParseNumber(c, s).Ok? && Ends(ParseNumber(c, s).rest)
    requires Pure(s) && Sparse(s, m)
    ensures ParseNumber(c, m).Ok? && Forced(s, m, ParseNumber(c, s).rest, ParseNumber(c, m).rest)
  {
    hide Sparse, Pure, Forced, Ends, ParseNumber, Strtod, NumberRun;
    var run := NumberRun(s, NUMBER_ROOM);
    NumberEnds(c, s);
    var rest := s[|run|..];
    assert s == run + rest;
    NumberOrdinary(run);
    WordForced(run, rest, m);
    var q := m[|run|..];
    ForcedParts(s, m, rest, q);
    SparseEnds(rest, q);
    assert m == run + q;
    ParseRun(c, run, q);
  }

  lemma NumberOrdinary(run: seq<byte>)
    requires forall i :: 0 <= i < |run| ==> NumberByte(run[i])
    ensures forall i :: 0 <= i < |run| ==> run[i] > 32 && Ordinary(run[i])
  {
  }

  lemma WordRead(c: Codec, w: cstring, s: seq<byte>, m: seq<byte>, depth: nat)
    requires w == NULL_WORD || w == FALSE_WORD || w == TRUE_WORD
    requires w <= s && Sparse(s, m) && Pure(s)
    ensures ParseValue(c, s, depth).Ok? && ParseValue(c, m, depth).Ok?
    ensures Forced(s, m, ParseValue(c, s, depth).rest, ParseValue(c, m, depth).rest)
  {
    hide Sparse, Pure, Forced, ParseValue;
    var rest := s[|w|..];
    assert s == w + rest;
    WordForced(w, rest, m);
    assert m == w + m[|w|..];
    ParseWord(c, w, rest, depth);
    ParseWord(c, w, m[|w|..], depth);
  }

  /** A value that reads the same has lost no byte of a literal. */
  lemma {:induction false} ValueForced(c: Codec, s: seq<byte>, m: seq<byte>, depth: nat)
    requires ParseValue(c, s, depth).Ok? && Pure(s) && Sparse(s, m) && Ends(ParseValue(c, s, depth).rest)
    requires ParseValue(c, m, depth).Ok? && ParseValue(c, m, depth).value == ParseValue(c, s, depth).value
    ensures Forced(s, m, ParseValue(c, s, depth).rest, ParseValue(c, m, depth).rest)
    decreases |s|, 1
  {
    hide ParseValue, ParseString, ParseNumber, ParseArray, ParseObject, Sparse, Pure, Forced, Ends, Unclosed;
    ValueStart(c, s, depth);
    ForcedFirst(s, m);
    if NULL_WORD <= s {
      WordRead(c, NULL_WORD, s, m, depth);
    } else if FALSE_WORD <= s {
      WordRead(c, FALSE_WORD, s, m, depth);
    } else if TRUE_WORD <= s {
      WordRead(c, TRUE_WORD, s, m, depth);
    } else if s[0] == QUOTE {
      DispatchString(c, s, depth);
      DispatchString(c, m, depth);
      StringForced(s, m);
    } else if s[0] == LBRACKET {
      DispatchArray(c, s, depth);
      DispatchArray(c, m, depth);
      ArrayForced(c, s, m, depth);
    } else if s[0] == LBRACE {
      DispatchObject(c, s, depth);
      DispatchObject(c, m, depth);
      ObjectForced(c, s, m, depth);
    } else {
      DispatchNumber(c, s, depth);
      DispatchNumber(c, m, depth);
      NumberForced(c, s, m);
    }
  }

  /** A mark and the whitespace behind it. */
  lemma MarkThenWs(s: seq<byte>, m: seq<byte>)
    requires Sparse(s, m) && Pure(s) && s != [] && s[0] > 32 && Ordinary(s[0])
    ensures m != [] && m[0] == s[0] && Forced(s, m, SkipWs(s[1..]), SkipWs(m[1..]))
  {
    hide Sparse, Pure, Forced;
    MarkForced(s, m);
    ForcedParts(s, m, s[1..], m[1..]);
    SparseSkipWs(s[1..], m[1..]);
    ForcedOn(s, m, s[1..], m[1..], SkipWs(s[1..]), SkipWs(m[1..]));
  }

  /** The next byte, if any, is the same. */
  lemma SameNext(r: seq<byte>, q: seq<byte>)
    requires Sparse(r, q) && (r == [] || r[0] > 32)
    ensures r == [] <==> q == []
    ensures r != [] ==> q[0] == r[0]
  {
  }

  lemma {:induction false} ArrayForced(c: Codec, s: seq<byte>, m: seq<byte>, depth: nat)
    requires s != [] && s[0] == LBRACKET && ParseArray(c, s, depth).Ok? && Pure(s) && Sparse(s, m)
    requires ParseArray(c, m, depth).Ok? && ParseArray(c, m, depth).value == ParseArray(c, s, depth).value
    ensures Forced(s, m, ParseArray(c, s, depth).rest, ParseArray(c, m, depth).rest)
    decreases |s|, 0
  {
    hide ParseArray, ParseElements, Sparse, Pure, Forced;
    MarkThenWs(s, m);
    var r, q := SkipWs(s[1..]), SkipWs(m[1..]);
    ForcedParts(s, m, r, q);
    SameNext(r, q);
    P.ArrayUnfold(c, s, depth);
    P.ArrayUnfold(c, m, depth);
    if r != [] && r[0] == RBRACKET {
      MarkForced(r, q);
      ForcedOn(s, m, r, q, r[1..], q[1..]);
    } else {
      ElementsForced(c, r, q, depth + 1);
      ForcedOn(s, m, r, q, ParseElements(c, r, depth + 1).rest, ParseElements(c, q, depth + 1).rest);
    }
  }

  /** The value at the front of a list, and what stands behind it. */
  lemma {:induction false} ElementsForced(c: Codec, s: seq<byte>, m: seq<byte>, depth: nat)
    requires ParseElements(c, s, depth).Ok? && Pure(s) && Sparse(s, m)
    requires ParseElements(c, m, depth).Ok? && ParseElements(c, m, depth).value == ParseElements(c, s, depth).value
    ensures Forced(s, m, ParseElements(c, s, depth).rest, ParseElements(c, m, depth).rest)
    decreases |s|, 2
  {
    hide ParseValue, ParseElements, Sparse, Pure, Forced;
    ElementsOk(c, s, depth);
    ElementsOk(c, m, depth);
    var v, w := ParseValue(c, SkipWs(s), depth), ParseValue(c, SkipWs(m), depth);
    var r, q := SkipWs(v.rest), SkipWs(w.rest);
    SameHead(v.value, w.value, ParseElements(c, s, depth).value);
    SparseSkipWs(s, m);
    ForcedParts(s, m, SkipWs(s), SkipWs(m));
    ValueForced(c, SkipWs(s), SkipWs(m), depth);
    ForcedOn(s, m, SkipWs(s), SkipWs(m), v.rest, w.rest);
    BehindForced(s, m, v.rest, w.rest);
    if r[0] == COMMA {
      TailSame(v.value, ParseElements(c, r[1..], depth), ParseElements(c, q[1..], depth));
      ElementsForced(c, r[1..], q[1..], depth);
      ForcedOn(s, m, r[1..], q[1..], ParseElements(c, r[1..], depth).rest, ParseElements(c, q[1..], depth).rest);
    }
  }

  lemma SameHead<T>(x: T, y: T, vs: seq<T>)
    requires vs != [] && x == vs[0] && y == vs[0]
    ensures x == y
  {
  }

  lemma TailSame<T>(x: T, a: Parsed<seq<T>>, b: Parsed<seq<T>>)
    requires a.Ok? && b.Ok? && [x] + a.value == [x] + b.value
    ensures a.value == b.value
  {
    assert ([x] + a.value)[1..] == a.value && ([x] + b.value)[1..] == b.value;
  }

  /** A separator or closing mark behind a value and whitespace. */
  lemma BehindForced(s: seq<byte>, m: seq<byte>, v: seq<byte>, w: seq<byte>)
    requires Forced(s, m, v, w) && SkipWs(v) != [] && Ordinary(SkipWs(v)[0])
    ensures SkipWs(w) != [] && SkipWs(w)[0] == SkipWs(v)[0]
    ensures Forced(s, m, SkipWs(v)[1..], SkipWs(w)[1..]) && Sparse(SkipWs(v)[1..], SkipWs(w)[1..]) && Pure(SkipWs(v)[1..])
  {
    hide Sparse, Pure, Forced;
    var r, q := SkipWs(v), SkipWs(w);
    ForcedParts(s, m, v, w);
    SparseSkipWs(v, w);
    ForcedOn(s, m, v, w, r, q);
    ForcedParts(s, m, r, q);
    MarkForced(r, q);
    ForcedOn(s, m, r, q, r[1..], q[1..]);
    ForcedParts(s, m, r[1..], q[1..]);
  }

  lemma {:induction false} ObjectForced(c: Codec, s: seq<byte>, m: seq<byte>, depth: nat)
    requires s != [] && s[0] == LBRACE && ParseObject(c, s, depth).Ok? && Pure(s) && Sparse(s, m)
    requires ParseObject(c, m, depth).Ok? && ParseObject(c, m, depth).value == ParseObject(c, s, depth).value
    ensures Forced(s, m, ParseObject(c, s, depth).rest, ParseObject(c, m, depth).rest)
    decreases |s|, 0
  {
    hide ParseObject, ParseMembers, Sparse, Pure, Forced;
    MarkThenWs(s, m);
    var r, q := SkipWs(s[1..]), SkipWs(m[1..]);
    ForcedParts(s, m, r, q);
    SameNext(r, q);
    P.ObjectUnfold(c, s, depth);
    P.ObjectUnfold(c, m, depth);
    if r != [] && r[0] == RBRACE {
      MarkForced(r, q);
      ForcedOn(s, m, r, q, r[1..], q[1..]);
    } else {
      MembersForced(c, r, q, depth + 1);
      ForcedOn(s, m, r, q, ParseMembers(c, r, depth + 1).rest, ParseMembers(c, q, depth + 1).rest);
    }
  }

  lemma {:induction false} MemberForced(c: Codec, s: seq<byte>, m: seq<byte>, depth: nat)
    requires ParseMember(c, s, depth).Ok? && Pure(s) && Sparse(s, m) && Ends(ParseMember(c, s, depth).rest)
    requires ParseMember(c, m, depth).Ok? && ParseMember(c, m, depth).value == ParseMember(c, s, depth).value
    ensures Forced(s, m, ParseMember(c, s, depth).rest, ParseMember(c, m, depth).rest)
    decreases |s|, 2
  {
    hide ParseValue, ParseMember, ParseString, Sparse, Pure, Forced, Ends;
    P.MemberUnfold(c, s, depth);
    P.MemberUnfold(c, m, depth);
    var k, j := ParseString(SkipWs(s)), ParseString(SkipWs(m));
    KeyStart(SkipWs(s));
    SparseSkipWs(s, m);
    ForcedParts(s, m, SkipWs(s), SkipWs(m));
    StringForced(SkipWs(s), SkipWs(m));
    ForcedOn(s, m, SkipWs(s), SkipWs(m), k.rest, j.rest);
    BehindForced(s, m, k.rest, j.rest);
    var r, q := SkipWs(k.rest)[1..], SkipWs(j.rest)[1..];
    SparseSkipWs(r, q);
    ForcedOn(s, m, r, q, SkipWs(r), SkipWs(q));
    ForcedParts(s, m, SkipWs(r), SkipWs(q));
    ValueForced(c, SkipWs(r), SkipWs(q), depth);
    ForcedOn(s, m, SkipWs(r), SkipWs(q), ParseValue(c, SkipWs(r), depth).rest, ParseValue(c, SkipWs(q), depth).rest);
  }

  lemma {:induction false} MembersForced(c: Codec, s: seq<byte>, m: seq<byte>, depth: nat)
    requires ParseMembers(c, s, depth).Ok? && Pure(s) && Sparse(s, m)
    requires ParseMembers(c, m, depth).Ok? && ParseMembers(c, m, depth).value == ParseMembers(c, s, depth).value
    ensures Forced(s, m, ParseMembers(c, s, depth).rest, ParseMembers(c, m, depth).rest)
    decreases |s|, 3
  {
    hide ParseMember, ParseMembers, Sparse, Pure, Forced;
    MembersOk(c, s, depth);
    MembersOk(c, m, depth);
    var v, w := ParseMember(c, s, depth), ParseMember(c, m, depth);
    var r, q := SkipWs(v.rest), SkipWs(w.rest);
    SameHead(v.value, w.value, ParseMembers(c, s, depth).value);
    MemberForced(c, s, m, depth);
    BehindForced(s, m, v.rest, w.rest);
    if r[0] == COMMA {
      TailSame(v.value, ParseMembers(c, r[1..], depth), ParseMembers(c, q[1..], depth));
      MembersForced(c, r[1..], q[1..], depth);
      ForcedOn(s, m, r[1..], q[1..], ParseMembers(c, r[1..], depth).rest, ParseMembers(c, q[1..], depth).rest);
    }
  }

  // ---- whole texts ----

  lemma NothingThin()
    ensures Thinned([], [])
  {
  }

  /** A text accepted as a whole that reads the same without some of its blanks. */
  lemma SparseForced(c: Codec, s: seq<byte>, m: seq<byte>)
    requires Pure(s) && Sparse(s, m)
    requires ParseValue(c, SkipWs(s), 0).Ok? && SkipWs(ParseValue(c, SkipWs(s), 0).rest) == []
    requires ParseValue(c, SkipWs(m), 0).Ok? && SkipWs(ParseValue(c, SkipWs(m), 0).rest) == []
    requires ParseValue(c, SkipWs(m), 0).value == ParseValue(c, SkipWs(s), 0).value
    ensures Thinned(s, m)
  {
    hide ParseValue, Thinned, Pure, Sparse, Forced;
    SparseSkipWs(s, m);
    ForcedParts(s, m, SkipWs(s), SkipWs(m));
    ValueForced(c, SkipWs(s), SkipWs(m), 0);
    var v, w := ParseValue(c, SkipWs(s), 0), ParseValue(c, SkipWs(m), 0);
    ForcedOn(s, m, SkipWs(s), SkipWs(m), v.rest, w.rest);
    ForcedParts(s, m, v.rest, w.rest);
    SparseSkipWs(v.rest, w.rest);
    ForcedOn(s, m, v.rest, w.rest, [], []);
    NothingThin();
    ForcedThin(s, m, [], []);
  }

  lemma ForcedThin(s: seq<byte>, m: seq<byte>, r: seq<byte>, q: seq<byte>)
    requires Forced(s, m, r, q) && Thinned(r, q)
    ensures Thinned(s, m)
  {
  }

  // ---- which texts lose no byte of a literal ----

  /**
   No byte of a literal is dropped, told from the text alone. The first `left` bytes belong to a literal
   as the parser sees it, the first `copied` to a string as cJSON_Minify sees it.
   */
  predicate Spared(s: seq<byte>, left: nat, copied: nat)
    requires left <= |s| && copied <= |s|
    decreases |s|, left == 0, copied == 0
  {
    if s == [] then true
    else if left == 0 && (s[0] == SLASH || (s[0] == QUOTE && CloseAt(s[1..]).None?)) then true
    else if left == 0 && s[0] == QUOTE then Spared(s, CloseAt(s[1..]).value + 2, copied)
    else if copied == 0 && s[0] == QUOTE then Spared(s, left, 1 + StringLength(s[1..]))
    else
      && (left > 0 && copied == 0 ==> !Blank(s[0]) && s[0] != SLASH)
      && Spared(s[1..], if left > 0 then left - 1 else 0, if copied > 0 then copied - 1 else 0)
  }

  /** What is left of a text whose first bytes are being copied. */
  function MinBehind(s: seq<byte>, copied: nat): (r: seq<byte>)
    requires copied <= |s|
  {
    s[..copied] + Min(s[copied..])
  }

  /** The first bytes are kept, and behind them none inside a literal is dropped. */
  predicate ThinnedBehind(s: seq<byte>, m: seq<byte>, left: nat)
    requires left <= |s|
  {
    left <= |m| && m[..left] == s[..left] && Thinned(s[left..], m[left..])
  }

  lemma {:induction false} MinStart(s: seq<byte>)
    ensures Min(s) == [] || (!Blank(Min(s)[0]) && Min(s)[0] != SLASH)
    decreases |s|
  {
    hide StringLength, SkipLine, SkipBlock;
    if s != [] {
      if Blank(s[0]) {
        MinStart(s[1..]);
      } else if s[0] == SLASH {
        MinStart(s[1..]);
        if |s| > 1 && s[1] == SLASH {
          MinStart(SkipLine(s[2..]));
        } else if |s| > 1 && s[1] == STAR {
          MinStart(SkipBlock(s[2..]));
        }
      }
    }
  }

  lemma ThinnedQuote(s: seq<byte>, m: seq<byte>)
    requires s != [] && s[0] == QUOTE && CloseAt(s[1..]).Some? && Thinned(s, m)
    ensures m != [] && m[0] == QUOTE
  {
    hide CloseAt;
    var n := CloseAt(s[1..]).value + 2;
    assert m[..n][0] == s[..n][0];
  }

  /** A blank too many at the front is no loss. */
  lemma {:induction false} ThinnedDrop(s: seq<byte>, m: seq<byte>)
    requires m != [] && Blank(m[0]) && Thinned(s, m)
    ensures Thinned(s, m[1..])
    decreases |s|
  {
    hide CloseAt;
    if s == [] || s[0] == SLASH || (s[0] == QUOTE && CloseAt(s[1..]).None?) {
    } else if s[0] == QUOTE {
      ThinnedQuote(s, m);
    } else if Blank(s[0]) && Thinned(s[1..], m) {
      ThinnedDrop(s[1..], m);
    }
  }

  lemma ThinnedNext(s: seq<byte>, m: seq<byte>)
    requires s != [] && m != [] && m[0] == s[0] && s[0] != SLASH && s[0] != QUOTE
    ensures Thinned(s, m) <==> Thinned(s[1..], m[1..])
  {
    if Thinned(s, m) && Blank(s[0]) && Thinned(s[1..], m) {
      ThinnedDrop(s[1..], m);
    }
  }

  lemma ThinnedBlank(s: seq<byte>, m: seq<byte>)
    requires s != [] && Blank(s[0]) && (m == [] || !Blank(m[0]))
    ensures Thinned(s, m) <==> Thinned(s[1..], m)
  {
  }

  lemma BehindNext(s: seq<byte>, m: seq<byte>, left: nat)
    requires 0 < left <= |s| && m != [] && m[0] == s[0]
    ensures ThinnedBehind(s, m, left) <==> ThinnedBehind(s[1..], m[1..], left - 1)
  {
    hide Thinned;
    assert s[1..][left - 1..] == s[left..];
    if left <= |m| {
      assert m[1..][left - 1..] == m[left..];
      assert s[..left] == [s[0]] + s[1..][..left - 1] && m[..left] == [m[0]] + m[1..][..left - 1];
      assert s[..left][1..] == s[1..][..left - 1] && m[..left][1..] == m[1..][..left - 1];
    }
  }

  lemma BehindNone(s: seq<byte>, m: seq<byte>)
    ensures ThinnedBehind(s, m, 0) <==> Thinned(s, m)
  {
    assert s[0..] == s && m[0..] == m && s[..0] == m[..0];
  }

  lemma ThinnedOpens(s: seq<byte>, m: seq<byte>)
    requires s != [] && s[0] == QUOTE && CloseAt(s[1..]).Some?
    ensures Thinned(s, m) <==> ThinnedBehind(s, m, CloseAt(s[1..]).value + 2)
  {
    hide CloseAt;
  }

  lemma BehindFirst(s: seq<byte>, m: seq<byte>, left: nat)
    requires 0 < left <= |s| && ThinnedBehind(s, m, left)
    ensures m != [] && m[0] == s[0]
  {
    hide Thinned;
    assert m[..left][0] == s[..left][0];
  }

  lemma CopiedNext(s: seq<byte>, copied: nat)
    requires 0 < copied <= |s|
    ensures var m := MinBehind(s, copied); m != [] && m[0] == s[0] && m[1..] == MinBehind(s[1..], copied - 1)
  {
    hide Min;
    assert s[..copied] == [s[0]] + s[1..][..copied - 1] && s[1..][copied - 1..] == s[copied..];
  }

  lemma CopiedNone(s: seq<byte>)
    ensures MinBehind(s, 0) == Min(s)
  {
    hide Min;
    assert s[0..] == s && s[..0] == [];
  }

  lemma MinCases(s: seq<byte>)
    requires s != [] && s[0] != SLASH
    ensures Blank(s[0]) ==> Min(s) == Min(s[1..])
    ensures s[0] == QUOTE ==> Min(s) == MinBehind(s, 1 + StringLength(s[1..]))
    ensures Ordinary(s[0]) ==> Min(s) != [] && Min(s)[0] == s[0] && Min(s)[1..] == Min(s[1..])
  {
    hide StringLength;
  }

  lemma {:induction false} SparedExactly(s: seq<byte>, left: nat, copied: nat)
    requires left <= |s| && copied <= |s|
    ensures Spared(s, left, copied) <==> ThinnedBehind(s, MinBehind(s, copied), left)
    decreases |s|, 1, left == 0, copied == 0
  {
    hide Min, Thinned, ThinnedBehind, MinBehind, CloseAt, StringLength;
    var m := MinBehind(s, copied);
    if left == 0 {
      BehindNone(s, m);
    }
    if s == [] {
      SparedNothing();
    } else if left == 0 && (s[0] == SLASH || (s[0] == QUOTE && CloseAt(s[1..]).None?)) {
      ThinnedStops(s, m);
    } else if left == 0 && s[0] == QUOTE {
      ThinnedOpens(s, m);
      SparedExactly(s, CloseAt(s[1..]).value + 2, copied);
    } else if copied == 0 && s[0] == QUOTE {
      CopiedNone(s);
      MinCases(s);
      SparedExactly(s, left, 1 + StringLength(s[1..]));
    } else if copied > 0 {
      CopiedNext(s, copied);
      SparedKept(s, m, left, copied);
    } else {
      CopiedNone(s);
      CopiedNone(s[1..]);
      MinStart(s);
      SparedLoose(s, left);
    }
  }

  /** The first byte is copied. */
  lemma {:induction false} SparedKept(s: seq<byte>, m: seq<byte>, left: nat, copied: nat)
    requires 0 < copied <= |s| && left <= |s| && !(left == 0 && (s[0] == SLASH || s[0] == QUOTE))
    requires m == MinBehind(s, copied) && m != [] && m[0] == s[0] && m[1..] == MinBehind(s[1..], copied - 1)
    ensures Spared(s, left, copied) <==> ThinnedBehind(s, m, left)
    decreases |s|, 0
  {
    hide Min, Thinned, ThinnedBehind, MinBehind, CloseAt, StringLength;
    if left > 0 {
      BehindNext(s, m, left);
      SparedExactly(s[1..], left - 1, copied - 1);
    } else {
      BehindNone(s, m);
      BehindNone(s[1..], m[1..]);
      ThinnedNext(s, m);
      SparedExactly(s[1..], 0, copied - 1);
    }
  }

  /** The first byte is not copied, so it is kept only if it is no blank and no slash. */
  lemma {:induction false} SparedLoose(s: seq<byte>, left: nat)
    requires s != [] && left <= |s| && s[0] != QUOTE && !(left == 0 && s[0] == SLASH)
    requires MinBehind(s, 0) == Min(s) && MinBehind(s[1..], 0) == Min(s[1..])
    requires Min(s) == [] || (!Blank(Min(s)[0]) && Min(s)[0] != SLASH)
    ensures Spared(s, left, 0) <==> ThinnedBehind(s, Min(s), left)
    decreases |s|, 0
  {
    hide Min, Thinned, ThinnedBehind, MinBehind, CloseAt, StringLength;
    var m := Min(s);
    if left > 0 && (Blank(s[0]) || s[0] == SLASH) {
      if ThinnedBehind(s, m, left) {
        BehindFirst(s, m, left);
      }
    } else {
      MinCases(s);
      SparedExactly(s[1..], if left > 0 then left - 1 else 0, 0);
      if left > 0 {
        BehindNext(s, m, left);
      } else {
        BehindNone(s, m);
        BehindNone(s[1..], Min(s[1..]));
        if Blank(s[0]) {
          ThinnedBlank(s, m);
        } else {
          ThinnedNext(s, m);
        }
      }
    }
  }

  lemma SparedNothing()
    ensures ThinnedBehind([], MinBehind([], 0), 0)
  {
  }

  lemma ThinnedStops(s: seq<byte>, m: seq<byte>)
    requires s != [] && (s[0] == SLASH || (s[0] == QUOTE && CloseAt(s[1..]).None?))
    ensures Thinned(s, m)
  {
  }

  /** The condition on the text that is minified and the one on what comes of it. */
  lemma ThinnedExactly(s: seq<byte>)
    ensures Thinned(s, Min(s)) <==> Spared(s, 0, 0)
  {
    hide Min, Thinned, ThinnedBehind, MinBehind, Spared;
    SparedExactly(s, 0, 0);
    CopiedNone(s);
    BehindNone(s, Min(s));
  }
}
