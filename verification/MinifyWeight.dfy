/**
 When cJSON_Minify keeps the meaning of a text: exactly when it drops no byte of a literal. A text is
 weighed by the slashes and letters u that it decodes to. Its tree has the same weight, and every
 slash that is dropped makes the text lighter, whatever the bytes around the gap decode to then.
 */
module MinifyWeight {
  import opened Text
  import opened Literal
  import opened Numbers
  import opened Json
  import opened RoundTrip
  import opened Minify
  import opened MinifyExact
  import P = Parsing

  // ---- weights ----

  function Weight(b: int): (n: nat) {
    if b == SLASH then 2 else if b == LETTER_U then 1 else 0
  }

  function Sum(s: seq<byte>): (n: nat) {
    if s == [] then 0 else Weight(s[0]) + Sum(s[1..])
  }

  /** Whether a "u" and four digits are at the front. */
  predicate Unit4(s: seq<byte>) {
    |s| >= 5 && s[0] == LETTER_U && FourHex(s[1..5])
  }

  /** The weight of a text; `mid` says that a backslash precedes it. */
  function Load(s: seq<byte>, mid: bool): (n: nat)
    decreases |s|
  {
    if s == [] then 0
    else if !mid then
      if s[0] == BACKSLASH then Load(s[1..], true) else Weight(s[0]) + Load(s[1..], false)
    else if Unit4(s) then Weight(Hex4(s[1..5])) + Load(s[5..], false)
    else (if s[0] == SLASH then 2 else 0) + Load(s[1..], false)
  }

  /** What the escapes of an accepted text are like. */
  predicate Sane(s: seq<byte>, mid: bool)
    decreases |s|
  {
    if s == [] then true
    else if !mid then Sane(s[1..], s[0] == BACKSLASH)
    else if s[0] == LETTER_U then Unit4(s) && Sane(s[5..], false)
    else !Blank(s[0]) && s[0] != STAR && Sane(s[1..], false)
  }

  /** The weight of a tree, in which the words null and true have a "u" each. */
  function ItemWeight(v: Item): (n: nat)
    decreases v, 1
  {
    match v
    case Null => 1
    case True => 1
    case String(t) => if t.Some? then Sum(t.value) else 0
    case Array(items) => ItemsWeight(items)
    case Object(ms) => MembersWeight(ms)
    case _ => 0
  }

  function ItemsWeight(items: seq<Item>): (n: nat)
    decreases items, 0
  {
    if items == [] then 0 else ItemWeight(items[0]) + ItemsWeight(items[1..])
  }

  function MemberWeight(m: Member): (n: nat)
    decreases m, 2
  {
    (if m.key.Some? then Sum(m.key.value) else 0) + ItemWeight(m.value)
  }

  function MembersWeight(ms: seq<Member>): (n: nat)
    decreases ms, 0
  {
    if ms == [] then 0 else MemberWeight(ms[0]) + MembersWeight(ms[1..])
  }

  // ---- what minifying drops ----

  /** What remains after a slash and the comment that it may open. */
  function Skipped(s: seq<byte>): (r: seq<byte>)
    requires s != []
    ensures |r| < |s|
  {
    if |s| > 1 && s[1] == SLASH then SkipLine(s[2..])
    else if |s| > 1 && s[1] == STAR then SkipBlock(s[2..])
    else s[1..]
  }

  /** `m` is `s` with some blanks and some slashes dropped, slashes together with the comments they open. */
  predicate Cut(s: seq<byte>, m: seq<byte>)
    decreases |s|
  {
    if s == [] then m == []
    else
      || (m != [] && m[0] == s[0] && Cut(s[1..], m[1..]))
      || (Blank(s[0]) && Cut(s[1..], m))
      || (s[0] == SLASH && Cut(Skipped(s), m))
  }

  lemma {:induction false} CutBehind(p: seq<byte>, s: seq<byte>, m: seq<byte>)
    requires Cut(s, m)
    ensures Cut(p + s, p + m)
  {
    if p == [] {
      assert p + s == s && p + m == m;
    } else {
      CutBehind(p[1..], s, m);
      assert (p + s)[1..] == p[1..] + s && (p + m)[1..] == p[1..] + m;
    }
  }

  lemma {:induction false} MinCut(s: seq<byte>)
    ensures Cut(s, Min(s))
    decreases |s|
  {
    hide StringLength, SkipLine, SkipBlock;
    if s != [] {
      if Blank(s[0]) {
        MinCut(s[1..]);
      } else if s[0] == SLASH {
        MinCut(Skipped(s));
      } else if s[0] == QUOTE {
        var n := 1 + StringLength(s[1..]);
        MinCut(s[n..]);
        CutBehind(s[..n], s[n..], Min(s[n..]));
        assert s == s[..n] + s[n..];
      } else {
        MinCut(s[1..]);
        Front(s[0], Min(s[1..]));
      }
    }
  }

  lemma CutKept(s: seq<byte>, m: seq<byte>)
    requires Cut(s, m) && s != [] && !Blank(s[0]) && s[0] != SLASH
    ensures m != [] && m[0] == s[0] && Cut(s[1..], m[1..])
  {
  }

  lemma {:induction false} CutWord(w: seq<byte>, rest: seq<byte>, m: seq<byte>)
    requires Cut(w + rest, m) && forall i :: 0 <= i < |w| ==> !Blank(w[i]) && w[i] != SLASH
    ensures w <= m && Cut(rest, m[|w|..])
  {
    hide Cut;
    if w == [] {
      assert w + rest == rest && m[0..] == m;
    } else {
      assert (w + rest)[0] == w[0] && (w + rest)[1..] == w[1..] + rest;
      CutKept(w + rest, m);
      CutWord(w[1..], rest, m[1..]);
      assert m[1..][|w| - 1..] == m[|w|..];
    }
  }

  // ---- a dropped slash makes a text lighter ----

  lemma HexLight(d: seq<byte>)
    requires FourHex(d)
    ensures forall i :: 0 <= i < |d| ==> Weight(d[i]) == 0 && d[i] != BACKSLASH && !Blank(d[i]) && d[i] != SLASH && d[i] != STAR
  {
  }

  /** Bytes of no weight. */
  predicate Light(w: seq<byte>) {
    forall i :: 0 <= i < |w| ==> Weight(w[i]) == 0 && w[i] != BACKSLASH
  }

  lemma {:induction false} LightLoad(w: seq<byte>, rest: seq<byte>)
    requires Light(w)
    ensures Load(w + rest, false) == Load(rest, false) && Sane(w + rest, false) == Sane(rest, false)
  {
    if w == [] {
      assert w + rest == rest;
    } else {
      assert (w + rest)[0] == w[0] && (w + rest)[1..] == w[1..] + rest;
      LightLoad(w[1..], rest);
    }
  }

  lemma UnitParts(s: seq<byte>)
    requires Unit4(s)
    ensures s == [LETTER_U] + s[1..5] + s[5..] && Light(s[1..5])
    ensures forall i :: 0 <= i < 5 ==> !Blank(s[i]) && s[i] != SLASH && s[i] != STAR
    ensures Load(s, false) == 1 + Load(s[5..], false)
  {
    hide Load, Sane;
    var d := s[1..5];
    HexLight(d);
    assert forall i :: 1 <= i < 5 ==> s[i] == d[i - 1];
    assert s[1..] == d + s[5..];
    LightLoad(d, s[5..]);
    LoadStep(s);
  }

  lemma LoadStep(s: seq<byte>)
    requires s != [] && s[0] != BACKSLASH
    ensures Load(s, false) == Weight(s[0]) + Load(s[1..], false)
  {
  }

  /** What lies before the end of a comment weighs something or nothing. */
  lemma {:induction false} SkipLight(s: seq<byte>, mid: bool)
    requires Sane(s, mid)
    ensures Load(SkipLine(s), false) <= Load(s, mid) && Sane(SkipLine(s), false)
    ensures Load(SkipBlock(s), false) <= Load(s, mid) && Sane(SkipBlock(s), false)
    decreases |s|
  {
    if s != [] {
      if mid && s[0] == LETTER_U {
        UnitParts(s);
        SkipOver(s[..5], s[5..]);
        assert s == s[..5] + s[5..];
        SkipLight(s[5..], false);
      } else {
        SkipLight(s[1..], !mid && s[0] == BACKSLASH);
        if s[0] == STAR && |s| > 1 && s[1] == SLASH {
          assert s[1..][1..] == s[2..];
        }
      }
    }
  }

  lemma {:induction false} SkipOver(p: seq<byte>, s: seq<byte>)
    requires forall i :: 0 <= i < |p| ==> !Blank(p[i]) && p[i] != STAR
    ensures SkipLine(p + s) == SkipLine(s) && SkipBlock(p + s) == SkipBlock(s)
  {
    if p == [] {
      assert p + s == s;
    } else {
      assert (p + s)[0] == p[0] && (p + s)[1..] == p[1..] + s;
      SkipOver(p[1..], s);
    }
  }

  lemma SkippedLight(s: seq<byte>, mid: bool)
    requires s != [] && s[0] == SLASH && Sane(s, mid)
    ensures Load(Skipped(s), false) + 2 <= Load(s, mid) && Sane(Skipped(s), false)
  {
    hide SkipLine, SkipBlock;
    if |s| > 1 && (s[1] == SLASH || s[1] == STAR) {
      assert s[1..][1..] == s[2..];
      SkipLight(s[2..], false);
    }
  }

  function Odd(x: bool, y: bool): (n: nat) {
    if x == y then 0 else 1
  }

  /** `m` weighs no more than `s`, and less unless nothing but blanks is missing. */
  predicate Lighter(s: seq<byte>, m: seq<byte>, x: bool, y: bool) {
    && Load(m, y) <= Load(s, x) + Odd(x, y)
    && (Sparse(s, m) || Load(m, y) < Load(s, x) + Odd(x, y))
  }

  lemma {:induction false} CutLighter(s: seq<byte>, m: seq<byte>, x: bool, y: bool)
    requires Cut(s, m) && Sane(s, x)
    ensures Lighter(s, m, x, y)
    decreases |s|
  {
    hide Cut, Sane, Load, Sparse, Skipped;
    if s == [] {
      CutNothing(m, x, y);
    } else if s[0] == SLASH && Cut(Skipped(s), m) {
      SkippedLight(s, x);
      CutLighter(Skipped(s), m, false, y);
    } else if Blank(s[0]) && Cut(s[1..], m) {
      BlankLight(s, x);
      CutLighter(s[1..], m, false, y);
      SparseBlank(s, m);
    } else {
      CutHead(s, m);
      if x && s[0] == LETTER_U {
        UnitLighter(s, m, y);
      } else {
        KeptLighter(s, m, x, y);
      }
    }
  }

  lemma CutNothing(m: seq<byte>, x: bool, y: bool)
    requires Cut([], m)
    ensures Lighter([], m, x, y)
  {
  }

  lemma BlankLight(s: seq<byte>, x: bool)
    requires s != [] && Blank(s[0]) && Sane(s, x)
    ensures !x && Sane(s[1..], false) && Load(s, x) == Load(s[1..], false)
  {
  }

  lemma SparseBlank(s: seq<byte>, m: seq<byte>)
    requires s != [] && Blank(s[0])
    ensures Sparse(s[1..], m) ==> Sparse(s, m)
  {
  }

  lemma SparseHead(s: seq<byte>, m: seq<byte>)
    requires s != [] && m != [] && m[0] == s[0]
    ensures Sparse(s[1..], m[1..]) ==> Sparse(s, m)
  {
  }

  lemma CutHead(s: seq<byte>, m: seq<byte>)
    requires s != [] && Cut(s, m) && !(s[0] == SLASH && Cut(Skipped(s), m)) && !(Blank(s[0]) && Cut(s[1..], m))
    ensures m != [] && m[0] == s[0] && Cut(s[1..], m[1..])
  {
  }

  /** The first byte is kept, and no code stands here in `s`. */
  lemma {:induction false} KeptLighter(s: seq<byte>, m: seq<byte>, x: bool, y: bool)
    requires s != [] && m != [] && m[0] == s[0] && Cut(s[1..], m[1..]) && Sane(s, x) && !(x && s[0] == LETTER_U)
    ensures Lighter(s, m, x, y)
    decreases |s|, 0
  {
    hide Cut, Sane, Load, Sparse;
    var x', y' := !x && s[0] == BACKSLASH, !y && s[0] == BACKSLASH;
    SaneStep(s, x);
    SparseHead(s, m);
    CutLighter(s[1..], m[1..], x', y');
    LoadHead(s, x);
    if y && Unit4(m) {
      UnitParts(m);
      UnitLoad(m);
      LoadStep(m);
      LoadStep(s);
    } else {
      LoadHead(m, y);
    }
  }

  lemma SaneStep(s: seq<byte>, x: bool)
    requires s != [] && Sane(s, x) && !(x && s[0] == LETTER_U)
    ensures Sane(s[1..], !x && s[0] == BACKSLASH)
  {
  }

  lemma LoadHead(s: seq<byte>, x: bool)
    requires s != [] && !(x && Unit4(s))
    ensures Load(s, x) == (if s[0] == SLASH then 2 else if s[0] == LETTER_U && !x then 1 else 0)
                        + Load(s[1..], !x && s[0] == BACKSLASH)
  {
  }

  lemma UnitLoad(s: seq<byte>)
    requires Unit4(s)
    ensures Load(s, true) == Weight(Hex4(s[1..5])) + Load(s[5..], false)
  {
  }

  lemma SaneUnit(s: seq<byte>)
    requires s != [] && Sane(s, true) && s[0] == LETTER_U
    ensures Unit4(s) && Sane(s[5..], false)
  {
  }

  lemma {:induction false} UnitLighter(s: seq<byte>, m: seq<byte>, y: bool)
    requires s != [] && s[0] == LETTER_U && Cut(s, m) && Sane(s, true)
    ensures Lighter(s, m, true, y)
    decreases |s|, 0
  {
    hide Cut, Sane, Load, Sparse;
    SaneUnit(s);
    UnitParts(s);
    var w, rest := s[..5], s[5..];
    assert s == w + rest;
    CutWord(w, rest, m);
    var q := m[5..];
    assert m == w + q && m[1..5] == w[1..5] == s[1..5];
    UnitParts(m);
    UnitLoad(s);
    UnitLoad(m);
    CutLighter(rest, q, false, false);
    if Sparse(rest, q) {
      SparseBehind(w, rest, q);
    }
  }

  // ---- the weight of a literal ----

  lemma {:induction false} SumSplit(a: seq<byte>, b: seq<byte>)
    ensures Sum(a + b) == Sum(a) + Sum(b)
  {
    if a == [] {
      assert a + b == b;
    } else {
      assert (a + b)[0] == a[0] && (a + b)[1..] == a[1..] + b;
      SumSplit(a[1..], b);
    }
  }

  lemma SumOne(b: byte)
    ensures Sum([b]) == Weight(b)
  {
    assert [b][1..] == [];
  }

  /** Beyond ASCII no byte of a code point weighs anything. */
  lemma Utf8Sum(cp: nat)
    requires cp < 0x110000
    ensures Sum(Utf8(cp)) == Weight(cp)
  {
    hide Sum;
    if cp < 0x80 {
      SumOne(cp);
    } else {
      HighSum(Utf8(cp));
    }
  }

  lemma {:induction false} HighSum(s: seq<byte>)
    requires forall i :: 0 <= i < |s| ==> s[i] >= 0x80
    ensures Sum(s) == 0
  {
    if s != [] {
      HighSum(s[1..]);
    }
  }

  /** A text and the same text behind something of weight `n`. */
  predicate Before(s: seq<byte>, rest: seq<byte>, n: nat) {
    Load(s, false) == n + Load(rest, false) && (Sane(rest, false) ==> Sane(s, false))
  }

  lemma CodeBefore(d: seq<byte>, rest: seq<byte>)
    requires FourHex(d)
    ensures Before([BACKSLASH, LETTER_U] + d + rest, rest, Weight(Hex4(d)))
  {
    var s := [BACKSLASH, LETTER_U] + d + rest;
    var u := s[1..];
    assert u[0] == LETTER_U && u[1..5] == d && u[5..] == rest;
    assert Unit4(u);
    UnitLoad(u);
  }

  lemma ShortBefore(l: byte, rest: seq<byte>)
    requires ShortMeaning(l).Some?
    ensures Before([BACKSLASH, l] + rest, rest, Weight(ShortMeaning(l).value))
  {
    var s := [BACKSLASH, l] + rest;
    assert s[1..][0] == l && s[1..][1..] == rest;
  }

  lemma PlainBefore(b: byte, rest: seq<byte>)
    requires b != BACKSLASH
    ensures Before([b] + rest, rest, Weight(b))
  {
    assert ([b] + rest)[1..] == rest;
  }

  lemma PieceBefore(p: Piece, rest: seq<byte>)
    requires ValidPiece(p) && !p.Broken? && !p.Hanging?
    ensures Before(Spell(p) + rest, rest, Sum(Meaning(p)))
  {
    hide Load, Sane, Sum, Utf8, Weight;
    match p
    case Plain(b) =>
      SumOne(b);
      PlainBefore(b, rest);
    case Short(l) =>
      SumOne(ShortMeaning(l).value);
      ShortBefore(l, rest);
    case Code(d) =>
      Utf8Sum(Hex4(d));
      CodeBefore(d, rest);
    case Pair(h, l) =>
      var tail := [BACKSLASH, LETTER_U] + l + rest;
      Utf8Sum(Combine(Hex4(h), Hex4(l)));
      CodeBefore(l, rest);
      CodeBefore(h, tail);
      PairSpelling(h, l, rest);
      SurrogatesLight(Hex4(h), Hex4(l));
  }

  lemma SurrogatesLight(h: nat, l: nat)
    requires HighSurrogate(h) && LowSurrogate(l)
    ensures Weight(h) == 0 && Weight(l) == 0 && Weight(Combine(h, l)) == 0
  {
  }

  lemma EscapeLight(u: seq<byte>)
    requires u != []
    ensures Load(u[1..], false) <= Load(u, true)
  {
    if Unit4(u) {
      hide Load;
      UnitParts(u);
      UnitLoad(u);
      LoadStep(u);
    }
  }

  /** Whatever a literal decodes to, what follows weighs no more than the whole. */
  lemma {:induction false} CloseLight(s: seq<byte>)
    requires CloseAt(s).Some?
    ensures Load(s[CloseAt(s).value + 1..], false) <= Load(s, false)
    decreases |s|
  {
    hide Load;
    var k := CloseAt(s).value;
    LoadHead(s, false);
    if s[0] == BACKSLASH {
      assert s[1..][1..] == s[2..];
      EscapeLight(s[1..]);
      CloseLight(s[2..]);
      assert s[2..][k - 1..] == s[k + 1..];
    } else if s[0] != QUOTE {
      CloseLight(s[1..]);
      assert s[1..][k..] == s[k + 1..];
    }
  }

  lemma ZeroCuts(a: seq<byte>, b: seq<byte>)
    requires a != [] && a[0] == 0
    ensures CString(a + b) == []
  {
  }

  lemma CStringNext(x: byte, s: seq<byte>)
    requires x != 0
    ensures CString([x] + s) == [x] + CString(s)
  {
    assert ([x] + s)[1..] == s;
  }

  lemma {:induction false} CStringJoin(a: seq<byte>, b: seq<byte>)
    requires NulFree(a)
    ensures CString(a + b) == a + CString(b)
  {
    hide CString;
    if a == [] {
      assert a + b == b && a + CString(b) == CString(b);
    } else {
      assert a + b == [a[0]] + (a[1..] + b);
      CStringJoin(a[1..], b);
      CStringNext(a[0], a[1..] + b);
      assert a + CString(b) == [a[0]] + (a[1..] + CString(b));
    }
  }

  lemma MeaningStart(p: Piece)
    requires ValidPiece(p)
    ensures Meaning(p) != [] && (NulFree(Meaning(p)) || Meaning(p)[0] == 0) && (p.Broken? ==> Meaning(p)[0] == 0)
  {
    if p.Code? && Hex4(p.digits) == 0 {
      Utf8Zero();
    }
  }

  lemma {:induction false} ClosedLoad(b: seq<byte>, rest: seq<byte>)
    requires Closed(b, rest)
    ensures Sum(CString(Unescape(b).value)) + Load(rest, false) <= Load(b + [QUOTE] + rest, false)
    ensures NulFree(Unescape(b).value) ==> Before(b + [QUOTE] + rest, rest, Sum(Unescape(b).value))
    decreases |b|
  {
    hide Closed, Load, Sane, Sum, Unescape, Spell, Meaning, CString, NulFree, Before;
    ClosedDecodes(b, rest);
    if b == [] {
      assert b + [QUOTE] + rest == [QUOTE] + rest;
      EmptyLoad(rest);
    } else {
      var p, tail := ClosedPiece(b, rest);
      MeaningStart(p);
      if Meaning(p)[0] == 0 {
        ZeroCuts(Meaning(p), Unescape(tail).value);
        ClosedLight(b, rest);
        NoNul(Meaning(p), Unescape(tail).value);
      } else {
        ClosedLoad(tail, rest);
        var after := tail + [QUOTE] + rest;
        Regrouped(Spell(p), tail, rest);
        PieceBefore(p, after);
        CStringJoin(Meaning(p), Unescape(tail).value);
        SumSplit(Meaning(p), CString(Unescape(tail).value));
        BeforeLoad(Spell(p) + after, after, Sum(Meaning(p)));
        if NulFree(Unescape(b).value) {
          NulFreeParts(Meaning(p), Unescape(tail).value);
          SumSplit(Meaning(p), Unescape(tail).value);
          BeforeOn(Spell(p) + after, after, rest, Sum(Meaning(p)), Sum(Unescape(tail).value));
        }
      }
    }
  }

  lemma ClosedDecodes(b: seq<byte>, rest: seq<byte>)
    requires Closed(b, rest)
    ensures Unescape(b).Some?
  {
  }

  lemma EmptyLoad(rest: seq<byte>)
    ensures Unescape([]) == Some([]) && CString([]) == [] && Sum([]) == 0
    ensures Load(rest, false) <= Load([QUOTE] + rest, false) && Before([QUOTE] + rest, rest, 0)
  {
    PlainBefore(QUOTE, rest);
  }

  lemma NoNul(a: seq<byte>, b: seq<byte>)
    requires a != [] && a[0] == 0
    ensures !NulFree(a + b) && Sum([]) == 0
  {
    assert (a + b)[0] == 0;
  }

  lemma ClosedLight(b: seq<byte>, rest: seq<byte>)
    requires Closed(b, rest)
    ensures Load(rest, false) <= Load(b + [QUOTE] + rest, false)
  {
    hide CloseAt, Unescape, Load;
    var s := b + [QUOTE] + rest;
    CloseLight(s);
    assert s[|b| + 1..] == rest;
  }

  lemma BeforeLoad(s: seq<byte>, r: seq<byte>, n: nat)
    requires Before(s, r, n)
    ensures Load(s, false) == n + Load(r, false)
  {
  }

  lemma BeforeOn(s: seq<byte>, r: seq<byte>, t: seq<byte>, n: nat, k: nat)
    requires Before(s, r, n) && Before(r, t, k)
    ensures Before(s, t, n + k)
  {
  }

  // ---- the weight of a value ----

  /** What is read between `s` and `rest` weighs no more than `n`, and exactly that if the literals have no NUL. */
  predicate Weighed(s: seq<byte>, rest: seq<byte>, n: nat) {
    && n + Load(rest, false) <= Load(s, false)
    && (Pure(s) ==> Pure(rest) && Before(s, rest, n))
  }

  lemma WeighedOn(s: seq<byte>, r: seq<byte>, t: seq<byte>, n: nat, k: nat)
    requires Weighed(s, r, n) && Weighed(r, t, k)
    ensures Weighed(s, t, n + k)
  {
    hide Load, Pure, Sane;
  }

  lemma MarkWeighed(s: seq<byte>)
    requires s != [] && Weight(s[0]) == 0 && s[0] != BACKSLASH && s[0] != QUOTE
    ensures Weighed(s, s[1..], 0)
  {
    PlainBefore(s[0], s[1..]);
    assert s == [s[0]] + s[1..];
  }

  lemma WeighedSelf(s: seq<byte>)
    ensures Weighed(s, s, 0)
  {
  }

  lemma {:induction false} WsWeighed(s: seq<byte>)
    ensures Weighed(s, SkipWs(s), 0)
  {
    hide Weighed;
    if s != [] && s[0] <= 32 {
      MarkOfNoWeight(s);
      WsWeighed(s[1..]);
      WeighedOn(s, s[1..], SkipWs(s[1..]), 0, 0);
    } else {
      WeighedSelf(s);
    }
  }

  lemma MarkOfNoWeight(s: seq<byte>)
    requires s != [] && s[0] <= 32
    ensures s[0] == QUOTE || Weighed(s, s[1..], 0)
    ensures s[0] != QUOTE
  {
    MarkWeighed(s);
  }

  lemma {:induction false} RunWeighed(w: seq<byte>, rest: seq<byte>)
    requires Light(w) && QUOTE !in w
    ensures Weighed(w + rest, rest, 0)
  {
    hide Weighed;
    if w == [] {
      assert w + rest == rest;
      WeighedSelf(rest);
    } else {
      var s := w + rest;
      assert s[0] == w[0] && s[1..] == w[1..] + rest;
      MarkWeighed(s);
      RunWeighed(w[1..], rest);
      WeighedOn(s, s[1..], rest, 0, 0);
    }
  }

  lemma LetterWeighed(rest: seq<byte>)
    ensures Weighed([LETTER_U] + rest, rest, 1)
  {
    var s := [LETTER_U] + rest;
    assert s[1..] == rest;
    PlainBefore(LETTER_U, rest);
  }

  lemma WordWeighed(a: seq<byte>, b: seq<byte>, rest: seq<byte>)
    requires Light(a) && Light(b) && QUOTE !in a && QUOTE !in b
    ensures Weighed(a + [LETTER_U] + b + rest, rest, 1)
  {
    hide Weighed, Light;
    RunWeighed(b, rest);
    LetterWeighed(b + rest);
    RunWeighed(a, [LETTER_U] + (b + rest));
    WeighedOn([LETTER_U] + (b + rest), b + rest, rest, 1, 0);
    WeighedOn(a + ([LETTER_U] + (b + rest)), [LETTER_U] + (b + rest), rest, 0, 1);
    assert a + [LETTER_U] + b + rest == a + ([LETTER_U] + (b + rest));
  }

  lemma ConstantWeighed(c: Codec, w: cstring, s: seq<byte>, depth: nat)
    requires (w == NULL_WORD || w == FALSE_WORD || w == TRUE_WORD) && w <= s
    ensures ParseValue(c, s, depth).Ok? && Weighed(s, ParseValue(c, s, depth).rest, ItemWeight(ParseValue(c, s, depth).value))
  {
    hide ParseValue, Weighed;
    var rest := s[|w|..];
    assert s == w + rest;
    ParseWord(c, w, rest, depth);
    if w == NULL_WORD {
      WordWeighed([110], [108, 108], rest);
      assert w == [110] + [LETTER_U] + [108, 108];
    } else if w == TRUE_WORD {
      WordWeighed([116, 114], [101], rest);
      assert w == [116, 114] + [LETTER_U] + [101];
    } else {
      RunWeighed(w, rest);
    }
  }

  lemma NumberWeighed(c: Codec, s: seq<byte>)
    requires ParseNumber(c, s).Ok?
    ensures Weighed(s, ParseNumber(c, s).rest, ItemWeight(ParseNumber(c, s).value))
  {
    hide Weighed, NumberRun, Strtod;
    var run := NumberRun(s, NUMBER_ROOM);
    var used := Strtod(c, run).value.1;
    var w := run[..used];
    assert w == s[..used] && s == w + s[used..];
    NumberLight(w);
    RunWeighed(w, s[used..]);
  }

  lemma NumberLight(w: seq<byte>)
    requires forall i :: 0 <= i < |w| ==> NumberByte(w[i])
    ensures Light(w) && QUOTE !in w
  {
  }

  lemma StringWeighed(s: seq<byte>)
    requires ParseString(s).Ok?
    ensures Weighed(s, ParseString(s).rest, Sum(ParseString(s).value))
  {
    hide ParseString, CloseAt, Unescape, CString, Load, Sane, Sum, Pure, Closed, NulFree;
    StringOpens(s);
    var k := CloseAt(s[1..]).value;
    ParsedLiteral(s);
    var b, rest := s[1..1 + k], s[k + 2..];
    LiteralClosed(s, k);
    ClosedLoad(b, rest);
    assert s == [QUOTE] + (b + [QUOTE] + rest);
    PlainBefore(QUOTE, b + [QUOTE] + rest);
    if Pure(s) {
      PureLiteral(s);
      WholeCString(Unescape(b).value);
      BeforeOn(s, b + [QUOTE] + rest, rest, 0, Sum(Unescape(b).value));
    }
  }

  lemma LiteralClosed(s: seq<byte>, k: nat)
    requires s != [] && CloseAt(s[1..]) == Some(k) && k + 2 <= |s| && Unescape(s[1..1 + k]).Some?
    ensures s[1..] == s[1..1 + k] + [QUOTE] + s[k + 2..] && Closed(s[1..1 + k], s[k + 2..])
  {
    hide CloseAt, Unescape;
    ClosingQuote(s[1..], k);
    assert s[1..][..k] == s[1..1 + k] && s[1..][k + 1..] == s[k + 2..];
  }

  lemma {:induction false} ValueWeighed(c: Codec, s: seq<byte>, depth: nat)
    requires ParseValue(c, s, depth).Ok?
    ensures Weighed(s, ParseValue(c, s, depth).rest, ItemWeight(ParseValue(c, s, depth).value))
    decreases |s|, 1
  {
    hide ParseValue, ParseString, ParseNumber, ParseArray, ParseObject, Weighed, Unclosed;
    ValueStart(c, s, depth);
    if NULL_WORD <= s {
      ConstantWeighed(c, NULL_WORD, s, depth);
    } else if FALSE_WORD <= s {
      ConstantWeighed(c, FALSE_WORD, s, depth);
    } else if TRUE_WORD <= s {
      ConstantWeighed(c, TRUE_WORD, s, depth);
    } else if s[0] == QUOTE {
      DispatchString(c, s, depth);
      StringWeighed(s);
    } else if s[0] == LBRACKET {
      DispatchArray(c, s, depth);
      ArrayWeighed(c, s, depth);
    } else if s[0] == LBRACE {
      DispatchObject(c, s, depth);
      ObjectWeighed(c, s, depth);
    } else {
      DispatchNumber(c, s, depth);
      NumberWeighed(c, s);
    }
  }

  /** A mark and the whitespace behind it. */
  lemma OpenWeighed(s: seq<byte>)
    requires s != [] && Weight(s[0]) == 0 && s[0] != BACKSLASH && s[0] != QUOTE
    ensures Weighed(s, SkipWs(s[1..]), 0)
  {
    hide Weighed;
    MarkWeighed(s);
    WsWeighed(s[1..]);
    WeighedOn(s, s[1..], SkipWs(s[1..]), 0, 0);
  }

  /** A separator or closing mark behind a value and whitespace. */
  lemma BehindWeighed(s: seq<byte>, v: seq<byte>, n: nat)
    requires Weighed(s, v, n) && SkipWs(v) != []
    requires var b := SkipWs(v)[0]; Weight(b) == 0 && b != BACKSLASH && b != QUOTE
    ensures Weighed(s, SkipWs(v)[1..], n)
  {
    hide Weighed;
    WsWeighed(v);
    WeighedOn(s, v, SkipWs(v), n, 0);
    MarkWeighed(SkipWs(v));
    WeighedOn(s, SkipWs(v), SkipWs(v)[1..], n, 0);
  }

  lemma {:induction false} ArrayWeighed(c: Codec, s: seq<byte>, depth: nat)
    requires s != [] && s[0] == LBRACKET && ParseArray(c, s, depth).Ok?
    ensures Weighed(s, ParseArray(c, s, depth).rest, ItemWeight(ParseArray(c, s, depth).value))
    decreases |s|, 0
  {
    hide ParseArray, ParseElements, Weighed;
    OpenWeighed(s);
    var r := SkipWs(s[1..]);
    P.ArrayUnfold(c, s, depth);
    if r != [] && r[0] == RBRACKET {
      MarkWeighed(r);
      WeighedOn(s, r, r[1..], 0, 0);
    } else {
      var e := ParseElements(c, r, depth + 1);
      ElementsWeighed(c, r, depth + 1);
      WeighedOn(s, r, e.rest, 0, ItemsWeight(e.value));
    }
  }

  lemma {:induction false} ElementsWeighed(c: Codec, s: seq<byte>, depth: nat)
    requires ParseElements(c, s, depth).Ok?
    ensures Weighed(s, ParseElements(c, s, depth).rest, ItemsWeight(ParseElements(c, s, depth).value))
    decreases |s|, 2
  {
    hide ParseValue, ParseElements, Weighed, ItemWeight, ItemsWeight;
    ElementsOk(c, s, depth);
    var v := ParseValue(c, SkipWs(s), depth);
    var r := SkipWs(v.rest);
    var n := ItemWeight(v.value);
    WsWeighed(s);
    ValueWeighed(c, SkipWs(s), depth);
    WeighedOn(s, SkipWs(s), v.rest, 0, n);
    BehindWeighed(s, v.rest, n);
    if r[0] == COMMA {
      var e := ParseElements(c, r[1..], depth);
      ElementsWeighed(c, r[1..], depth);
      WeighedOn(s, r[1..], e.rest, n, ItemsWeight(e.value));
      ItemsMore(v.value, e.value);
    } else {
      ItemsMore(v.value, []);
      assert [v.value] + [] == [v.value];
    }
  }

  lemma ItemsMore(v: Item, items: seq<Item>)
    ensures ItemsWeight([v] + items) == ItemWeight(v) + ItemsWeight(items) && ItemsWeight([]) == 0
  {
    assert ([v] + items)[1..] == items;
  }

  lemma {:induction false} ObjectWeighed(c: Codec, s: seq<byte>, depth: nat)
    requires s != [] && s[0] == LBRACE && ParseObject(c, s, depth).Ok?
    ensures Weighed(s, ParseObject(c, s, depth).rest, ItemWeight(ParseObject(c, s, depth).value))
    decreases |s|, 0
  {
    hide ParseObject, ParseMembers, Weighed;
    OpenWeighed(s);
    var r := SkipWs(s[1..]);
    P.ObjectUnfold(c, s, depth);
    if r != [] && r[0] == RBRACE {
      MarkWeighed(r);
      WeighedOn(s, r, r[1..], 0, 0);
    } else {
      var e := ParseMembers(c, r, depth + 1);
      MembersWeighed(c, r, depth + 1);
      WeighedOn(s, r, e.rest, 0, MembersWeight(e.value));
    }
  }

  lemma {:induction false} MemberWeighed(c: Codec, s: seq<byte>, depth: nat)
    requires ParseMember(c, s, depth).Ok?
    ensures Weighed(s, ParseMember(c, s, depth).rest, MemberWeight(ParseMember(c, s, depth).value))
    decreases |s|, 2
  {
    hide ParseValue, ParseMember, ParseString, Weighed, ItemWeight, Sum;
    P.MemberUnfold(c, s, depth);
    var k := ParseString(SkipWs(s));
    var n := Sum(k.value);
    KeyStart(SkipWs(s));
    WsWeighed(s);
    StringWeighed(SkipWs(s));
    WeighedOn(s, SkipWs(s), k.rest, 0, n);
    BehindWeighed(s, k.rest, n);
    var r := SkipWs(k.rest)[1..];
    WsWeighed(r);
    WeighedOn(s, r, SkipWs(r), n, 0);
    var v := ParseValue(c, SkipWs(r), depth);
    ValueWeighed(c, SkipWs(r), depth);
    WeighedOn(s, SkipWs(r), v.rest, n, ItemWeight(v.value));
  }

  lemma {:induction false} MembersWeighed(c: Codec, s: seq<byte>, depth: nat)
    requires ParseMembers(c, s, depth).Ok?
    ensures Weighed(s, ParseMembers(c, s, depth).rest, MembersWeight(ParseMembers(c, s, depth).value))
    decreases |s|, 3
  {
    hide ParseMember, ParseMembers, Weighed, MemberWeight, MembersWeight;
    MembersOk(c, s, depth);
    var v := ParseMember(c, s, depth);
    var r := SkipWs(v.rest);
    var n := MemberWeight(v.value);
    MemberWeighed(c, s, depth);
    BehindWeighed(s, v.rest, n);
    if r[0] == COMMA {
      var e := ParseMembers(c, r[1..], depth);
      MembersWeighed(c, r[1..], depth);
      WeighedOn(s, r[1..], e.rest, n, MembersWeight(e.value));
      MembersMore(v.value, e.value);
    } else {
      MembersMore(v.value, []);
      assert [v.value] + [] == [v.value];
    }
  }

  lemma MembersMore(m: Member, ms: seq<Member>)
    ensures MembersWeight([m] + ms) == MemberWeight(m) + MembersWeight(ms) && MembersWeight([]) == 0
  {
    assert ([m] + ms)[1..] == ms;
  }

  // ---- whole texts ----

  /** A whole text weighs at least what its tree does, and exactly that if its literals have no NUL. */
  lemma TextWeight(c: Codec, s: seq<byte>)
    requires ParseValue(c, SkipWs(s), 0).Ok? && SkipWs(ParseValue(c, SkipWs(s), 0).rest) == []
    ensures ItemWeight(ParseValue(c, SkipWs(s), 0).value) <= Load(s, false)
    ensures Pure(s) ==> Load(s, false) == ItemWeight(ParseValue(c, SkipWs(s), 0).value) && Sane(s, false)
  {
    hide ParseValue, Weighed, ItemWeight;
    var v := ParseValue(c, SkipWs(s), 0);
    var n := ItemWeight(v.value);
    WsWeighed(s);
    ValueWeighed(c, SkipWs(s), 0);
    WeighedOn(s, SkipWs(s), v.rest, 0, n);
    WsWeighed(v.rest);
    WeighedOn(s, v.rest, [], n, 0);
    WeighedWhole(s, n);
  }

  lemma WeighedWhole(s: seq<byte>, n: nat)
    requires Weighed(s, [], n)
    ensures n <= Load(s, false) && (Pure(s) ==> Load(s, false) == n && Sane(s, false))
  {
  }

  /** A text whose meaning survives minifying has lost nothing but blanks. */
  lemma NothingCut(c: Codec, s: seq<byte>)
    requires Pure(s) && ParseValue(c, SkipWs(s), 0).Ok? && SkipWs(ParseValue(c, SkipWs(s), 0).rest) == []
    requires var m := Min(s);
             && ParseValue(c, SkipWs(m), 0).Ok? && SkipWs(ParseValue(c, SkipWs(m), 0).rest) == []
             && ParseValue(c, SkipWs(m), 0).value == ParseValue(c, SkipWs(s), 0).value
    ensures Sparse(s, Min(s))
  {
    hide ParseValue, Min, Pure, Sparse, Load, Sane, Cut;
    TextWeight(c, s);
    TextWeight(c, Min(s));
    MinCut(s);
    CutLighter(s, Min(s), false, false);
  }

  /**
   An accepted text whose literals decode without a NUL means the same after it is minified exactly
   when no byte of a literal is dropped.
   */
  lemma MinifyExactly(c: Codec, t: seq<byte>)
    requires ParseText(c, t, true).Ok? && Pure(SkipBom(t))
    ensures ParseText(c, Min(t), true) == ParseText(c, t, true) <==> Spared(SkipBom(t), 0, 0)
  {
    hide ParseValue, Min, Thinned, Pure, Sparse, Spared;
    var s := SkipBom(t);
    ValueStart(c, SkipWs(s), 0);
    BomKept(t);
    ThinnedExactly(s);
    if Thinned(s, Min(s)) {
      MinifyKeepsMeaning(c, t);
    }
    if ParseText(c, Min(t), true) == ParseText(c, t, true) {
      NothingCut(c, s);
      SparseForced(c, s, Min(s));
    }
  }

  // ---- behind a NUL ----

  /** An array of two literals, the first of an escaped backslash, the second with the given body. */
  function TwoText(body: seq<byte>): (t: seq<byte>) {
    [LBRACKET] + ([QUOTE] + ([BACKSLASH, BACKSLASH] + [QUOTE] + ([COMMA] + SecondText(body))))
  }

  function SecondText(body: seq<byte>): (t: seq<byte>) {
    [QUOTE] + (body + [QUOTE] + [RBRACKET])
  }

  lemma BackslashClosed(q: seq<byte>)
    ensures Closed([BACKSLASH, BACKSLASH], q) && Unescape([BACKSLASH, BACKSLASH]) == Some([BACKSLASH])
  {
    hide CloseAt, Unescape;
    EscapeThen(BACKSLASH, [QUOTE] + q);
    CloseAtQuote(q);
    assert [BACKSLASH, BACKSLASH] + [QUOTE] + q == [BACKSLASH, BACKSLASH] + ([QUOTE] + q);
    EmptyLoad(q);
    PieceDecodes(Short(BACKSLASH), []);
    assert Spell(Short(BACKSLASH)) + [] == [BACKSLASH, BACKSLASH] && Meaning(Short(BACKSLASH)) + [] == [BACKSLASH];
  }

  lemma LiteralValue(c: Codec, b: seq<byte>, q: seq<byte>, depth: nat)
    requires Closed(b, q)
    ensures Unescape(b).Some?
    ensures ParseValue(c, SkipWs([QUOTE] + (b + [QUOTE] + q)), depth) == Ok(String(Some(CString(Unescape(b).value))), q)
  {
    hide ParseValue, ParseString, CString, Closed;
    var m := [QUOTE] + (b + [QUOTE] + q);
    assert m[0] == QUOTE && m[1..] == b + [QUOTE] + q && SkipWs(m) == m;
    ClosedDecodes(b, q);
    DispatchString(c, m, depth);
    LiteralRead(m, b, q);
  }

  lemma MarkNext(b: byte, s: seq<byte>)
    requires b > 32
    ensures SkipWs([b] + s) == [b] + s && ([b] + s)[1..] == s
  {
  }

  lemma TwoRead(c: Codec, body: seq<byte>)
    requires Closed(body, [RBRACKET])
    ensures Unescape(body).Some?
    ensures ParseText(c, TwoText(body), true) == Ok(Minify.Pair(CString(Unescape(body).value)), [])
  {
    hide ParseValue, ParseArray, ParseElements, CString, Closed, SkipWs, Unescape;
    var u := SecondText(body);
    var q := [COMMA] + u;
    var s := [QUOTE] + ([BACKSLASH, BACKSLASH] + [QUOTE] + q);
    var t := TwoText(body);
    BackslashClosed(q);
    LiteralValue(c, [BACKSLASH, BACKSLASH], q, 1);
    LiteralValue(c, body, [RBRACKET], 1);
    OneBackslash();
    MarkNext(COMMA, u);
    MarkNext(RBRACKET, []);
    assert [RBRACKET] + [] == [RBRACKET];
    ElementsOk(c, u, 1);
    ElementsOk(c, s, 1);
    MarkNext(QUOTE, [BACKSLASH, BACKSLASH] + [QUOTE] + q);
    MarkNext(LBRACKET, s);
    P.ArrayUnfold(c, t, 0);
    DispatchArray(c, t, 0);
    EmptyRest();
    var first, second := String(Some([BACKSLASH])), String(Some(CString(Unescape(body).value)));
    assert ParseElements(c, u, 1) == Ok([second], []);
    assert [first] + [second] == [first, second];
    assert t[0] == LBRACKET && SkipBom(t) == t;
  }

  lemma OneBackslash()
    ensures CString([BACKSLASH]) == [BACKSLASH]
  {
  }

  lemma EmptyRest()
    ensures SkipWs([]) == []
  {
  }

  /** The body of a literal that encodes a NUL, and the same with a blank behind it. */
  const NUL_BODY: seq<byte> := [BACKSLASH, LETTER_U, 48, 48, 48, 48]

  lemma NulClosed()
    ensures Closed(NUL_BODY, [RBRACKET]) && CString(Unescape(NUL_BODY).value) == []
    ensures Closed(NUL_BODY + [SPACE], [RBRACKET]) && CString(Unescape(NUL_BODY + [SPACE]).value) == []
  {
    hide CloseAt, Unescape, CString, Utf8, Hex4;
    var p := NulPiece();
    EmptyLoad([RBRACKET]);
    CloseAtQuote([RBRACKET]);
    assert [] + [QUOTE] + [RBRACKET] == [QUOTE] + [RBRACKET];
    NulBefore(p, [], []);
    assert NUL_BODY + [] == NUL_BODY;
    PieceDecodes(Plain(SPACE), []);
    PieceThen(Plain(SPACE), [QUOTE] + [RBRACKET]);
    assert Spell(Plain(SPACE)) + [] == [SPACE];
    assert [SPACE] + [QUOTE] + [RBRACKET] == Spell(Plain(SPACE)) + ([QUOTE] + [RBRACKET]);
    NulBefore(p, [SPACE], [SPACE]);
  }

  lemma NulPiece() returns (p: Piece)
    ensures p.Code? && ValidPiece(p) && Spell(p) == NUL_BODY && Meaning(p) == [0]
  {
    p := Code([48, 48, 48, 48]);
    assert HexValue(48) == 0;
    assert Hex4(p.digits) == 0;
    Utf8Zero();
  }

  lemma NulBefore(p: Piece, d: seq<byte>, bytes: seq<byte>)
    requires p.Code? && ValidPiece(p) && Spell(p) == NUL_BODY && Meaning(p) == [0]
    requires Unescape(d) == Some(bytes) && CloseAt(d + [QUOTE] + [RBRACKET]) == Some(|d|)
    ensures Closed(NUL_BODY + d, [RBRACKET]) && CString(Unescape(NUL_BODY + d).value) == []
  {
    hide CloseAt, Unescape, CString, Utf8, Hex4, Spell, Meaning;
    PieceDecodes(p, d);
    PieceThen(p, d + [QUOTE] + [RBRACKET]);
    Regrouped(NUL_BODY, d, [RBRACKET]);
    ZeroCuts([0], bytes);
  }

  lemma CopiedTooFar(x: seq<byte>)
    ensures StringLength([BACKSLASH, BACKSLASH, QUOTE, COMMA, QUOTE] + x) == 5
  {
    var s := [BACKSLASH, BACKSLASH, QUOTE, COMMA, QUOTE] + x;
    assert StringLength(s[4..]) == 1;
    assert StringLength(s[3..]) == 2;
    assert StringLength(s[1..]) == 4 by {
      assert s[1..][2..] == s[3..];
    }
  }

  lemma {:induction false} MinWord(w: seq<byte>, rest: seq<byte>)
    requires forall i :: 0 <= i < |w| ==> Ordinary(w[i])
    ensures Min(w + rest) == w + Min(rest)
  {
    hide Min;
    if w == [] {
      assert w + rest == rest;
    } else {
      MinWord(w[1..], rest);
      MinOrdinary(w[0], w[1..] + rest);
      assert w + rest == [w[0]] + (w[1..] + rest);
    }
  }

  lemma BlankBehindNulDropped()
    ensures Min(TwoText(NUL_BODY + [SPACE])) == TwoText(NUL_BODY)
  {
    hide Min, StringLength;
    var after: seq<byte> := [QUOTE, RBRACKET];
    var x := NUL_BODY + ([SPACE] + after);
    var head: seq<byte> := [BACKSLASH, BACKSLASH, QUOTE, COMMA, QUOTE];
    CopiedTooFar(x);
    MinString([QUOTE] + (head + x));
    assert ([QUOTE] + (head + x))[1..] == head + x;
    assert ([QUOTE] + (head + x))[6..] == x && ([QUOTE] + (head + x))[..6] == [QUOTE] + head;
    MinWord(NUL_BODY, [SPACE] + after);
    MinBlank(SPACE, after);
    LastString();
    MinOrdinary(LBRACKET, [QUOTE] + (head + x));
    assert TwoText(NUL_BODY + [SPACE]) == [LBRACKET] + ([QUOTE] + (head + x));
    assert TwoText(NUL_BODY) == [LBRACKET] + ([QUOTE] + head + (NUL_BODY + after));
  }

  lemma BlankMissed()
    ensures !Thinned(TwoText(NUL_BODY + [SPACE]), TwoText(NUL_BODY))
  {
    hide Thinned, CloseAt, Closed, Unescape, CString;
    var b, d := NUL_BODY + [SPACE], NUL_BODY;
    var t, m := TwoText(b), TwoText(d);
    var s, n := t[1..], m[1..];
    ThinnedNext(t, m);
    FirstLiteral(SecondText(b));
    ThinnedOpens(s, n);
    assert s[4..] == [COMMA] + SecondText(b) && n[4..] == [COMMA] + SecondText(d);
    ThinnedNext(s[4..], n[4..]);
    assert s[4..][1..] == SecondText(b) && n[4..][1..] == SecondText(d);
    NulClosed();
    SecondLiteral(b);
    ThinnedOpens(SecondText(b), SecondText(d));
    assert SecondText(b)[..9][7] == SPACE && SecondText(d)[7] == QUOTE;
  }

  lemma FirstLiteral(u: seq<byte>)
    ensures var s := [QUOTE] + ([BACKSLASH, BACKSLASH] + [QUOTE] + ([COMMA] + u)); CloseAt(s[1..]) == Some(2)
  {
    hide CloseAt, Closed;
    var s := [QUOTE] + ([BACKSLASH, BACKSLASH] + [QUOTE] + ([COMMA] + u));
    BackslashClosed([COMMA] + u);
    ClosedAt([BACKSLASH, BACKSLASH], [COMMA] + u);
    assert s[1..] == [BACKSLASH, BACKSLASH] + [QUOTE] + ([COMMA] + u);
  }

  lemma SecondLiteral(b: seq<byte>)
    requires Closed(b, [RBRACKET])
    ensures CloseAt(SecondText(b)[1..]) == Some(|b|)
  {
    hide CloseAt, Closed;
    ClosedAt(b, [RBRACKET]);
    assert SecondText(b)[1..] == b + [QUOTE] + [RBRACKET];
  }

  lemma ClosedAt(b: seq<byte>, q: seq<byte>)
    requires Closed(b, q)
    ensures CloseAt(b + [QUOTE] + q) == Some(|b|)
  {
  }

  /** With a NUL the converse fails: a blank behind it is dropped from the literal, and nobody sees it. */
  lemma NulHides(c: Codec)
    ensures var t := TwoText(NUL_BODY + [SPACE]);
            && ParseText(c, t, true) == Ok(Minify.Pair([]), []) && ParseText(c, Min(t), true) == Ok(Minify.Pair([]), [])
            && !Spared(SkipBom(t), 0, 0)
  {
    hide ParseText, Min, Thinned, Spared, Closed, Unescape, CString, Minify.Pair;
    var t := TwoText(NUL_BODY + [SPACE]);
    NulClosed();
    TwoRead(c, NUL_BODY);
    TwoRead(c, NUL_BODY + [SPACE]);
    BlankBehindNulDropped();
    BlankMissed();
    ThinnedExactly(t);
    assert t[0] == LBRACKET && SkipBom(t) == t;
  }
}
