/** cJSON_Minify: removing whitespace and comments from a text, in place. */
module Minify {
  import opened Text
  import opened Literal
  import opened Numbers
  import opened Json
  import opened RoundTrip
  import RenderFacts
  import P = Parsing

  const STAR: byte := 42

  /** What remains after a line comment whose "//" has been passed. */
  function SkipLine(s: seq<byte>): (r: seq<byte>)
    ensures |r| <= |s|
  {
    if s == [] then [] else if s[0] == NEWLINE then s[1..] else SkipLine(s[1..])
  }

  /** What remains after a block comment whose opening has been passed. */
  function SkipBlock(s: seq<byte>): (r: seq<byte>)
    ensures |r| <= |s|
  {
    if s == [] then []
    else if s[0] == STAR && |s| > 1 && s[1] == SLASH then s[2..]
    else SkipBlock(s[1..])
  }

  /** How much minify_string copies after the opening quote. */
  function StringLength(s: seq<byte>): (n: nat)
    ensures n <= |s|
  {
    if s == [] then 0
    else if s[0] == QUOTE then 1
    else if s[0] == BACKSLASH && |s| > 1 && s[1] == QUOTE then 2 + StringLength(s[2..])
    else 1 + StringLength(s[1..])
  }

  predicate Blank(b: byte) {
    b == SPACE || b == TAB || b == 13 || b == NEWLINE
  }

  /** The text that cJSON_Minify leaves of a C string. */
  function Min(s: seq<byte>): (r: seq<byte>)
    ensures |r| <= |s|
    decreases |s|
  {
    if s == [] then []
    else if Blank(s[0]) then Min(s[1..])
    else if s[0] == SLASH then
      if |s| > 1 && s[1] == SLASH then Min(SkipLine(s[2..]))
      else if |s| > 1 && s[1] == STAR then Min(SkipBlock(s[2..]))
      else Min(s[1..])
    else if s[0] == QUOTE then
      var n := 1 + StringLength(s[1..]);
      s[..n] + Min(s[n..])
    else [s[0]] + Min(s[1..])
  }

  // ---- minifying twice ----

  /** The length of a copied string depends only on the copied bytes. */
  lemma {:induction false} CopiedLength(s: seq<byte>, after: seq<byte>)
    requires StringLength(s) < |s| || after == []
    ensures StringLength(s[..StringLength(s)] + after) == StringLength(s)
    decreases |s|
  {
    var n := StringLength(s);
    var t := s[..n] + after;
    if s == [] {
      assert t == [];
    } else if s[0] != QUOTE {
      assert t[0] == s[0];
      if s[0] == BACKSLASH && |s| > 1 && s[1] == QUOTE {
        CopiedLength(s[2..], after);
        assert t[1] == s[1] && t[2..] == s[2..][..n - 2] + after;
      } else {
        CopiedLength(s[1..], after);
        assert t[1..] == s[1..][..n - 1] + after;
        assert |t| > 1 ==> t[1] == s[1];
      }
    }
  }

  lemma MinCopied(s: seq<byte>, after: seq<byte>)
    requires s != [] && s[0] == QUOTE && (1 + StringLength(s[1..]) < |s| || after == [])
    ensures var n := 1 + StringLength(s[1..]);
            Min(s[..n] + after) == s[..n] + Min(after)
  {
    hide Min, StringLength;
    var n := 1 + StringLength(s[1..]);
    var t := s[..n] + after;
    CopiedLength(s[1..], after);
    TakenFront(s, n, after);
    MinString(t);
  }

  lemma TakenFront(s: seq<byte>, n: nat, after: seq<byte>)
    requires 1 <= n <= |s|
    ensures var t := s[..n] + after;
            t[0] == s[0] && t[1..] == s[1..][..n - 1] + after && t[..n] == s[..n] && t[n..] == after
  {
  }

  lemma {:induction false} MinString(t: seq<byte>)
    requires t != [] && t[0] == QUOTE
    ensures var n := 1 + StringLength(t[1..]);
            Min(t) == t[..n] + Min(t[n..])
  {
    hide StringLength, SkipLine, SkipBlock;
  }

  predicate Ordinary(b: byte) {
    !Blank(b) && b != SLASH && b != QUOTE
  }

  lemma MinOrdinary(b: byte, s: seq<byte>)
    requires Ordinary(b)
    ensures Min([b] + s) == [b] + Min(s)
  {
    Front(b, s);
  }

  /** Minifying twice is minifying once, whatever the text. */
  lemma {:induction false} MinTwice(s: seq<byte>)
    ensures Min(Min(s)) == Min(s)
    decreases |s|
  {
    hide SkipLine, SkipBlock, StringLength;
    if s == [] {
    } else if Blank(s[0]) {
      MinTwice(s[1..]);
    } else if s[0] == SLASH {
      if |s| > 1 && s[1] == SLASH {
        MinTwice(SkipLine(s[2..]));
      } else if |s| > 1 && s[1] == STAR {
        MinTwice(SkipBlock(s[2..]));
      } else {
        MinTwice(s[1..]);
      }
    } else if s[0] == QUOTE {
      var n := 1 + StringLength(s[1..]);
      MinTwice(s[n..]);
      MinCopied(s, Min(s[n..]));
    } else {
      MinTwice(s[1..]);
      MinOrdinary(s[0], Min(s[1..]));
    }
  }

  // ---- where a copied string ends ----

  /** minify_string stops at the literal's end unless the literal ends in an escaped backslash before more text. */
  lemma {:induction false} StopsAtClose(s: seq<byte>)
    requires CloseAt(s).Some?
    ensures var k := CloseAt(s).value;
            StringLength(s) == k + 1 <==> k == 0 || s[k - 1] != BACKSLASH || k + 1 == |s|
    decreases |s|
  {
    if s[0] == QUOTE {
    } else if s[0] != BACKSLASH {
      StopsAtClose(s[1..]);
    } else if s[1] == BACKSLASH && s[2] == QUOTE {
      assert s[2..][0] == QUOTE && s[1..][2..] == s[3..];
      NothingCopied(s[3..]);
    } else {
      StopsAtClose(s[2..]);
      assert s[1..][1..] == s[2..];
    }
  }

  lemma NothingCopied(s: seq<byte>)
    ensures StringLength(s) == 0 <==> s == []
  {
  }

  // ---- meaning ----

  /**
   `m` is `s` with nothing dropped but blanks outside literals. What follows a "/" outside literals or
   a quote that is never closed does not matter, since no parser gets there.
   */
  predicate Thinned(s: seq<byte>, m: seq<byte>)
    decreases |s|
  {
    if s == [] then m == []
    else if s[0] == SLASH || (s[0] == QUOTE && CloseAt(s[1..]).None?) then true
    else if s[0] == QUOTE then
      var n := CloseAt(s[1..]).value + 2;
      n <= |m| && m[..n] == s[..n] && Thinned(s[n..], m[n..])
    else (Blank(s[0]) && Thinned(s[1..], m)) || (m != [] && m[0] == s[0] && Thinned(s[1..], m[1..]))
  }

  /** No literal of the text ends in an escaped backslash, except at the very end of the text. */
  predicate Clean(s: seq<byte>)
    decreases |s|
  {
    if s == [] then true
    else if s[0] == QUOTE && CloseAt(s[1..]).Some? then
      var k := CloseAt(s[1..]).value;
      (k == 0 || s[k] != BACKSLASH || k + 2 == |s|) && Clean(s[k + 2..])
    else Clean(s[1..])
  }

  /** A clean text's first literal is copied to its end, and what follows is clean. */
  lemma CleanLiteral(s: seq<byte>)
    requires s != [] && s[0] == QUOTE && CloseAt(s[1..]).Some? && Clean(s)
    ensures StringLength(s[1..]) == CloseAt(s[1..]).value + 1 && CloseAt(s[1..]).value + 2 <= |s|
    ensures Clean(s[CloseAt(s[1..]).value + 2..])
  {
    hide CloseAt, StringLength;
    StopsAtClose(s[1..]);
  }

  /** Minifying a clean text drops nothing but blanks outside literals. */
  lemma {:induction false} CleanThinned(s: seq<byte>)
    requires Clean(s)
    ensures Thinned(s, Min(s))
    decreases |s|
  {
    hide SkipLine, SkipBlock, StringLength, CloseAt;
    if s != [] && s[0] != SLASH && !(s[0] == QUOTE && CloseAt(s[1..]).None?) {
      if s[0] == QUOTE {
        var n := CloseAt(s[1..]).value + 2;
        CleanLiteral(s);
        CleanThinned(s[n..]);
        TakenFront(s, n, Min(s[n..]));
      } else {
        CleanThinned(s[1..]);
        if !Blank(s[0]) {
          Front(s[0], Min(s[1..]));
        }
      }
    }
  }

  /** Dropping nothing is allowed. */
  lemma {:induction false} ThinnedSelf(s: seq<byte>)
    ensures Thinned(s, s)
    decreases |s|
  {
    hide CloseAt;
    if s != [] && s[0] != SLASH && !(s[0] == QUOTE && CloseAt(s[1..]).None?) {
      ThinnedSelf(s[if s[0] == QUOTE then CloseAt(s[1..]).value + 2 else 1..]);
    }
  }

  /** A text that opens a literal it does not close. */
  predicate Unclosed(s: seq<byte>) {
    s != [] && s[0] == QUOTE && CloseAt(s[1..]).None?
  }

  /** Where the parser may stand: at the end, or at a byte that is no comment and opens no unclosed literal. */
  predicate Sound(s: seq<byte>) {
    s == [] || (s[0] != SLASH && !Unclosed(s))
  }

  /** Whitespace may be skipped on both sides. */
  lemma {:induction false} ThinnedSkipWs(s: seq<byte>, m: seq<byte>)
    requires Thinned(s, m) && Sound(SkipWs(s))
    ensures Thinned(SkipWs(s), SkipWs(m))
    decreases |s|
  {
    hide CloseAt;
    if s != [] && s[0] <= 32 {
      if Blank(s[0]) && Thinned(s[1..], m) {
        ThinnedSkipWs(s[1..], m);
      } else {
        ThinnedSkipWs(s[1..], m[1..]);
      }
    } else if s != [] {
      ThinnedStart(s, m);
    }
  }

  lemma ThinnedStart(s: seq<byte>, m: seq<byte>)
    requires Thinned(s, m) && s != [] && s[0] > 32 && s[0] != SLASH && !Unclosed(s)
    ensures m != [] && m[0] == s[0] && SkipWs(m) == m
    ensures s[0] != QUOTE ==> Thinned(s[1..], m[1..])
  {
    hide CloseAt;
    if s[0] == QUOTE {
      var n := CloseAt(s[1..]).value + 2;
      assert m[..n][0] == s[..n][0];
    }
  }

  lemma {:induction false} ThinnedWord(w: seq<byte>, rest: seq<byte>, m: seq<byte>)
    requires Thinned(w + rest, m) && forall i :: 0 <= i < |w| ==> w[i] > 32 && Ordinary(w[i])
    ensures w <= m && Thinned(rest, m[|w|..])
  {
    hide Thinned;
    if w == [] {
      assert w + rest == rest && m[0..] == m;
    } else {
      assert (w + rest)[0] == w[0] && (w + rest)[1..] == w[1..] + rest;
      ThinnedStart(w + rest, m);
      ThinnedWord(w[1..], rest, m[1..]);
      assert m[1..][|w| - 1..] == m[|w|..];
    }
  }

  /** A text that starts, after whitespace, with something other than a comment. */
  predicate Proper(s: seq<byte>) {
    SkipWs(s) == [] || SkipWs(s)[0] != SLASH
  }

  lemma {:induction false} MinSkipWs(s: seq<byte>)
    requires Proper(s)
    ensures SkipWs(Min(s)) == Min(SkipWs(s))
    decreases |s|
  {
    hide SkipLine, SkipBlock, StringLength;
    if s != [] && s[0] <= 32 {
      MinSkipWs(s[1..]);
      if !Blank(s[0]) {
        Front(s[0], Min(s[1..]));
      }
    } else if s != [] {
      MinStart(s);
    }
  }

  lemma MinStart(s: seq<byte>)
    requires s != [] && s[0] > 32 && s[0] != SLASH
    ensures Min(s) != [] && Min(s)[0] == s[0]
  {
    hide SkipLine, SkipBlock, StringLength;
  }

  lemma {:induction false} MinWord(w: seq<byte>, s: seq<byte>)
    requires forall i :: 0 <= i < |w| ==> Ordinary(w[i])
    ensures Min(w + s) == w + Min(s)
  {
    hide Min;
    if w == [] {
      assert w + s == s && w + Min(s) == Min(s);
    } else {
      MinWord(w[1..], s);
      assert w + s == [w[0]] + (w[1..] + s);
      MinOrdinary(w[0], w[1..] + s);
      assert [w[0]] + (w[1..] + Min(s)) == w + Min(s);
    }
  }

  lemma NothingLeft()
    ensures Min([]) == []
  {
  }

  /** What a value may be followed by. */
  predicate Ends(s: seq<byte>) {
    var r := SkipWs(s);
    r == [] || r[0] == COMMA || r[0] == RBRACKET || r[0] == RBRACE
  }

  lemma ThinnedEnds(s: seq<byte>, m: seq<byte>)
    requires Ends(s) && Thinned(s, m)
    ensures EndsNumber(m) && EndsNumber(s)
  {
    hide Thinned, CloseAt;
    ThinnedSkipWs(s, m);
    if SkipWs(s) != [] {
      ThinnedStart(SkipWs(s), SkipWs(m));
    } else {
      NothingThinned(SkipWs(m));
    }
  }

  lemma NothingThinned(m: seq<byte>)
    requires Thinned([], m)
    ensures m == []
  {
  }

  /** A reading of the thinned text that agrees with the reading of the original. */
  predicate Kept<T(==)>(r: Parsed<T>, m: Parsed<T>) {
    r.Ok? && m.Ok? && m.value == r.value && Thinned(r.rest, m.rest)
  }

  lemma {:induction false} CloseAtTaken(s: seq<byte>, after: seq<byte>)
    requires CloseAt(s).Some?
    ensures CloseAt(s[..CloseAt(s).value + 1] + after) == CloseAt(s)
    decreases |s|
  {
    var k := CloseAt(s).value;
    var t := s[..k + 1] + after;
    assert t[0] == s[0];
    if s[0] != QUOTE {
      var n := if s[0] == BACKSLASH then 2 else 1;
      CloseAtTaken(s[n..], after);
      assert t[n..] == s[n..][..k + 1 - n] + after;
    }
  }

  lemma ParseStringTaken(s: seq<byte>, after: seq<byte>)
    requires ParseString(s).Ok?
    ensures var n := CloseAt(s[1..]).value + 2;
            && n <= |s| && ParseString(s).rest == s[n..]
            && ParseString(s[..n] + after) == Ok(ParseString(s).value, after)
  {
    hide CloseAt, Unescape;
    var k := CloseAt(s[1..]).value;
    var t := s[..k + 2] + after;
    CloseAtTaken(s[1..], after);
    TakenSlices(s, k + 2, after);
  }

  lemma TakenSlices(s: seq<byte>, n: nat, after: seq<byte>)
    requires 2 <= n <= |s|
    ensures var t := s[..n] + after;
            && t[0] == s[0] && t[1..] == s[1..][..n - 1] + after
            && t[1..n - 1] == s[1..n - 1] && t[n..] == after
  {
  }

  lemma StringKept(s: seq<byte>, m: seq<byte>)
    requires ParseString(s).Ok? && Thinned(s, m)
    ensures Kept(ParseString(s), ParseString(m))
    ensures m != [] && m[0] == QUOTE
  {
    hide CloseAt, ParseString;
    StringOpens(s);
    var n := CloseAt(s[1..]).value + 2;
    ParseStringTaken(s, m[n..]);
    assert m == s[..n] + m[n..] && m[0] == s[..n][0];
  }

  lemma StringOpens(s: seq<byte>)
    requires ParseString(s).Ok?
    ensures s != [] && s[0] == QUOTE && CloseAt(s[1..]).Some?
  {
    hide CloseAt, Unescape;
  }

  lemma NumberKept(c: Codec, s: seq<byte>, m: seq<byte>)
    requires s != [] && (s[0] == MINUS || IsDigit(s[0]))
    requires ParseNumber(c, s).Ok? && Thinned(s, m) && Ends(ParseNumber(c, s).rest)
    ensures Kept(ParseNumber(c, s), ParseNumber(c, m))
  {
    hide Thinned, Ends, ParseNumber, Strtod;
    var run := NumberRun(s, NUMBER_ROOM);
    NumberEnds(c, s);
    assert s == run + s[|run|..];
    RunKept(c, run, s[|run|..], m);
  }

  lemma RunKept(c: Codec, run: seq<byte>, rest: seq<byte>, m: seq<byte>)
    requires run != [] && |run| <= NUMBER_ROOM && forall i :: 0 <= i < |run| ==> NumberByte(run[i])
    requires Strtod(c, run).Some? && Strtod(c, run).value.1 == |run| && Ends(rest) && Thinned(run + rest, m)
    ensures Kept(ParseNumber(c, run + rest), ParseNumber(c, m))
  {
    hide Thinned, Ends, ParseNumber, Strtod;
    ThinnedWord(run, rest, m);
    var after := m[|run|..];
    ThinnedEnds(rest, after);
    ParseRun(c, run, rest);
    ParseRun(c, run, after);
    assert m == run + after;
  }

  lemma NumberByteEndsNothing(s: seq<byte>)
    requires s != [] && NumberByte(s[0])
    ensures !Ends(s)
  {
  }

  /** A number before something that ends it is used to its last byte. */
  lemma NumberEnds(c: Codec, s: seq<byte>)
    requires s != [] && (s[0] == MINUS || IsDigit(s[0])) && ParseNumber(c, s).Ok? && Ends(ParseNumber(c, s).rest)
    ensures var run := NumberRun(s, NUMBER_ROOM);
            && run != [] && Strtod(c, run).Some? && Strtod(c, run).value.1 == |run| && ParseNumber(c, s).rest == s[|run|..]
  {
    hide Ends, NumberRun, Strtod;
    var run := NumberRun(s, NUMBER_ROOM);
    var used := Strtod(c, run).value.1;
    if used < |run| {
      NumberByteEndsNothing(s[used..]);
    }
  }

  lemma ParseRun(c: Codec, run: seq<byte>, after: seq<byte>)
    requires run != [] && |run| <= NUMBER_ROOM && forall i :: 0 <= i < |run| ==> NumberByte(run[i])
    requires Strtod(c, run).Some? && Strtod(c, run).value.1 == |run| && EndsNumber(after)
    ensures ParseNumber(c, run + after) == Ok(Number(Strtod(c, run).value.0), after)
  {
    hide NumberRun, Strtod;
    NumberRunExact(run, after, NUMBER_ROOM);
  }

  lemma DispatchNumber(c: Codec, s: seq<byte>, depth: nat)
    requires s != [] && (s[0] == MINUS || IsDigit(s[0]))
    ensures ParseValue(c, s, depth) == ParseNumber(c, s)
  {
  }

  lemma WordKept(c: Codec, w: cstring, s: seq<byte>, m: seq<byte>, depth: nat)
    requires w == NULL_WORD || w == FALSE_WORD || w == TRUE_WORD
    requires w <= s && Thinned(s, m)
    ensures Kept(ParseValue(c, s, depth), ParseValue(c, m, depth))
  {
    hide Thinned, ParseValue;
    var rest := s[|w|..];
    assert s == w + rest;
    ThinnedWord(w, rest, m);
    assert m == w + m[|w|..];
    ParseWord(c, w, rest, depth);
    ParseWord(c, w, m[|w|..], depth);
  }

  /** The first byte of a value decides what it is. */
  lemma ValueStart(c: Codec, s: seq<byte>, depth: nat)
    requires ParseValue(c, s, depth).Ok?
    ensures s != [] && s[0] > 32 && s[0] < 128 && s[0] != SLASH && s[0] != RBRACKET && s[0] != RBRACE && !Unclosed(s)
    ensures NULL_WORD <= s || FALSE_WORD <= s || TRUE_WORD <= s || s[0] == QUOTE || s[0] == MINUS || IsDigit(s[0])
         || s[0] == LBRACKET || s[0] == LBRACE
  {
    hide ParseNumber, ParseArray, ParseObject, CloseAt, Unescape;
  }

  /** A value, followed by what may follow one. */
  lemma {:induction false} ValueKept(c: Codec, s: seq<byte>, m: seq<byte>, depth: nat)
    requires ParseValue(c, s, depth).Ok? && Thinned(s, m) && Ends(ParseValue(c, s, depth).rest)
    ensures Kept(ParseValue(c, s, depth), ParseValue(c, m, depth))
    decreases |s|, 1
  {
    hide ParseValue, ParseString, ParseNumber, ParseArray, ParseObject, Thinned, Ends, Unclosed;
    ValueStart(c, s, depth);
    ThinnedStart(s, m);
    if NULL_WORD <= s {
      WordKept(c, NULL_WORD, s, m, depth);
    } else if FALSE_WORD <= s {
      WordKept(c, FALSE_WORD, s, m, depth);
    } else if TRUE_WORD <= s {
      WordKept(c, TRUE_WORD, s, m, depth);
    } else if s[0] == QUOTE {
      DispatchString(c, s, depth);
      StringKept(s, m);
      DispatchString(c, m, depth);
    } else if s[0] == LBRACKET {
      DispatchArray(c, s, depth);
      ArrayKept(c, s, m, depth);
      DispatchArray(c, m, depth);
    } else if s[0] == LBRACE {
      DispatchObject(c, s, depth);
      ObjectKept(c, s, m, depth);
      DispatchObject(c, m, depth);
    } else {
      DispatchNumber(c, s, depth);
      NumberKept(c, s, m);
      DispatchNumber(c, m, depth);
    }
  }

  /** An opening bracket or separator stays, and the whitespace after it is skipped either way. */
  lemma AfterMark(s: seq<byte>, m: seq<byte>)
    requires s != [] && s[0] > 32 && Ordinary(s[0]) && Thinned(s, m)
    ensures m != [] && m[0] == s[0] && Thinned(s[1..], m[1..])
    ensures Sound(SkipWs(s[1..])) ==> Thinned(SkipWs(s[1..]), SkipWs(m[1..]))
  {
    hide Thinned;
    ThinnedStart(s, m);
    if Sound(SkipWs(s[1..])) {
      ThinnedSkipWs(s[1..], m[1..]);
    }
  }

  lemma {:induction false} ArrayKept(c: Codec, s: seq<byte>, m: seq<byte>, depth: nat)
    requires s != [] && s[0] == LBRACKET && ParseArray(c, s, depth).Ok? && Thinned(s, m)
    ensures m != [] && m[0] == s[0] && Kept(ParseArray(c, s, depth), ParseArray(c, m, depth))
    decreases |s|, 0
  {
    hide ParseArray, ParseElements, Thinned;
    P.ArrayUnfold(c, s, depth);
    var r := SkipWs(s[1..]);
    AfterMark(s, m);
    P.ArrayUnfold(c, m, depth);
    if r != [] && r[0] == RBRACKET {
      AfterMark(r, SkipWs(m[1..]));
    } else {
      ElementsStart(c, r, depth + 1);
      SkipTwice(s[1..]);
      ThinnedStart(r, SkipWs(m[1..]));
      ElementsKept(c, r, SkipWs(m[1..]), depth + 1);
    }
  }

  lemma {:induction false} SkipTwice(s: seq<byte>)
    ensures SkipWs(SkipWs(s)) == SkipWs(s)
  {
    if s != [] && s[0] <= 32 {
      SkipTwice(s[1..]);
    }
  }

  lemma ElementsOk(c: Codec, s: seq<byte>, depth: nat)
    ensures var v := ParseValue(c, SkipWs(s), depth);
            var r := if v.Ok? then SkipWs(v.rest) else [];
            ParseElements(c, s, depth) ==
              (if r == [] then Fail
               else if r[0] == COMMA then Prepend(v.value, ParseElements(c, r[1..], depth))
               else if r[0] == RBRACKET then Ok([v.value], r[1..])
               else Fail)
  {
    hide ParseValue;
  }

  lemma ElementsStart(c: Codec, s: seq<byte>, depth: nat)
    requires ParseElements(c, s, depth).Ok?
    ensures SkipWs(s) != [] && SkipWs(s)[0] > 32 && Sound(SkipWs(s)) && SkipWs(s)[0] != RBRACKET
  {
    hide ParseValue, ParseElements, Unclosed;
    ElementsOk(c, s, depth);
    ValueStart(c, SkipWs(s), depth);
  }

  lemma {:induction false} ElementsKept(c: Codec, s: seq<byte>, m: seq<byte>, depth: nat)
    requires ParseElements(c, s, depth).Ok? && Thinned(s, m)
    ensures Kept(ParseElements(c, s, depth), ParseElements(c, m, depth))
    decreases |s|, 2
  {
    hide ParseValue, ParseElements, Thinned, CloseAt;
    ElementsOk(c, s, depth);
    ElementsStart(c, s, depth);
    ThinnedSkipWs(s, m);
    var v := ParseValue(c, SkipWs(s), depth);
    var r := SkipWs(v.rest);
    ValueKept(c, SkipWs(s), SkipWs(m), depth);
    var w := ParseValue(c, SkipWs(m), depth);
    ThinnedSkipWs(v.rest, w.rest);
    AfterMark(r, SkipWs(w.rest));
    ElementsOk(c, m, depth);
    if r[0] == COMMA {
      ElementsKept(c, r[1..], SkipWs(w.rest)[1..], depth);
    }
  }

  lemma {:induction false} ObjectKept(c: Codec, s: seq<byte>, m: seq<byte>, depth: nat)
    requires s != [] && s[0] == LBRACE && ParseObject(c, s, depth).Ok? && Thinned(s, m)
    ensures m != [] && m[0] == s[0] && Kept(ParseObject(c, s, depth), ParseObject(c, m, depth))
    decreases |s|, 0
  {
    hide ParseObject, ParseMembers, Thinned;
    P.ObjectUnfold(c, s, depth);
    var r := SkipWs(s[1..]);
    AfterMark(s, m);
    P.ObjectUnfold(c, m, depth);
    if r != [] && r[0] == RBRACE {
      AfterMark(r, SkipWs(m[1..]));
    } else {
      MembersStart(c, r, depth + 1);
      SkipTwice(s[1..]);
      ThinnedStart(r, SkipWs(m[1..]));
      MembersKept(c, r, SkipWs(m[1..]), depth + 1);
    }
  }

  lemma MembersOk(c: Codec, s: seq<byte>, depth: nat)
    ensures var m := ParseMember(c, s, depth);
            var r := if m.Ok? then SkipWs(m.rest) else [];
            ParseMembers(c, s, depth) ==
              (if r == [] then Fail
               else if r[0] == COMMA then Prepend(m.value, ParseMembers(c, r[1..], depth))
               else if r[0] == RBRACE then Ok([m.value], r[1..])
               else Fail)
  {
    hide ParseMember;
  }

  lemma MembersStart(c: Codec, s: seq<byte>, depth: nat)
    requires ParseMembers(c, s, depth).Ok?
    ensures SkipWs(s) != [] && ParseMember(c, s, depth).Ok? && SkipWs(s)[0] == QUOTE && Sound(SkipWs(s))
  {
    hide ParseMember, ParseMembers, ParseValue, ParseString, CloseAt;
    MembersOk(c, s, depth);
    P.MemberUnfold(c, s, depth);
    StringOpens(SkipWs(s));
  }

  lemma {:induction false} MemberKept(c: Codec, s: seq<byte>, m: seq<byte>, depth: nat)
    requires ParseMember(c, s, depth).Ok? && Thinned(s, m) && Ends(ParseMember(c, s, depth).rest)
    ensures Kept(ParseMember(c, s, depth), ParseMember(c, m, depth))
    decreases |s|, 2
  {
    hide ParseValue, ParseMember, ParseString, Thinned, Ends, CloseAt;
    P.MemberUnfold(c, s, depth);
    var k := ParseString(SkipWs(s));
    KeyStart(SkipWs(s));
    StringOpens(SkipWs(s));
    ThinnedSkipWs(s, m);
    StringKept(SkipWs(s), SkipWs(m));
    var j := ParseString(SkipWs(m));
    var r := SkipWs(k.rest);
    ThinnedSkipWs(k.rest, j.rest);
    ValueStart(c, SkipWs(r[1..]), depth);
    AfterMark(r, SkipWs(j.rest));
    ValueKept(c, SkipWs(r[1..]), SkipWs(SkipWs(j.rest)[1..]), depth);
    P.MemberUnfold(c, m, depth);
  }

  lemma KeyStart(s: seq<byte>)
    requires ParseString(s).Ok?
    ensures s != [] && s[0] == QUOTE && |ParseString(s).rest| < |s|
  {
  }

  lemma {:induction false} MembersKept(c: Codec, s: seq<byte>, m: seq<byte>, depth: nat)
    requires ParseMembers(c, s, depth).Ok? && Thinned(s, m)
    ensures Kept(ParseMembers(c, s, depth), ParseMembers(c, m, depth))
    decreases |s|, 3
  {
    hide ParseMember, ParseMembers, Thinned;
    MembersOk(c, s, depth);
    var v := ParseMember(c, s, depth);
    var r := SkipWs(v.rest);
    MemberKept(c, s, m, depth);
    var w := ParseMember(c, m, depth);
    ThinnedSkipWs(v.rest, w.rest);
    AfterMark(r, SkipWs(w.rest));
    MembersOk(c, m, depth);
    if r[0] == COMMA {
      MembersKept(c, r[1..], SkipWs(w.rest)[1..], depth);
    }
  }

  lemma BomKept(t: seq<byte>)
    requires SkipWs(SkipBom(t)) != [] && 32 < SkipWs(SkipBom(t))[0] < 128 && SkipWs(SkipBom(t))[0] != SLASH
    ensures SkipBom(Min(t)) == Min(SkipBom(t))
  {
    hide Min;
    var u := SkipBom(t);
    MinSkipWs(u);
    MinStart(SkipWs(u));
    SkipWsEmpty(Min(u));
    if u != t {
      assert t == BOM + u;
      MinWord(BOM, u);
      assert (BOM + Min(u))[3..] == Min(u);
    } else {
      FirstByte(Min(t));
    }
  }

  lemma SkipWsEmpty(s: seq<byte>)
    requires SkipWs(s) != []
    ensures s != []
  {
  }

  lemma FirstByte(s: seq<byte>)
    requires SkipWs(s) != [] && SkipWs(s)[0] < 128
    ensures s[0] < 128 && SkipBom(s) == s
  {
  }

  /** Dropping any blanks outside literals leaves an accepted text's meaning alone. */
  lemma ThinnedSame(c: Codec, s: seq<byte>, m: seq<byte>)
    requires ParseValue(c, SkipWs(s), 0).Ok? && SkipWs(ParseValue(c, SkipWs(s), 0).rest) == [] && Thinned(s, m)
    ensures ParseValue(c, SkipWs(m), 0).Ok? && SkipWs(ParseValue(c, SkipWs(m), 0).rest) == []
    ensures ParseValue(c, SkipWs(m), 0).value == ParseValue(c, SkipWs(s), 0).value
  {
    hide ParseValue, Thinned;
    ValueStart(c, SkipWs(s), 0);
    ThinnedSkipWs(s, m);
    ValueKept(c, SkipWs(s), SkipWs(m), 0);
    var v, w := ParseValue(c, SkipWs(s), 0), ParseValue(c, SkipWs(m), 0);
    ThinnedSkipWs(v.rest, w.rest);
    NothingThinned(SkipWs(w.rest));
  }

  /** A text accepted as a whole means the same after it is minified, if no byte inside a literal is dropped. */
  lemma MinifyKeepsMeaning(c: Codec, t: seq<byte>)
    requires ParseText(c, t, true).Ok? && Thinned(SkipBom(t), Min(SkipBom(t)))
    ensures ParseText(c, Min(t), true) == ParseText(c, t, true)
  {
    hide ParseValue, Min, Thinned;
    ValueStart(c, SkipWs(SkipBom(t)), 0);
    BomKept(t);
    ThinnedSame(c, SkipBom(t), Min(SkipBom(t)));
  }

  /** So it does if its literals are clean, which can be told from the text alone. */
  lemma MinifyKeepsClean(c: Codec, t: seq<byte>)
    requires ParseText(c, t, true).Ok? && Clean(SkipBom(t))
    ensures ParseText(c, Min(t), true) == ParseText(c, t, true)
  {
    hide ParseText, Min, Thinned, Clean;
    CleanThinned(SkipBom(t));
    MinifyKeepsMeaning(c, t);
  }

  /** The tree of two strings, the first a lone backslash. */
  function Pair(second: cstring): (v: Item) {
    Array([String(Some([BACKSLASH])), String(Some(second))])
  }

  lemma {:induction false} EscapePlain(s: seq<byte>)
    requires forall i :: 0 <= i < |s| ==> s[i] >= 32 && s[i] != QUOTE && s[i] != BACKSLASH
    ensures Escape(s) == s
  {
    if s != [] {
      EscapePlain(s[1..]);
      assert EscapeByte(s[0]) == [s[0]];
    }
  }

  lemma PairShape(c: Codec, second: cstring)
    ensures Readable(c, Pair(second)) && Height(Pair(second)) == 1 && Normal(c, Pair(second)) == Pair(second)
  {
    var items := Pair(second).items;
    var rest := items[1..];
    assert rest == [String(Some(second))] && rest[1..] == [];
    NormalOne(c, String(Some(second)));
    assert ItemsHeight(items) == 0 && NormalItems(c, items) == items by {
      assert NormalItems(c, items) == [Normal(c, items[0])] + NormalItems(c, rest);
    }
  }

  lemma NormalOne(c: Codec, v: Item)
    requires v.String? && v.text.Some?
    ensures NormalItems(c, [v]) == [v] && ItemsHeight([v]) == 0
  {
    assert [v][1..] == [];
    assert NormalItems(c, []) == [] && ItemsHeight([]) == 0;
    assert NormalItems(c, [v]) == [Normal(c, v)] + NormalItems(c, [v][1..]);
  }

  lemma QuotedText(s: cstring, e: seq<byte>)
    requires Escape(s) == e
    ensures Quoted(Some(s)) == [34] + e + [34]
  {
  }

  lemma StringText(c: Codec, s: cstring)
    ensures Render(c, String(Some(s)), false, 1) == Quoted(Some(s))
  {
  }

  lemma PairText(c: Codec, second: cstring)
    requires forall i :: 0 <= i < |second| ==> second[i] >= 32 && second[i] != QUOTE && second[i] != BACKSLASH
    ensures Render(c, Pair(second), false, 0) == [91, 34, 92, 92, 34, 44, 34] + (second + [34, 93])
  {
    hide Render, RenderItems, Quoted, Escape;
    var items := Pair(second).items;
    RenderFacts.ArrayText(c, items, false, 0);
    assert items[0..] == items;
    RenderFacts.ItemsStep(c, items, 0, false, 1);
    RenderFacts.ItemsStep(c, items, 1, false, 1);
    RenderFacts.NoItems(c, items, false, 1);
    StringText(c, [BACKSLASH]);
    StringText(c, second);
    EscapePlain(second);
    EscapedBackslash();
    QuotedText([BACKSLASH], [92, 92]);
    QuotedText(second, second);
    assert RenderItems(c, items, false, 1) == [34, 92, 92, 34] + [44] + ([34] + second + [34]);
  }

  lemma EscapedBackslash()
    ensures Escape([BACKSLASH]) == [92, 92]
  {
    assert Escape([BACKSLASH][1..]) == [];
  }

  /** minify_string takes the next literal's opening quote for the end of this one. */
  lemma WrongEnd()
    ensures StringLength([92, 92, 34, 44, 34, 97, 32, 98, 34, 93]) == 5
  {
    var s: seq<byte> := [92, 92, 34, 44, 34, 97, 32, 98, 34, 93];
    assert StringLength(s[4..]) == 1;
    assert StringLength(s[3..]) == 2;
    assert StringLength(s[1..]) == 4 by {
      assert s[1..][2..] == s[3..];
    }
  }

  lemma LostBlank()
    ensures Min([91, 34, 92, 92, 34, 44, 34] + ([97, 32, 98] + [34, 93])) == [91, 34, 92, 92, 34, 44, 34] + ([97, 98] + [34, 93])
  {
    hide Min, StringLength;
    var literal: seq<byte> := [34, 92, 92, 34, 44, 34, 97, 32, 98, 34, 93];
    WrongEnd();
    MinString(literal);
    assert literal[1..] == [92, 92, 34, 44, 34, 97, 32, 98, 34, 93];
    LastString();
    assert literal[6..] == [97] + ([32] + ([98] + [34, 93]));
    MinOrdinary(97, [32] + ([98] + [34, 93]));
    MinBlank(32, [98] + [34, 93]);
    MinOrdinary(98, [34, 93]);
    assert [91, 34, 92, 92, 34, 44, 34] + ([97, 32, 98] + [34, 93]) == [91] + literal;
    MinOrdinary(91, literal);
  }

  lemma MinBlank(b: byte, s: seq<byte>)
    requires Blank(b)
    ensures Min([b] + s) == Min(s)
  {
    Front(b, s);
  }

  lemma LastString()
    ensures Min([34, 93]) == [34, 93]
  {
    var s: seq<byte> := [34, 93];
    assert StringLength(s[1..]) == 1;
    assert s[2..] == [];
  }

  /** The exception is real: after a literal that ends in an escaped backslash, a blank inside the next one is lost. */
  lemma MinifyChangesMeaning(c: Codec)
    ensures ParseText(c, Render(c, Pair([97, 32, 98]), false, 0), true) == Ok(Pair([97, 32, 98]), [])
    ensures ParseText(c, Min(Render(c, Pair([97, 32, 98]), false, 0)), true) == Ok(Pair([97, 98]), [])
  {
    hide ParseText, Min, Pair, Render;
    PairShape(c, [97, 32, 98]);
    PairShape(c, [97, 98]);
    PairText(c, [97, 32, 98]);
    PairText(c, [97, 98]);
    LostBlank();
    PrintThenParse(c, Pair([97, 32, 98]), false, true);
    PrintThenParse(c, Pair([97, 98]), false, true);
  }

  /** Not clean, and yet nothing is dropped: the condition on the dropped bytes is the weaker one. */
  lemma ThinnedNotClean(c: Codec)
    ensures var t := Render(c, Pair([97, 98]), false, 0);
            !Clean(t) && Thinned(t, Min(t)) && ParseText(c, Min(t), true) == Ok(Pair([97, 98]), [])
  {
    hide Thinned, Min, Pair, Render, ParseText, Clean;
    var t := Render(c, Pair([97, 98]), false, 0);
    PairText(c, [97, 98]);
    LostBlank();
    MinTwice([91, 34, 92, 92, 34, 44, 34] + ([97, 32, 98] + [34, 93]));
    ThinnedSelf(t);
    PairShape(c, [97, 98]);
    PrintThenParse(c, Pair([97, 98]), false, true);
    UncleanPair([97, 98] + [34, 93]);
  }

  lemma UncleanPair(rest: seq<byte>)
    requires rest != []
    ensures !Clean([91, 34, 92, 92, 34, 44, 34] + rest)
  {
    var t := [91, 34, 92, 92, 34, 44, 34] + rest;
    var s := t[1..];
    assert s[1..][2..] == t[4..] && t[4] == QUOTE;
    assert CloseAt(s[1..]) == Some(2);
  }
}
