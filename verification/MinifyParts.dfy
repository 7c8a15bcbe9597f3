/**
 What cJSON_Minify leaves of a text, byte by byte: the text falls apart into strings, comments and
 single bytes in just one way; strings are kept, comments go, and of the other bytes the four blanks
 and the slash go.
 */
module MinifyParts {
  import opened Text
  import opened Minify

  datatype Segment = Str(text: seq<byte>) | Comment(text: seq<byte>) | Single(b: byte)

  function SegmentText(g: Segment): (t: seq<byte>) {
    if g.Single? then [g.b] else g.text
  }

  /** A quote ends a string unless a backslash stands directly before it. */
  predicate EndQuote(w: seq<byte>, i: nat)
    requires 0 < i < |w|
  {
    w[i] == '\"' as int && w[i - 1] != '\\' as int
  }

  /** From a quote up to the first end quote, or to the end of the text if there is none. */
  predicate IsString(w: seq<byte>, rest: seq<byte>) {
    && w != [] && w[0] == '\"' as int
    && (forall i :: 0 < i < |w| - 1 ==> !EndQuote(w, i))
    && ((|w| > 1 && EndQuote(w, |w| - 1)) || rest == [])
  }

  /** From "//" to the end of the line or of the text. */
  predicate IsLineComment(w: seq<byte>, rest: seq<byte>) {
    && |w| >= 2 && w[0] == '/' as int && w[1] == '/' as int
    && (forall i :: 2 <= i < |w| - 1 ==> w[i] != '\n' as int)
    && ((|w| > 2 && w[|w| - 1] == '\n' as int) || rest == [])
  }

  predicate EndMark(w: seq<byte>, i: nat)
    requires 0 < i < |w|
  {
    w[i - 1] == '*' as int && w[i] == '/' as int
  }

  /** From the opening mark to the first closing mark behind it, or to the end of the text. */
  predicate IsBlockComment(w: seq<byte>, rest: seq<byte>) {
    && |w| >= 2 && w[0] == '/' as int && w[1] == '*' as int
    && (forall i :: 3 <= i < |w| - 1 ==> !EndMark(w, i))
    && ((|w| > 3 && EndMark(w, |w| - 1)) || rest == [])
  }

  /** Any other byte, also a slash that opens no comment. */
  predicate IsSingle(b: byte, rest: seq<byte>) {
    b != '\"' as int && (b == '/' as int && rest != [] ==> rest[0] != '/' as int && rest[0] != '*' as int)
  }

  predicate Stands(g: Segment, rest: seq<byte>) {
    match g
    case Str(w) => IsString(w, rest)
    case Comment(w) => IsLineComment(w, rest) || IsBlockComment(w, rest)
    case Single(b) => IsSingle(b, rest)
  }

  /** The segments are those of the text. */
  predicate Segmented(gs: seq<Segment>, s: seq<byte>) {
    if gs == [] then s == []
    else
      var w := SegmentText(gs[0]);
      w <= s && Stands(gs[0], s[|w|..]) && Segmented(gs[1..], s[|w|..])
  }

  function Left(g: Segment): (t: seq<byte>) {
    match g
    case Str(w) => w
    case Comment(_) => []
    case Single(b) => if b in {' ' as int, '\t' as int, '\r' as int, '\n' as int, '/' as int} then [] else [b]
  }

  function LeftAll(gs: seq<Segment>): (t: seq<byte>) {
    if gs == [] then [] else Left(gs[0]) + LeftAll(gs[1..])
  }

  // ---- the copier and the two comment skippers ----

  /** The string copier stops behind the first end quote; `p` is the byte before. */
  lemma {:induction false} CopierStops(p: byte, s: seq<byte>)
    requires p == BACKSLASH && s != [] ==> s[0] != QUOTE
    ensures var w, n := [p] + s, StringLength(s);
            && (forall i :: 0 < i < n ==> !EndQuote(w, i))
            && ((n > 0 && EndQuote(w, n)) || n == |s|)
    decreases |s|
  {
    var w, n := [p] + s, StringLength(s);
    if s == [] {
    } else if s[0] == QUOTE {
    } else if s[0] == BACKSLASH && |s| > 1 && s[1] == QUOTE {
      var v := [s[1]] + s[2..];
      CopierStops(s[1], s[2..]);
      assert forall i :: 0 <= i < |v| ==> v[i] == w[i + 2];
      forall i | 0 < i < n ensures !EndQuote(w, i) {
        if i > 2 {
          assert !EndQuote(v, i - 2);
        }
      }
      assert n > 2 ==> EndQuote(v, n - 2) == EndQuote(w, n);
    } else {
      var v := [s[0]] + s[1..];
      CopierStops(s[0], s[1..]);
      assert forall i :: 0 <= i < |v| ==> v[i] == w[i + 1];
      forall i | 0 < i < n ensures !EndQuote(w, i) {
        if i > 1 {
          assert !EndQuote(v, i - 1);
        }
      }
      assert n > 1 ==> EndQuote(v, n - 1) == EndQuote(w, n);
    }
  }

  lemma {:induction false} LineStops(s: seq<byte>)
    ensures var n := |s| - |SkipLine(s)|;
            && s[n..] == SkipLine(s) && (forall i :: 0 <= i < n - 1 ==> s[i] != NEWLINE)
            && ((n > 0 && s[n - 1] == NEWLINE) || n == |s|)
  {
    if s != [] && s[0] != NEWLINE {
      LineStops(s[1..]);
    }
  }

  lemma {:induction false} BlockStops(s: seq<byte>)
    ensures var n := |s| - |SkipBlock(s)|;
            && s[n..] == SkipBlock(s) && (forall i :: 0 < i < n - 1 ==> !EndMark(s, i))
            && ((n > 1 && EndMark(s, n - 1)) || n == |s|)
  {
    if s == [] {
    } else if s[0] == STAR && |s| > 1 && s[1] == SLASH {
    } else {
      BlockStops(s[1..]);
      var n := |s| - |SkipBlock(s)|;
      forall i | 0 < i < n - 1 ensures !EndMark(s, i) {
        if i > 1 {
          assert !EndMark(s[1..], i - 1);
        }
      }
    }
  }

  // ---- the segments of a text ----

  /** The first segment of a text, and what minifying makes of it. */
  lemma FirstSegment(s: seq<byte>) returns (g: Segment)
    requires s != []
    ensures var w := SegmentText(g);
            && w <= s && Stands(g, s[|w|..]) && 0 < |w| && Min(s) == Left(g) + Min(s[|w|..])
  {
    if s[0] == QUOTE {
      g := StringFirst(s);
    } else if s[0] == SLASH && |s| > 1 && s[1] == SLASH {
      g := LineFirst(s);
    } else if s[0] == SLASH && |s| > 1 && s[1] == STAR {
      g := BlockFirst(s);
    } else {
      g := Single(s[0]);
      assert [s[0]] <= s;
    }
  }

  lemma StringFirst(s: seq<byte>) returns (g: Segment)
    requires s != [] && s[0] == QUOTE
    ensures g.Str? && g.text <= s && IsString(g.text, s[|g.text|..]) && Min(s) == g.text + Min(s[|g.text|..])
  {
    hide Min, StringLength;
    var n := StringLength(s[1..]);
    CopierStops(s[0], s[1..]);
    assert [s[0]] + s[1..] == s;
    MinString(s);
    g := Str(s[..n + 1]);
    assert forall i :: 0 < i < n ==> EndQuote(g.text, i) == EndQuote(s, i);
    assert n > 0 ==> EndQuote(g.text, n) == EndQuote(s, n);
  }

  lemma LineFirst(s: seq<byte>) returns (g: Segment)
    requires |s| > 1 && s[0] == SLASH && s[1] == SLASH
    ensures g.Comment? && g.text <= s && IsLineComment(g.text, s[|g.text|..]) && Min(s) == Min(s[|g.text|..])
  {
    hide SkipLine;
    var n := |s| - |SkipLine(s[2..])|;
    LineStops(s[2..]);
    g := Comment(s[..n]);
    assert s[2..][n - 2..] == s[n..];
    assert forall i :: 2 <= i < n ==> s[i] == s[2..][i - 2];
  }

  lemma BlockFirst(s: seq<byte>) returns (g: Segment)
    requires |s| > 1 && s[0] == SLASH && s[1] == STAR
    ensures g.Comment? && g.text <= s && IsBlockComment(g.text, s[|g.text|..]) && Min(s) == Min(s[|g.text|..])
  {
    hide SkipBlock;
    var t := s[2..];
    var n := |s| - |SkipBlock(t)|;
    BlockStops(t);
    g := Comment(s[..n]);
    assert t[n - 2..] == s[n..];
    forall i | 3 <= i < n - 1 ensures !EndMark(g.text, i) {
      assert !EndMark(t, i - 2);
    }
    assert n > 3 ==> EndMark(g.text, n - 1) == EndMark(t, n - 3);
  }

  /** A text begins with one segment only. */
  lemma FirstUnique(g: Segment, h: Segment, s: seq<byte>)
    requires SegmentText(g) <= s && Stands(g, s[|SegmentText(g)|..])
    requires SegmentText(h) <= s && Stands(h, s[|SegmentText(h)|..])
    ensures g == h && 0 < |SegmentText(g)|
  {
    hide EndQuote, EndMark;
    var v, w := SegmentText(g), SegmentText(h);
    assert v != [] && w != [] && v[0] == s[0] == w[0];
    if g.Single? || h.Single? {
      SingleAlone(g, h, s);
    } else {
      assert |v| > 1 && |w| > 1 && s[0] == SLASH ==> v[1] == s[1] == w[1];
      if |v| < |w| {
        Shorter(g, h, s);
      } else if |w| < |v| {
        Shorter(h, g, s);
      }
    }
  }

  lemma SingleAlone(g: Segment, h: Segment, s: seq<byte>)
    requires SegmentText(g) <= s && Stands(g, s[|SegmentText(g)|..])
    requires SegmentText(h) <= s && Stands(h, s[|SegmentText(h)|..])
    requires g.Single? || h.Single?
    ensures g == h
  {
    hide EndQuote, EndMark;
    assert SegmentText(g)[0] == s[0] == SegmentText(h)[0];
  }

  /** Of two strings or comments at the front, none ends before the other. */
  lemma Shorter(g: Segment, h: Segment, s: seq<byte>)
    requires SegmentText(g) <= s && Stands(g, s[|SegmentText(g)|..]) && !g.Single?
    requires SegmentText(h) <= s && Stands(h, s[|SegmentText(h)|..]) && !h.Single?
    ensures |h.text| <= |g.text|
  {
  }

  lemma {:induction false} SegmentsUnique(gs: seq<Segment>, hs: seq<Segment>, s: seq<byte>)
    requires Segmented(gs, s) && Segmented(hs, s)
    ensures gs == hs
    decreases |s|
  {
    hide Stands;
    if gs != [] && hs != [] {
      FirstUnique(gs[0], hs[0], s);
      SegmentsUnique(gs[1..], hs[1..], s[|SegmentText(gs[0])|..]);
      assert gs == [gs[0]] + gs[1..] && hs == [hs[0]] + hs[1..];
    } else if gs != [] {
      FirstUnique(gs[0], gs[0], s);
    } else if hs != [] {
      FirstUnique(hs[0], hs[0], s);
    }
  }

  lemma {:induction false} Segments(s: seq<byte>) returns (gs: seq<Segment>)
    ensures Segmented(gs, s) && Min(s) == LeftAll(gs)
    decreases |s|
  {
    if s == [] {
      gs := [];
    } else {
      hide Stands, Min;
      var g := FirstSegment(s);
      var rest := Segments(s[|SegmentText(g)|..]);
      gs := [g] + rest;
      assert gs[1..] == rest;
    }
  }

  /**
   Every text has its segments, and only those; what minifying leaves is made of the strings and of
   the single bytes that are neither blanks nor slashes, in their order.
   */
  lemma MinIsLeft(s: seq<byte>, gs: seq<Segment>)
    requires Segmented(gs, s)
    ensures Min(s) == LeftAll(gs)
  {
    hide Segmented, Min, LeftAll;
    var hs := Segments(s);
    SegmentsUnique(gs, hs, s);
  }
}
