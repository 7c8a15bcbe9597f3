/** parse_string's two passes over a literal, as loops over the input and an output block. */
module Decode {
  import opened Text
  import opened Bits
  import opened Literal

  lemma CloseAtStep(s: seq<byte>, i: nat)
    requires i < |s| && s[i] != QUOTE
    ensures var n := if s[i] == BACKSLASH then 2 else 1;
            CloseAt(s[i..]) == if i + n > |s| then None else Shift(CloseAt(s[i + n..]), n)
  {
    var n := if s[i] == BACKSLASH then 2 else 1;
    if i + n <= |s| {
      assert s[i..][n..] == s[i + n..];
    }
  }

  lemma SkipsStep(s: seq<byte>, start: nat, i: nat)
    requires start <= i < |s| && !MidAfter(s[start..i], false)
    requires s[i] == BACKSLASH ==> i + 1 < |s|
    ensures var n := if s[i] == BACKSLASH then 2 else 1;
            && Skips(s[start..i + n], false) == Skips(s[start..i], false) + n - 1
            && !MidAfter(s[start..i + n], false)
  {
    var n := if s[i] == BACKSLASH then 2 else 1;
    var step := s[i..i + n];
    assert s[start..i + n] == s[start..i] + step;
    SkipsSplit(s[start..i], step, false);
    assert step[1..] == if n == 2 then [s[i + 1]] else [];
    if n == 2 {
      assert step[1..][1..] == [];
      assert Skips(step[1..], true) == 0 && !MidAfter(step[1..], true);
    }
  }

  lemma NothingScanned(s: seq<byte>, start: nat)
    requires start <= |s|
    ensures Skips(s[start..start], false) == 0 && !MidAfter(s[start..start], false)
  {
  }

  /** First pass: the closing quote and the number of escapes before it. */
  method FindClose(content: seq<byte>, start: nat) returns (ok: bool, end: nat, skipped: nat)
    requires start <= |content|
    ensures ok <==> CloseAt(content[start..]).Some?
    ensures ok ==> && start <= end < |content| && end == start + CloseAt(content[start..]).value
                   && skipped == Skips(content[start..end], false) && !MidAfter(content[start..end], false)
  {
    hide CloseAt, Skips, MidAfter;
    end, skipped := start, 0;
    NothingScanned(content, start);
    while end < |content| && content[end] != QUOTE
      invariant start <= end <= |content|
      invariant CloseAt(content[start..]) == Shift(CloseAt(content[end..]), end - start)
      invariant skipped == Skips(content[start..end], false) && !MidAfter(content[start..end], false)
    {
      CloseAtStep(content, end);
      if content[end] == BACKSLASH {
        if end + 1 >= |content| {
          return false, end, skipped;
        }
        SkipsStep(content, start, end);
        skipped, end := skipped + 1, end + 1;
      } else {
        SkipsStep(content, start, end);
      }
      end := end + 1;
    }
    ok := end < |content|;
    CloseAtEnd(content, end);
  }

  lemma CloseAtEnd(s: seq<byte>, i: nat)
    requires i <= |s| && (i < |s| ==> s[i] == QUOTE)
    ensures CloseAt(s[i..]) == if i < |s| then Some(0) else None
  {
  }

  /** parse_hex4: four digits, most significant first; any other byte gives 0. */
  method ParseHex4(content: seq<byte>, at: nat) returns (h: nat)
    requires at + 4 <= |content|
    ensures h == Hex4(content[at..])
  {
    h := 0;
    for i := 0 to 4
      invariant forall k :: at <= k < at + i ==> HexValue(content[k]) >= 0
      invariant i == 0 ==> h == 0
      invariant i == 1 ==> h == HexValue(content[at]) * 16
      invariant i == 2 ==> h == (HexValue(content[at]) * 16 + HexValue(content[at + 1])) * 16
      invariant i == 3 ==> h == ((HexValue(content[at]) * 16 + HexValue(content[at + 1])) * 16 + HexValue(content[at + 2])) * 16
      invariant i == 4 ==> h == ((HexValue(content[at]) * 16 + HexValue(content[at + 1])) * 16 + HexValue(content[at + 2])) * 16
                                + HexValue(content[at + 3])
    {
      var d := HexValue(content[at + i]);
      if d < 0 {
        return 0;
      }
      h := h + d;
      if i < 3 {
        h := h * 16;
      }
    }
  }

  /** The masks of the encoder on machine words: the low six bits under 10xxxxxx, and a mark over clear bits. */
  lemma Masks(cp: bv32)
    ensures (cp | 0x80) & 0xBF == 0x80 + cp % 64
    ensures cp < 0x20 ==> (cp | 0xC0) & 0xFF == 0xC0 + cp
    ensures cp < 0x10 ==> (cp | 0xE0) & 0xFF == 0xE0 + cp
    ensures cp < 0x08 ==> (cp | 0xF0) & 0xFF == 0xF0 + cp
    ensures cp >> 6 == cp / 64
  {
  }

  /** The mark of a first byte lies over bits that are clear in what is left of the code point. */
  lemma Lead(cp: nat)
    ensures cp < 0x20 ==> And(Or(cp, 0xC0), 0xFF) == 0xC0 + cp
    ensures cp < 0x10 ==> And(Or(cp, 0xE0), 0xFF) == 0xE0 + cp
    ensures cp < 0x08 ==> And(Or(cp, 0xF0), 0xFF) == 0xF0 + cp
    ensures cp < 0x80 ==> And(cp, 0x7F) == cp
  {
    hide And, Or, ShiftLeft;
    Shifts(1);
    Shifts(6);
    Shifts(14);
    Shifts(30);
    Commutes(cp, 0xC0);
    Commutes(cp, 0xE0);
    Commutes(cp, 0xF0);
    if cp < 0x20 {
      OrApart(6, cp, 5);
      ByteBits(0xC0 + cp);
    }
    if cp < 0x10 {
      OrApart(14, cp, 4);
      ByteBits(0xE0 + cp);
    }
    if cp < 0x08 {
      OrApart(30, cp, 3);
      ByteBits(0xF0 + cp);
    }
    ByteBits(cp);
  }

  /** The masks and the shift of the surrogates. */
  lemma PairBits(high: nat, low: nat)
    requires HighSurrogate(high) && LowSurrogate(low)
    ensures 0x10000 + Or(ShiftLeft(And(high, 0x3FF), 10), And(low, 0x3FF)) == Combine(high, low)
  {
    hide And, Or, ShiftLeft;
    TenBits(high);
    TenBits(low);
    Shifts(1);
    Shifts(high % 1024);
    OrApart(high % 1024, low % 1024, 10);
  }

  /** What is left of a code point when `k` tail bytes have been taken off. */
  function Rest(cp: nat, k: nat): (r: nat) {
    if k == 0 then cp else Rest(cp, k - 1) / 64
  }

  lemma RestDivides(cp: nat)
    ensures Rest(cp, 0) == cp && Rest(cp, 1) == cp / 64 && Rest(cp, 2) == cp / 4096 && Rest(cp, 3) == cp / 262144
  {
    assert Rest(cp, 2) == Rest(cp, 1) / 64 == cp / 4096;
  }

  function Mark(length: nat): (m: byte) {
    if length == 2 then 0xC0 else if length == 3 then 0xE0 else if length == 4 then 0xF0 else 0
  }

  /** The bytes of a code point, from its length alone. */
  lemma Utf8Bytes(cp: nat)
    requires cp < 0x110000
    ensures var n := |Utf8(cp)|;
            && n == (if cp < 0x80 then 1 else if cp < 0x800 then 2 else if cp < 0x10000 then 3 else 4)
            && Utf8(cp)[0] == Mark(n) + Rest(cp, n - 1)
            && (n == 1 ==> Rest(cp, n - 1) < 0x80) && (n == 2 ==> Rest(cp, n - 1) < 0x20)
            && (n == 3 ==> Rest(cp, n - 1) < 0x10) && (n == 4 ==> Rest(cp, n - 1) < 0x08)
            && forall k :: 0 < k < n ==> Utf8(cp)[k] == 0x80 + Rest(cp, n - 1 - k) % 64
  {
    hide Rest;
    RestDivides(cp);
  }

  /** The UTF-8 bytes of a code point, filled in from the last to the first. */
  method EncodeUtf8(codepoint: nat, output: array<byte>, at: nat) returns (length: nat)
    requires codepoint < 0x110000 && at + |Utf8(codepoint)| <= output.Length
    modifies output
    ensures length == |Utf8(codepoint)|
    ensures output[..at + length] == old(output[..at]) + Utf8(codepoint)
  {
    hide And, Or, ShiftRight, Utf8;
    Utf8Bytes(codepoint);
    var mark := 0;
    if codepoint < 0x80 {
      length := 1;
    } else if codepoint < 0x800 {
      length, mark := 2, 0xC0;
    } else if codepoint < 0x10000 {
      length, mark := 3, 0xE0;
    } else {
      length, mark := 4, 0xF0;
    }
    var cp, position := codepoint, length - 1;
    while position > 0
      invariant 0 <= position < length == |Utf8(codepoint)|
      invariant cp == Rest(codepoint, length - 1 - position)
      invariant forall k :: position < k < length ==> output[at + k] == Utf8(codepoint)[k]
      invariant output[..at] == old(output[..at])
    {
      Tail(cp);
      Shifts(cp);
      output[at + position] := And(Or(cp, 0x80), 0xBF);
      cp, position := ShiftRight(cp, 6), position - 1;
    }
    Lead(cp);
    output[at] := if length > 1 then And(Or(cp, mark), 0xFF) else And(cp, 0x7F);
    BytesAt(output[..at + length], at, Utf8(codepoint));
  }

  lemma BytesAt(s: seq<byte>, at: nat, bytes: seq<byte>)
    requires |s| == at + |bytes| && forall k :: 0 <= k < |bytes| ==> s[at + k] == bytes[k]
    ensures s == s[..at] + bytes
  {
    assert s[at..] == bytes;
  }

  lemma Hex4At(s: seq<byte>, at: nat, end: nat, k: nat)
    requires at + k + 4 <= end <= |s|
    ensures Hex4(s[at..end][k..]) == Hex4(s[at + k..])
  {
    assert s[at..end][k..][..4] == s[at + k..][..4];
  }

  /** The unit at a position, by the codes read there. */
  lemma UnitAt(content: seq<byte>, at: nat, end: nat)
    requires at + 2 <= end <= |content| && content[at] == BACKSLASH && content[at + 1] == LETTER_U
    ensures var u := Utf16(content[at..end]);
            if end - at < 6 then u == BadUnit else
            var first := Hex4(content[at + 2..]);
            if LowSurrogate(first) then u == BadUnit
            else if !HighSurrogate(first) then u == Unit(6, first)
            else if end - at < 12 || content[at + 6] != BACKSLASH || content[at + 7] != LETTER_U then u == BadUnit
            else
              var second := Hex4(content[at + 8..]);
              u == if LowSurrogate(second) then Unit(12, Combine(first, second)) else BadUnit
  {
    hide Hex4, Combine;
    if end - at >= 6 {
      Hex4At(content, at, end, 2);
    }
    if end - at >= 12 {
      Hex4At(content, at, end, 8);
    }
  }

  /** One or two \u sequences; consumes nothing if they are not valid. */
  method Utf16ToUtf8(content: seq<byte>, at: nat, end: nat, output: array<byte>, pos: nat) returns (consumed: nat, written: nat)
    requires at + 2 <= end <= |content| && content[at] == BACKSLASH && content[at + 1] == LETTER_U
    requires var u := Utf16(content[at..end]); u.Unit? ==> pos + |Utf8(u.codepoint)| <= output.Length
    requires pos <= output.Length
    modifies output
    ensures var u := Utf16(content[at..end]);
            if u.Unit? then consumed == u.length && written == |Utf8(u.codepoint)|
                            && output[..pos + written] == old(output[..pos]) + Utf8(u.codepoint)
            else consumed == 0 && written == 0 && output[..] == old(output[..])
  {
    hide Hex4, Utf8, Utf16, Combine, And, Or, ShiftLeft;
    UnitAt(content, at, end);
    if end - at < 6 {
      return 0, 0;
    }
    var first := ParseHex4(content, at + 2);
    if LowSurrogate(first) {
      return 0, 0;
    }
    var codepoint;
    if HighSurrogate(first) {
      if end - at < 12 || content[at + 6] != BACKSLASH || content[at + 7] != LETTER_U {
        return 0, 0;
      }
      var second := ParseHex4(content, at + 8);
      if !LowSurrogate(second) {
        return 0, 0;
      }
      PairBits(first, second);
      consumed, codepoint := 12, 0x10000 + Or(ShiftLeft(And(first, 0x3FF), 10), And(second, 0x3FF));
    } else {
      consumed, codepoint := 6, first;
    }
    written := EncodeUtf8(codepoint, output, pos);
  }

  function Joined(done: seq<byte>, r: Option<seq<byte>>): (j: Option<seq<byte>>) {
    match r
    case None => None
    case Some(rest) => Some(done + rest)
  }

  /** What is left of the body `[..end]` at position `at`, which may have passed the closing quote by one. */
  function Left(content: seq<byte>, at: nat, end: nat): (r: seq<byte>)
    requires end <= |content|
  {
    if at <= end then content[at..end] else []
  }

  lemma UnescapeNext(b: seq<byte>, done: seq<byte>)
    requires b != []
    ensures Joined(done, Unescape(b))
         == if Next(b).BadStep? then None
            else Joined(done + Next(b).bytes, Unescape(Advance(b, Next(b).length)))
  {
    hide Next;
    var next := Next(b);
    if next.Step? {
      var rest := Unescape(Advance(b, next.length));
      if rest.Some? {
        Assoc(done, next.bytes, rest.value);
      }
    }
  }

  /**
   Second pass: decodes into a block of the size the first pass computed, from an input that ends with
   the closing quote. So every write is inside that block and every read at or before that quote,
   whatever the escapes look like.
   */
  method DecodeBody(content: seq<byte>, start: nat, end: nat, skipped: nat) returns (ok: bool, bytes: seq<byte>, stop: nat)
    requires 1 <= start <= end && end + 1 == |content| && content[end] == QUOTE
    requires skipped == Skips(content[start..end], false) && !MidAfter(content[start..end], false)
    ensures ok <==> Unescape(content[start..end]).Some?
    ensures ok ==> bytes == Unescape(content[start..end]).value
    ensures start <= stop <= end + 1
  {
    hide Unescape, Skips, MidAfter, Next, Room, Left, Joined;
    ghost var body := content[start..end];
    var output := new byte[end - (start - 1) - skipped + 1];
    ghost var mid := false;
    var pos := 0;
    stop := start;
    DecodeStart(content, start, end);
    while stop < end
      invariant start <= stop <= end + 1
      invariant !MidAfter(Left(content, stop, end), mid)
      invariant 0 <= pos && pos + Room(Left(content, stop, end), mid) + 1 < output.Length
      invariant Unescape(body) == Joined(output[..pos], Unescape(Left(content, stop, end)))
    {
      DecodeProgress(content, stop, end, mid, output[..pos]);
      var consumed, written := DecodeStep(content, stop, end, output, pos, mid);
      if consumed == 0 {
        return false, [], stop;
      }
      mid := MidNext(content, stop, end, mid);
      stop, pos := stop + consumed, pos + written;
    }
    DecodeDone(content, stop, end, output[..pos]);
    output[pos] := 0;
    ok, bytes := true, output[..pos];
  }

  /** Whether the first pass has an escape pending after the next second-pass step. */
  ghost function MidNext(content: seq<byte>, at: nat, end: nat, mid: bool): (r: bool)
    requires at < end <= |content| && Next(content[at..end]).Step?
  {
    var b := content[at..end];
    MidAfter(if Next(b).length <= |b| then b[..Next(b).length] else b, mid)
  }

  lemma DecodeStart(content: seq<byte>, start: nat, end: nat)
    requires start <= end <= |content|
    ensures Left(content, start, end) == content[start..end]
    ensures Unescape(content[start..end]) == Joined([], Unescape(content[start..end]))
    ensures Room(content[start..end], false) == end - start - Skips(content[start..end], false)
  {
    var r := Unescape(content[start..end]);
    assert r.Some? ==> [] + r.value == r.value;
  }

  lemma DecodeProgress(content: seq<byte>, at: nat, end: nat, mid: bool, done: seq<byte>)
    requires at < end < |content| && !MidAfter(Left(content, at, end), mid)
    ensures Left(content, at, end) == content[at..end]
    ensures var b := content[at..end];
            var next := Next(b);
            if next.BadStep? then Joined(done, Unescape(b)) == None
            else var left := Left(content, at + next.length, end);
                 && Joined(done, Unescape(b)) == Joined(done + next.bytes, Unescape(left))
                 && !MidAfter(left, MidNext(content, at, end, mid))
                 && |next.bytes| + Room(left, MidNext(content, at, end, mid)) <= Room(b, mid)
                 && at + next.length <= end + 1
  {
    var b := content[at..end];
    hide Unescape, Skips, MidAfter, Next;
    UnescapeNext(b, done);
    if Next(b).Step? {
      StepFits(b, mid);
      var n := if Next(b).length <= |b| then Next(b).length else |b|;
      assert Left(content, at + Next(b).length, end) == Advance(b, Next(b).length) == b[n..];
    }
  }

  lemma DecodeDone(content: seq<byte>, stop: nat, end: nat, done: seq<byte>)
    requires end <= stop && end <= |content|
    ensures Joined(done, Unescape(Left(content, stop, end))) == Some(done)
  {
    assert Left(content, stop, end) == [];
    assert done + [] == done;
  }

  /** One step of the second pass; consumes nothing if the escape is not valid. */
  method DecodeStep(content: seq<byte>, at: nat, end: nat, output: array<byte>, pos: nat, ghost mid: bool)
      returns (consumed: nat, written: nat)
    requires at < end < |content| && content[end] == QUOTE
    requires !MidAfter(content[at..end], mid) && pos + Room(content[at..end], mid) < output.Length
    modifies output
    ensures consumed > 0 <==> Next(content[at..end]).Step?
    ensures consumed > 0 ==> && consumed == Next(content[at..end]).length && written == |Next(content[at..end]).bytes|
                             && pos + written <= output.Length
                             && output[..pos + written] == old(output[..pos]) + Next(content[at..end]).bytes
  {
    ghost var b := content[at..end];
    if Next(b).Step? {
      StepFits(b, mid);
    }
    hide Room, Utf16, Utf8, MidAfter;
    if content[at] != BACKSLASH {
      output[pos] := content[at];
      return 1, 1;
    }
    assert content[at + 1] == if |b| == 1 then QUOTE else b[1];
    var meaning := ShortMeaning(content[at + 1]);
    if meaning.Some? {
      output[pos] := meaning.value;
      return 2, 1;
    } else if content[at + 1] == LETTER_U {
      consumed, written := Utf16ToUtf8(content, at, end, output, pos);
    } else {
      return 0, 0;
    }
  }
}
