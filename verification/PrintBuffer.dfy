/** The growing output buffer of the printer and the printing functions that fill it. */
module Printing {
  import opened Text
  import opened Literal
  import opened Numbers
  import opened Json
  import opened RenderFacts
  import opened Heap
  import opened HeapTree
  import opened HeapRead

  datatype Snapshot = Snapshot(text: seq<byte>, limit: nat, depth: nat, over: bool, beyond: seq<byte>)

  predicate Fits(v: Snapshot, t: seq<byte>) {
    |v.text| + |t| + 2 <= v.limit
  }

  function Grow(v: Snapshot, t: seq<byte>): (r: Snapshot) {
    v.(text := v.text + t)
  }

  /** What a growing buffer grows to: twice what is needed, as far as an int goes. */
  function NewSize(needed: nat): (n: nat) {
    if needed <= 0x3FFF_FFFF then needed * 2 else 0x7FFF_FFFF
  }

  lemma QuotedLength(t: cstring)
    ensures |Quoted(Some(t))| == |Escape(t)| + 2
  {
  }

  class PrintBuffer {
    var buffer: array?<byte>
    var length: nat
    var offset: nat
    var depth: nat
    const noalloc: bool
    const format: bool
    /** Whether the hooks include a realloc. */
    const canRealloc: bool
    const codec: Codec
    /** Set when the allocator turned a request down. */
    var refused: bool
    /** Set when growing by allocate-and-copy reads past the end of the old block. */
    var overread: bool

    ghost predicate Valid()
      reads this
    {
      buffer != null ==>
        && length <= buffer.Length && length <= INT_MAX
        && (length > 0 ==> offset < length)
        && (length == 0 ==> offset == 0)
    }

    /** Ready to print: the buffer exists and no request was turned down. */
    ghost predicate Ready()
      reads this
    {
      Valid() && buffer != null && !refused
    }

    /** The largest size the buffer may take. */
    ghost function Limit(): nat
      reads this
    {
      if noalloc then length else INT_MAX
    }

    constructor (block: array<byte>, length: nat, noalloc: bool, format: bool, canRealloc: bool, codec: Codec)
      requires length <= block.Length && length <= INT_MAX
      ensures Ready() && buffer == block && this.length == length && offset == 0 && depth == 0 && !overread
      ensures this.noalloc == noalloc && this.format == format && this.canRealloc == canRealloc && this.codec == codec
    {
      buffer, this.length, offset, depth := block, length, 0, 0;
      this.noalloc, this.format, this.canRealloc, this.codec := noalloc, format, canRealloc, codec;
      refused, overread := false, false;
    }

    /** malloc: any request may be turned down. */
    method Allocate(size: nat) returns (block: array?<byte>)
      modifies this`refused
      ensures block != null ==> fresh(block) && block.Length == size && refused == old(refused)
      ensures block == null ==> refused
    {
      if * {
        refused := true;
        return null;
      }
      block := new byte[size];
    }

    /** Make room for `needed` bytes and one more behind the offset. */
    method Ensure(needed: nat) returns (ok: bool)
      requires Valid()
      modifies this`buffer, this`length, this`refused, this`overread
      ensures Valid()
      ensures old(buffer) == null ==> !ok && buffer == null
      ensures old(buffer) != null ==> (ok <==> offset + needed + 1 <= old(Limit()) && (refused ==> old(refused)) && buffer != null)
      ensures !ok && old(buffer) != null ==> offset + needed + 1 > old(Limit()) || refused
      ensures ok ==> && buffer != null && offset + needed + 1 <= length && refused == old(refused)
                     && (buffer == old(buffer) || fresh(buffer)) && Limit() == old(Limit())
                     && (noalloc ==> buffer == old(buffer))
                     && buffer[..offset] == old(if buffer == null then [] else buffer[..offset])
      ensures ok ==> overread == (old(overread) || (old(length) == 0 && !canRealloc && buffer != old(buffer)))
      ensures !ok ==> overread == old(overread)
      ensures old(length) == 0 && ok ==> buffer != old(buffer)
      ensures noalloc ==> buffer == old(buffer) && length == old(length) && refused == old(refused)
      ensures buffer != null ==> buffer == old(buffer) || fresh(buffer)
      ensures ok && buffer != old(buffer) ==> old(length) < offset + needed + 1 && length == NewSize(offset + needed + 1)
    {
      if buffer == null {
        return false;
      }
      if length > 0 && offset >= length {
        return false;
      }
      if needed > INT_MAX {
        return false;
      }
      var total := needed + offset + 1;
      if total <= length {
        return true;
      }
      if noalloc {
        return false;
      }
      var newsize := total * 2;
      if total > INT_MAX / 2 {
        if total > INT_MAX {
          return false;
        }
        newsize := INT_MAX;
      }
      var block := Allocate(newsize);
      if block == null {
        length, buffer := 0, null;
        return false;
      }
      var kept := if canRealloc then length else offset + 1;
      if kept > length {
        overread, kept := true, length;
      }
      Copy(block, buffer, kept);
      length, buffer := newsize, block;
      return true;
    }

    /** memcpy. */
    static method Copy(to: array<byte>, from: array<byte>, count: nat)
      requires count <= to.Length && count <= from.Length && to != from
      modifies to
      ensures to[..count] == from[..count]
    {
      for i := 0 to count
        invariant to[..i] == from[..i]
      {
        to[i] := from[i];
      }
    }

    /** Writes `t` at position `at` of the reserved space. */
    method Store(at: nat, t: seq<byte>)
      requires buffer != null && at + |t| <= length <= buffer.Length
      modifies buffer
      ensures buffer[..at + |t|] == old(buffer[..at]) + t
      ensures buffer[at + |t|..] == old(buffer[at + |t|..])
    {
      for i := 0 to |t|
        invariant buffer[..at + i] == old(buffer[..at]) + t[..i]
        invariant buffer[at + i..] == old(buffer[at + i..])
      {
        buffer[at + i] := t[i];
      }
    }

    /** Whether growing has read past a block of size 0, or will. */
    ghost predicate Over()
      reads this
    {
      overread || (length == 0 && !canRealloc)
    }

    /** What printing carries along: the text so far and everything it leaves alone. */
    ghost function View(): Snapshot
      requires Ready()
      reads this, buffer
    {
      Snapshot(buffer[..offset], Limit(), depth, Over(), if noalloc then buffer[length..] else [])
    }

    /** The offset stands exactly behind the text of `v`. */
    ghost predicate At(v: Snapshot)
      reads this, buffer
    {
      Ready() && length > 0 && View() == v
    }

    /** The text of `v` is followed by `t` and a NUL, and the offset stands somewhere in `t`. */
    ghost predicate Ending(v: Snapshot, t: seq<byte>)
      reads this, buffer
    {
      && Ready() && length > 0 && |v.text| <= offset <= |v.text| + |t| < length
      && buffer[..|v.text| + |t|] == v.text + t && buffer[|v.text| + |t|] == 0
      && View().(text := v.text) == v
    }

    /** The same or a newly allocated block; preallocated memory is not written beyond its capacity. */
    twostate predicate InPlace()
      requires old(Ready())
      reads this, buffer
    {
      && Valid()
      && (buffer != null ==> buffer == old(buffer) || fresh(buffer))
      && (noalloc ==> && buffer != null && buffer == old(buffer) && length == old(length) && !refused
                      && buffer[length..] == old(buffer[length..]))
      && (overread ==> old(Over()))
    }

    /**
     A piece of printing that appends `t`: it succeeds exactly when the tree can be printed, the text
     with two spare bytes stays within the limit and the allocator granted every request; then the
     buffer holds the old contents followed by `t`.
     */
    twostate predicate Appended(ok: bool, can: bool, t: seq<byte>)
      requires old(Ready())
      reads this, buffer
    {
      && InPlace()
      && (ok <==> can && Fits(old(View()), t) && !refused)
      && (ok ==> Ending(old(View()), t))
    }

    /**
     A piece of printing inside a container: on success the offset has moved past `t`; it fails only
     if `t` cannot be printed, does not fit with two spare bytes, or a request was turned down.
     */
    twostate predicate Moved(ok: bool, can: bool, t: seq<byte>)
      requires old(Ready())
      reads this, buffer
    {
      && InPlace()
      && (!ok ==> !can || !Fits(old(View()), t) || refused)
      && (ok ==> can && At(Grow(old(View()), t)))
    }

    /** strlen from the offset on. */
    method UpdateOffset(ghost v: Snapshot, ghost t: seq<byte>)
      requires Ending(v, t) && NulFree(t)
      modifies this`offset
      ensures At(Grow(v, t))
    {
      ghost var w := v.text + t;
      while buffer[offset] != 0
        invariant Valid() && |v.text| <= offset <= |w|
        decreases |w| - offset
      {
        assert buffer[..|w|][offset] == w[offset] == t[offset - |v.text|];
        offset := offset + 1;
      }
    }

    /** Writes a text and its NUL at the offset. */
    method StoreText(t: seq<byte>)
      requires Ready() && offset + |t| + 1 < length
      modifies buffer
      ensures Ending(old(View()), t) && buffer[length..] == old(buffer[length..])
    {
      ghost var prefix := buffer[..offset];
      ghost var w := prefix + t;
      StoreFront(offset, t + [0]);
      Assoc(prefix, t, [0]);
      assert buffer[..|w| + 1] == w + [0];
      assert buffer[..|w|] == buffer[..|w| + 1][..|w|] == w;
      assert buffer[|w|] == buffer[..|w| + 1][|w|] == 0;
      assert buffer[..offset] == w[..offset] == prefix;
    }

    /** Reserves room for `t` and a NUL and stores both. */
    method PrintBytes(t: seq<byte>) returns (ok: bool)
      requires Ready()
      modifies this`buffer, this`length, this`refused, this`overread, buffer
      ensures Appended(ok, true, t)
    {
      hide NewSize;
      ok := Ensure(|t| + 1);
      if ok {
        StoreText(t);
      }
    }

    /** The text of a number: null, or 15 digits unless 17 are needed to recover it. */
    method FormatNumber(d: Double) returns (t: cstring)
      ensures t == Format(codec, d)
    {
      if !d.Finite? {
        return NULL_WORD;
      }
      t := codec.brief(d.r);
      var (test, used) := codec.scan(t);
      if used == 0 || !CompareDouble(test, d) {
        t := codec.full(d.r);
      }
    }

    method PrintNumber(d: Double) returns (ok: bool)
      requires Ready()
      modifies this`buffer, this`length, this`offset, this`refused, this`overread, buffer
      ensures Appended(ok, Printable(codec, d), Format(codec, d))
    {
      hide CompareDouble;
      var t := FormatNumber(d);
      if |t| > 25 {
        return false;
      }
      ok := PrintBytes(t);
      if ok {
        offset := offset + |t|;
      }
    }

    /** Counts the bytes that escaping adds. */
    method CountEscapes(t: cstring) returns (extra: nat)
      ensures |t| + extra == |Escape(t)|
    {
      extra := 0;
      assert t[0..] == t;
      for i := 0 to |t|
        invariant i + extra + |Escape(t[i..])| == |Escape(t)|
      {
        assert t[i..][0] == t[i] && t[i..][1..] == t[i + 1..];
        if ShortEscape(t[i]).Some? {
          extra := extra + 1;
        } else if t[i] < 32 {
          extra := extra + 5;
        }
      }
    }

    /** Writes the escaped form of `t` at position `at`. */
    method StoreEscaped(at: nat, t: cstring)
      requires buffer != null && at + |Escape(t)| + 1 <= length <= buffer.Length
      modifies buffer
      ensures buffer[..at + |Escape(t)|] == old(buffer[..at]) + Escape(t)
      ensures buffer[length..] == old(buffer[length..])
    {
      hide Escape, EscapeByte;
      ghost var start := buffer[..at];
      ghost var end := at + |Escape(t)|;
      var pos := at;
      assert t[0..] == t;
      for i := 0 to |t|
        invariant at <= pos && pos + |Escape(t[i..])| == end
        invariant buffer[..pos] + Escape(t[i..]) == start + Escape(t)
        invariant buffer[length..] == old(buffer[length..])
      {
        var e := EscapeByte(t[i]);
        EscapeStep(t, i);
        ghost var done := buffer[..pos];
        // sprintf puts a NUL behind the hexadecimal digits
        StoreWithin(pos, if |e| == 6 then e + [0] else e, length);
        pos := pos + |e|;
        assert buffer[..pos] == done + e;
        Assoc(done, e, Escape(t[i + 1..]));
      }
      EscapeEnd(t);
    }

    /** Stores `t` without touching anything from `end` on. */
    method StoreWithin(at: nat, t: seq<byte>, ghost end: nat)
      requires buffer != null && at + |t| <= end <= length <= buffer.Length
      modifies buffer
      ensures forall k :: 0 <= k <= |t| ==> buffer[..at + k] == old(buffer[..at]) + t[..k]
      ensures buffer[..at + |t|] == old(buffer[..at]) + t
      ensures buffer[end..] == old(buffer[end..])
    {
      ghost var was := buffer[..];
      Store(at, t);
      forall k | 0 <= k <= |t| ensures buffer[..at + k] == was[..at] + t[..k] {
        assert buffer[..at + k] == buffer[..at + |t|][..at + k];
      }
      assert buffer[end..] == buffer[at + |t|..][end - at - |t|..];
      assert was[end..] == was[at + |t|..][end - at - |t|..];
    }

    /** The same, as far as what lies before and behind is concerned. */
    method StoreFront(at: nat, t: seq<byte>)
      requires buffer != null && at + |t| <= length <= buffer.Length
      modifies buffer
      ensures buffer[..at + |t|] == old(buffer[..at]) + t
      ensures buffer[length..] == old(buffer[length..])
    {
      StoreWithin(at, t, length);
    }

    /** Writes a quoted literal and its NUL at the offset. */
    method StoreQuoted(t: cstring)
      requires Ready() && offset + |Escape(t)| + 3 < length
      modifies buffer
      ensures Ending(old(View()), Quoted(Some(t))) && buffer[length..] == old(buffer[length..])
    {
      hide Escape, Quoted;
      ghost var prefix := buffer[..offset];
      ghost var w := prefix + Quoted(Some(t));
      var n := |Escape(t)|;
      StoreFront(offset, [QUOTE]);
      StoreEscaped(offset + 1, t);
      StoreFront(offset + 1 + n, [QUOTE, 0]);
      CloseQuote(prefix, t);
      QuotedLength(t);
      assert buffer[..|w| + 1] == w + [0];
      assert buffer[..|w|] == buffer[..|w| + 1][..|w|] == w;
      assert buffer[|w|] == buffer[..|w| + 1][|w|] == 0;
      assert buffer[..offset] == w[..offset] == prefix;
    }

    method PrintString(s: Option<cstring>) returns (ok: bool)
      requires Ready()
      modifies this`buffer, this`length, this`refused, this`overread, buffer
      ensures Appended(ok, true, Quoted(s))
    {
      if s.None? {
        ok := PrintBytes([QUOTE, QUOTE]);
        return;
      }
      var t := s.value;
      var extra := CountEscapes(t);
      if extra == 0 {
        NothingEscaped(t);
        assert Quoted(s) == [QUOTE] + t + [QUOTE];
        ok := PrintBytes([QUOTE] + t + [QUOTE]);
        return;
      }
      ok := Ensure(|t| + extra + 3);
      if ok {
        StoreQuoted(t);
      }
    }

    /** Stores `t` behind the offset and moves the offset past it; `spare` more bytes are reserved. */
    method Emit(t: seq<byte>, spare: nat, nul: bool) returns (ok: bool)
      requires Ready() && spare <= 1 && (nul ==> spare == 1)
      modifies this`buffer, this`length, this`offset, this`refused, this`overread, buffer
      ensures Moved(ok, true, t)
    {
      ok := Ensure(|t| + spare);
      if ok {
        StoreWithin(offset, if nul then t + [0] else t, length);
        assert (if nul then t + [0] else t)[..|t|] == t;
        offset := offset + |t|;
      }
    }

    method Enter()
      requires Ready()
      modifies this`depth
      ensures Ready() && View() == old(View()).(depth := old(depth) + 1) && InPlace() && depth == old(depth) + 1
    {
      depth := depth + 1;
    }

    /** The closing bracket or brace of a container that started at `v`. */
    method Close(close: seq<byte>, ghost v: Snapshot, ghost body: seq<byte>) returns (ok: bool)
      requires At(Grow(v, body).(depth := v.depth + 1))
      modifies this, buffer
      ensures InPlace()
      ensures ok <==> Fits(v, body + close) && !refused
      ensures ok ==> Ending(v, body + close)
    {
      Assoc(v.text, body, close);
      ok := PrintBytes(close);
      if ok {
        depth := depth - 1;
      }
    }

    method PrintArray(h: heap, item: ptr, ghost n: Tree) returns (ok: bool)
      requires Ready() && Shows(h, n) && n.shape.node == item && n.value.Array?
      modifies this, buffer
      ensures Appended(ok, CanPrint(codec, n.value), Render(codec, n.value, format, old(depth)))
      decreases n.value, 4
    {
      hide Render, RenderItems, CanPrint, View, Ending, Reads;
      ghost var v, items := View(), n.value.items;
      ViewDepth();
      FirstKid(h, n);
      ghost var all := RenderItems(codec, items, format, depth + 1);
      ArrayText(codec, items, format, depth);
      ok := Emit([LBRACKET], 0, false);
      if ok {
        Enter();
        ok := PrintItems(h, h[item].child, n);
        if ok {
          Assoc(v.text, [LBRACKET], all);
          ok := Close([RBRACKET], v, [LBRACKET] + all);
        }
      }
    }

    /** The elements from `first` on, along their next links. */
    method PrintItems(h: heap, first: ptr, ghost n: Tree) returns (ok: bool)
      requires Ready() && length > 0 && Shows(h, n) && n.value.Array? && first == KidNode(n, 0)
      modifies this, buffer
      ensures Moved(ok, forall i :: 0 <= i < |n.value.items| ==> CanPrint(codec, n.value.items[i]),
                    RenderItems(codec, n.value.items, format, old(depth)))
      decreases n.value, 3
    {
      hide Render, RenderItems, CanPrint, View, Reads, Members, Shows, ItemSeparator, When;
      ghost var v, items := View(), n.value.items;
      ghost var all := RenderItems(codec, items, format, depth);
      ViewDepth();
      FirstKid(h, n);
      ArrayKids(h, n);
      ghost var done, i := [], 0;
      assert items[0..] == items;
      ok := true;
      var element := first;
      while element != NULL
        invariant 0 <= i <= |items| && element == KidNode(n, i) && ok
        invariant InPlace() && At(Grow(v, done))
        invariant done + RenderItems(codec, items[i..], format, v.depth) == all
        invariant forall k :: 0 <= k < i ==> CanPrint(codec, items[k])
        decreases |items| - i
      {
        ghost var t := Render(codec, items[i], format, v.depth) + When(i + 1 < |items|, ItemSeparator(format));
        Walk(h, n, i);
        NextKid(h, n, i + 1);
        ItemsStep(codec, items, i, format, v.depth);
        Assoc(done, t, RenderItems(codec, items[i + 1..], format, v.depth));
        Assoc(v.text, done, t);
        ViewDepth();
        ok := PrintElement(h, element, Kid(h, n, i));
        if !ok {
          return;
        }
        done := done + t;
        element := h[element].next;
        i := i + 1;
      }
      NextKid(h, n, i);
      NoItems(codec, items, format, v.depth);
      assert done == all;
    }

    lemma ViewDepth()
      requires Ready()
      ensures View().depth == depth
    {
    }

    /** One array element with the separator behind it. */
    method PrintElement(h: heap, element: ptr, ghost n: Tree) returns (ok: bool)
      requires Ready() && length > 0 && Shows(h, n) && n.shape.node == element && IsNode(h, element)
      modifies this, buffer
      ensures Moved(ok, CanPrint(codec, n.value),
                    Render(codec, n.value, format, old(depth)) + When(h[element].next != NULL, ItemSeparator(format)))
      decreases n.value, 6
    {
      hide Render, CanPrint, ItemSeparator, View, Ending, Reads;
      ghost var v := View();
      ghost var t := Render(codec, n.value, format, depth);
      var more := h[element].next != NULL;
      Fields(h, n);
      NulFreeRender(codec, n.value, format, depth);
      Assoc(v.text, t, When(more, ItemSeparator(format)));
      ok := PrintValue(h, element, n);
      if ok {
        UpdateOffset(v, t);
        if more {
          ok := Emit(ItemSeparator(format), 1, true);
        }
      }
    }

    method PrintObject(h: heap, item: ptr, ghost n: Tree) returns (ok: bool)
      requires Ready() && Shows(h, n) && n.shape.node == item && n.value.Object?
      modifies this, buffer
      ensures Appended(ok, CanPrint(codec, n.value), Render(codec, n.value, format, old(depth)))
      decreases n.value, 4
    {
      hide Render, RenderMembers, CanPrint, View, Ending, When, Tabs, Reads;
      ghost var v, ms := View(), n.value.members;
      ViewDepth();
      FirstKid(h, n);
      ghost var all := RenderMembers(codec, ms, format, depth + 1);
      var open := [LBRACE] + When(format, [NEWLINE]);
      var close := When(format, Tabs(depth)) + [RBRACE];
      ObjectText(codec, ms, format, depth);
      ok := Emit(open, 1, false);
      if ok {
        Enter();
        ok := PrintMembers(h, h[item].child, n);
        if ok {
          Assoc(v.text, open, all);
          ok := Close(close, v, open + all);
        }
      }
    }

    /** The members from `first` on, along their next links. */
    method PrintMembers(h: heap, first: ptr, ghost n: Tree) returns (ok: bool)
      requires Ready() && length > 0 && Shows(h, n) && n.value.Object? && first == KidNode(n, 0)
      modifies this, buffer
      ensures Moved(ok, forall i :: 0 <= i < |n.value.members| ==> CanPrint(codec, n.value.members[i].value),
                    RenderMembers(codec, n.value.members, format, old(depth)))
      decreases n.value, 3
    {
      hide RenderMember, RenderMembers, CanPrint, MemberEnd, View, Reads, Members;
      ghost var v, ms := View(), n.value.members;
      ghost var all := RenderMembers(codec, ms, format, depth);
      ViewDepth();
      FirstKid(h, n);
      ObjectKids(h, n);
      ghost var done, i := [], 0;
      assert ms[0..] == ms;
      ok := true;
      var member := first;
      while member != NULL
        invariant 0 <= i <= |ms| && member == KidNode(n, i) && ok
        invariant InPlace() && At(Grow(v, done))
        invariant done + RenderMembers(codec, ms[i..], format, v.depth) == all
        invariant forall k :: 0 <= k < i ==> CanPrint(codec, ms[k].value)
        decreases |ms| - i
      {
        ghost var t := RenderMember(codec, ms[i], format, v.depth) + MemberEnd(format, i + 1 == |ms|);
        Walk(h, n, i);
        NextKid(h, n, i + 1);
        MembersStep(codec, ms, i, format, v.depth);
        Assoc(done, t, RenderMembers(codec, ms[i + 1..], format, v.depth));
        Assoc(v.text, done, t);
        ViewDepth();
        ok := PrintMember(h, member, Kid(h, n, i));
        if !ok {
          return;
        }
        done := done + t;
        member := h[member].next;
        i := i + 1;
      }
      NextKid(h, n, i);
      NoMembers(codec, ms, format, v.depth);
      assert done == all;
    }

    /** One member with the line end behind it. */
    method PrintMember(h: heap, member: ptr, ghost n: Tree) returns (ok: bool)
      requires Ready() && length > 0 && Shows(h, n) && n.shape.node == member && IsNode(h, member)
      modifies this, buffer
      ensures Moved(ok, CanPrint(codec, n.value),
                    RenderMember(codec, Member(n.key, n.value), format, old(depth)) + MemberEnd(format, h[member].next == NULL))
      decreases n.value, 6
    {
      hide Render, CanPrint, KeyText, MemberEnd, View, Ending, Reads;
      ghost var v := View();
      ghost var key := KeyText(n.key, format, depth);
      ghost var t := Render(codec, n.value, format, depth);
      var last := h[member].next == NULL;
      Fields(h, n);
      NulFreeRender(codec, n.value, format, depth);
      Assoc4(v.text, key, t, MemberEnd(format, last));
      ok := PrintKey(StringAt(h, h[member].key));
      if ok {
        ok := PrintValue(h, member, n);
        if ok {
          UpdateOffset(Grow(v, key), t);
          ok := Emit(MemberEnd(format, last), 1, true);
        }
      }
    }

    /** Indentation, key and colon. */
    method PrintKey(key: Option<cstring>) returns (ok: bool)
      requires Ready() && length > 0
      modifies this`buffer, this`length, this`offset, this`refused, this`overread, buffer
      ensures Moved(ok, true, KeyText(key, format, depth))
    {
      hide Quoted, Tabs, KeyText, View, Ending;
      ghost var v := View();
      ghost var indent := When(format, Tabs(depth));
      var colon := [COLON] + When(format, [TAB]);
      KeyShape(v.text, key, format, depth);
      NulFreeQuoted(key);
      assert Grow(v, []) == v;
      ok := true;
      if format {
        ok := Emit(Tabs(depth), 0, false);
      }
      if ok {
        ok := PrintString(key);
        if ok {
          UpdateOffset(Grow(v, indent), Quoted(key));
          ok := Emit(colon, 0, false);
        }
      }
    }

    /** print_value: what the node and its children show is appended. */
    method PrintValue(h: heap, item: ptr, ghost n: Tree) returns (ok: bool)
      requires Ready() && (item != NULL ==> Shows(h, n) && n.shape.node == item)
      modifies this, buffer
      ensures Appended(ok, item != NULL && CanPrint(codec, n.value), Render(codec, n.value, format, old(depth)))
      decreases n.value, 5
    {
      hide Reads;
      if item == NULL {
        return false;
      }
      Fields(h, n);
      match h[item].kind
      case NoKind => ok := false;
      case NullKind => ok := PrintBytes(NULL_WORD);
      case FalseKind => ok := PrintBytes(FALSE_WORD);
      case TrueKind => ok := PrintBytes(TRUE_WORD);
      case NumberKind => ok := PrintNumber(h[item].number);
      case RawKind =>
        var r := StringAt(h, h[item].text);
        if r.None? {
          return false;
        }
        ok := PrintBytes(r.value);
      case StringKind => ok := PrintString(StringAt(h, h[item].text));
      case ArrayKind => ok := PrintArray(h, item, n);
      case ObjectKind => ok := PrintObject(h, item, n);
    }
  }

  lemma NextKid(h: heap, n: Tree, i: nat)
    requires Shows(h, n) && i <= |n.shape.kids|
    ensures KidNode(n, i) == NULL <==> i == |n.shape.kids|
  {
    hide Reads, Members;
    if i < |n.shape.kids| {
      Walk(h, n, i);
      if i + 1 < |n.shape.kids| {
        Walk(h, n, i + 1);
      }
    }
  }

  /** malloc for the entry points. */
  method Allocate(size: nat) returns (block: array?<byte>)
    ensures block != null ==> fresh(block) && block.Length == size
  {
    if * {
      return null;
    }
    block := new byte[size];
  }

  /**
   cJSON_PrintPreallocated: true exactly when the tree can be printed and the capacity is at least
   the length of the text plus 2; nothing beyond the capacity is written.
   */
  method PrintPreallocated(codec: Codec, h: heap, item: ptr, ghost n: Tree, buffer: array?<byte>, length: int, format: bool)
      returns (ok: bool)
    requires item != NULL ==> Shows(h, n) && n.shape.node == item
    requires buffer != null ==> length <= buffer.Length
    requires length <= INT_MAX
    modifies if buffer == null then {} else {buffer}
    ensures ok <==>
      buffer != null && item != NULL && CanPrint(codec, n.value) && |Render(codec, n.value, format, 0)| + 2 <= length
    ensures ok ==> var t := Render(codec, n.value, format, 0); buffer[..|t|] == t && buffer[|t|] == 0
    ensures buffer != null && length >= 0 ==> buffer[length..] == old(buffer[length..])
  {
    if length < 0 || buffer == null {
      return false;
    }
    var p := new PrintBuffer(buffer, length, true, format, true, codec);
    hide Render, CanPrint;
    ghost var t := Render(codec, n.value, format, 0);
    assert [] + t == t;
    ok := p.PrintValue(h, item, n);
  }

  /** cJSON_PrintBuffered: grows from any initial size, also 0. */
  method PrintBuffered(codec: Codec, h: heap, item: ptr, ghost n: Tree, prebuffer: int, format: bool, canRealloc: bool)
      returns (text: array?<byte>, refused: bool, overread: bool)
    requires item != NULL ==> Shows(h, n) && n.shape.node == item
    requires prebuffer <= INT_MAX
    ensures text != null <==>
      && prebuffer >= 0 && item != NULL && CanPrint(codec, n.value)
      && |Render(codec, n.value, format, 0)| + 2 <= INT_MAX && !refused
    ensures text != null ==> var t := Render(codec, n.value, format, 0);
                             |t| < text.Length && text[..|t|] == t && text[|t|] == 0
    ensures overread ==> prebuffer == 0 && !canRealloc
    ensures text != null ==> (overread <==> prebuffer == 0 && !canRealloc)
  {
    if prebuffer < 0 {
      return null, false, false;
    }
    var block := Allocate(prebuffer);
    if block == null {
      return null, true, false;
    }
    var p := new PrintBuffer(block, prebuffer, false, format, canRealloc, codec);
    hide Render, CanPrint;
    ghost var t := Render(codec, n.value, format, 0);
    assert [] + t == t;
    var ok := p.PrintValue(h, item, n);
    refused, overread := p.refused, p.overread;
    text := if ok then p.buffer else null;
  }

  function Min(a: nat, b: nat): (m: nat) {
    if a < b then a else b
  }

  const DEFAULT_BUFFER_SIZE := 256

  /** cJSON_Print and cJSON_PrintUnformatted: the result is exactly the text and its NUL. */
  method Print(codec: Codec, h: heap, item: ptr, ghost n: Tree, format: bool, canRealloc: bool)
      returns (text: array?<byte>, refused: bool)
    requires item != NULL ==> Shows(h, n) && n.shape.node == item
    ensures text != null <==>
      item != NULL && CanPrint(codec, n.value) && |Render(codec, n.value, format, 0)| + 2 <= INT_MAX && !refused
    ensures text != null ==> text[..] == Render(codec, n.value, format, 0) + [0]
  {
    var block := Allocate(DEFAULT_BUFFER_SIZE);
    if block == null {
      return null, true;
    }
    var p := new PrintBuffer(block, DEFAULT_BUFFER_SIZE, false, format, canRealloc, codec);
    NulFreeRender(codec, n.value, format, 0);
    hide Render, CanPrint;
    ghost var t := Render(codec, n.value, format, 0);
    assert [] + t == t;
    var ok := p.PrintValue(h, item, n);
    if !ok {
      return null, p.refused;
    }
    p.UpdateOffset(p.View().(text := []), t);
    text := Shrink(p, t, canRealloc);
    refused := text == null;
  }

  /** Realloc keeps the contents; otherwise they are copied and a NUL is put behind them. */
  method Shrink(p: PrintBuffer, ghost t: seq<byte>, canRealloc: bool) returns (text: array?<byte>)
    requires p.Ready() && p.offset == |t| < p.length && p.buffer[..|t|] == t && p.buffer[|t|] == 0
    ensures text != null ==> fresh(text) && text[..] == t + [0]
  {
    text := Allocate(p.offset + 1);
    if text == null {
      return;
    }
    assert p.buffer[..|t| + 1] == t + [0];
    PrintBuffer.Copy(text, p.buffer, Min(p.length, p.offset + 1));
    assert text[..] == text[..|t| + 1];
    if !canRealloc {
      text[p.offset] := 0;
    }
  }
}
