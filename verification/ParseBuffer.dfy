/** The recursive-descent parser: its moving offset and depth, and the nodes it allocates. */
module Parsing {
  import opened Text
  import opened Literal
  import opened Numbers
  import opened Json
  import opened Decode
  import opened Heap
  import opened HeapTree
  import opened HeapList
  import J = Json

  function Prefix<T>(xs: seq<T>, r: Parsed<seq<T>>): (p: Parsed<seq<T>>) {
    if r.Fail? then Fail else Ok(xs + r.value, r.rest)
  }

  lemma {:induction false} CloseAtNul(s: seq<byte>)
    ensures CloseAt(s + [0]) == CloseAt(s)
    decreases |s|
  {
    if s != [] && s[0] != QUOTE {
      var n := if s[0] == BACKSLASH then 2 else 1;
      if n <= |s| {
        assert (s + [0])[n..] == s[n..] + [0];
        CloseAtNul(s[n..]);
      } else {
        assert (s + [0])[n..] == [];
      }
    }
  }

  /** Array elements carry no keys, here and below. */
  predicate Keyless(sh: Shape, v: Item)
    decreases sh
  {
    && |sh.kids| == |KidsOf(v)|
    && forall i :: 0 <= i < |sh.kids| ==> (v.Array? ==> sh.kids[i].key == NULL) && Keyless(sh.kids[i], KidsOf(v)[i].value)
  }

  predicate KeylessKids(shs: seq<Shape>, ms: seq<Member>, bare: bool) {
    && |shs| == |ms|
    && forall i :: 0 <= i < |shs| ==> (bare ==> shs[i].key == NULL) && Keyless(shs[i], ms[i].value)
  }

  lemma NoneListed()
    ensures First([]) == NULL && Last([]) == NULL
  {
  }

  lemma NoKeylessKids()
    ensures KeylessKids([], [], true) && KeylessKids([], [], false)
  {
  }

  lemma OneMoreKeyless(shs: seq<Shape>, ms: seq<Member>, sh: Shape, m: Member, bare: bool)
    requires Keyless(sh, m.value) && (bare ==> sh.key == NULL)
    ensures KeylessKids(shs, ms, bare) ==> KeylessKids(shs + [sh], ms + [m], bare)
  {
    hide Keyless;
  }

  class ParseBuffer {
    const content: seq<byte>
    const codec: Codec
    const mem: Memory
    var offset: nat
    var depth: nat

    /** The input is a C string together with its terminator. */
    ghost predicate Valid()
      reads this
    {
      && |content| > 0 && content[|content| - 1] == 0 && NulFree(content[..|content| - 1])
      && offset < |content| && depth <= NESTING_LIMIT
    }

    /** The text from position `i` up to the terminator. */
    ghost function From(i: nat): (s: seq<byte>)
      requires i < |content|
    {
      content[i..|content| - 1]
    }

    ghost function Rest(): (s: seq<byte>)
      requires Valid()
      reads this
    {
      From(offset)
    }

    constructor (text: cstring, codec: Codec, mem: Memory)
      ensures Valid() && content == text + [0] && this.codec == codec && this.mem == mem
      ensures offset == 0 && depth == 0
    {
      content, this.codec, this.mem, offset, depth := text + [0], codec, mem, 0, 0;
      new;
      assert content[..|content| - 1] == text;
    }

    lemma FromStep(i: nat)
      requires i + 1 < |content|
      ensures From(i) != [] && From(i)[0] == content[i] && From(i)[1..] == From(i + 1)
    {
    }

    lemma FromEnd()
      requires |content| > 0
      ensures From(|content| - 1) == []
    {
    }

    /** The current byte tells whether the text has ended. */
    lemma Current()
      requires Valid()
      ensures content[offset] == 0 <==> Rest() == []
      ensures Rest() != [] ==> Rest()[0] == content[offset] && offset + 1 < |content| && From(offset + 1) == Rest()[1..]
    {
      if offset + 1 < |content| {
        assert content[..|content| - 1][offset] == content[offset];
      }
    }

    /** Skips a byte order mark that is followed by at least one more byte. */
    method SkipBom()
      requires Valid() && offset == 0
      modifies this`offset
      ensures Valid() && Rest() == J.SkipBom(old(Rest()))
    {
      ghost var s := Rest();
      if 4 < |content| && content[..3] == BOM {
        assert s[..3] == BOM;
        offset := 3;
        assert Rest() == s[3..];
      } else if |s| >= 4 {
        assert s[..3] == content[..3];
      }
    }

    method SkipWhitespace()
      requires Valid()
      modifies this`offset
      ensures Valid() && offset >= old(offset) && Rest() == SkipWs(old(Rest()))
    {
      ghost var s := Rest();
      while offset < |content| && content[offset] <= 32
        invariant old(offset) <= offset <= |content|
        invariant offset < |content| ==> SkipWs(From(offset)) == SkipWs(s)
        invariant offset == |content| ==> SkipWs(s) == []
      {
        if offset + 1 < |content| {
          FromStep(offset);
        } else {
          FromEnd();
        }
        offset := offset + 1;
      }
      if offset == |content| {
        offset := offset - 1;
        FromEnd();
      } else {
        Current();
      }
    }

    /** can_read and strncmp. */
    method Matches(w: seq<byte>) returns (b: bool)
      requires Valid() && NulFree(w) && w != []
      ensures b <==> StartsWith(Rest(), w)
      ensures b ==> offset + |w| < |content| && From(offset + |w|) == Rest()[|w|..]
    {
      b := offset + |w| <= |content| && content[offset..offset + |w|] == w;
      if b {
        assert content[offset..offset + |w|][|w| - 1] == w[|w| - 1];
        assert Rest()[..|w|] == w;
      }
      assert |w| <= |Rest()| ==> Rest()[..|w|] == content[offset..offset + |w|];
    }

    method ParseString(item: ptr) returns (ok: bool, ghost p: ptr, ghost bytes: seq<byte>)
      requires Valid() && mem.Valid() && !mem.refused && IsNode(mem.blocks, item)
      modifies this`offset, mem
      ensures mem.Valid()
      ensures ok <==> J.ParseString(old(Rest())).Ok? && !mem.refused
      ensures ok ==> && Valid() && offset > old(offset) && Rest() == J.ParseString(old(Rest())).rest
                     && p != NULL && p !in old(mem.blocks) && CString(bytes) == J.ParseString(old(Rest())).value
                     && mem.blocks == old(mem.blocks)[p := Chars(bytes)]
                                      [item := old(mem.blocks)[item].(kind := StringKind, text := p)]
      ensures !ok ==> mem.blocks == old(mem.blocks) && offset <= |content|
    {
      hide CloseAt, Unescape, MidAfter, Skips;
      ghost var s := Rest();
      ghost var h := mem.blocks;
      p, bytes := NULL, [];
      Current();
      var start := offset + 1;
      if content[offset] != QUOTE {
        offset := start;
        return false, NULL, [];
      }
      assert content[start..] == s[1..] + [0];
      CloseAtNul(s[1..]);
      var found, end, skipped := FindClose(content, start);
      if !found {
        offset := start;
        return false, NULL, [];
      }
      assert content[start..end] == s[1..1 + (end - start)];
      var block := mem.Allocate(Chars([]));
      if block == NULL {
        offset := start;
        return false, NULL, [];
      }
      assert content[..end + 1][start..end] == content[start..end];
      var good, out, stop := DecodeBody(content[..end + 1], start, end, skipped);
      if !good {
        mem.Free(block);
        assert mem.blocks == h;
        offset := stop;
        return false, NULL, [];
      }
      mem.blocks := mem.blocks[block := Chars(out)][item := mem.blocks[item].(kind := StringKind, text := block)];
      p, bytes, ok := block, out, true;
      offset := end + 1;
      assert Rest() == s[end - start + 2..];
    }

    /** Copies the number into a buffer of 64 bytes and lets strtod read it. */
    method ParseNumber(item: ptr) returns (ok: bool)
      requires Valid() && IsNode(mem.blocks, item)
      modifies this`offset, mem`blocks
      ensures ok <==> J.ParseNumber(codec, old(Rest())).Ok?
      ensures ok ==> && Valid() && offset > old(offset) && Rest() == J.ParseNumber(codec, old(Rest())).rest
                     && J.ParseNumber(codec, old(Rest())).value.Number?
                     && var d := J.ParseNumber(codec, old(Rest())).value.value;
                     && mem.blocks == old(mem.blocks)[item := old(mem.blocks)[item].(kind := NumberKind,
                                        number := d, integer := Saturate(d))]
      ensures !ok ==> mem.blocks == old(mem.blocks) && offset == old(offset)
    {
      ghost var s := Rest();
      var run := CopyNumber();
      var read := Strtod(codec, run);
      if read.None? {
        return false;
      }
      var d := read.value.0;
      mem.blocks := mem.blocks[item := mem.blocks[item].(kind := NumberKind, number := d, integer := Saturate(d))];
      offset := offset + read.value.1;
      assert Rest() == s[read.value.1..];
      ok := true;
    }

    /** Copies the number bytes that come next into a buffer of 64 bytes. */
    method CopyNumber() returns (run: seq<byte>)
      requires Valid()
      ensures run == NumberRun(Rest(), NUMBER_ROOM)
    {
      hide NumberRun, From, NumberByte;
      ghost var s := Rest();
      var buffer := new byte[64];
      var i := 0;
      NulIsNoNumber();
      RestAt(0);
      while i < NUMBER_ROOM && offset + i < |content| && NumberByte(content[offset + i])
        invariant 0 <= i <= NUMBER_ROOM && i <= |s|
        invariant forall k :: 0 <= k < i ==> buffer[k] == s[k] && NumberByte(s[k])
      {
        RestAt(i);
        buffer[i] := content[offset + i];
        i := i + 1;
      }
      if offset + i < |content| {
        RestAt(i);
      }
      NumberRunExact(s[..i], s[i..], NUMBER_ROOM);
      assert s == s[..i] + s[i..];
      buffer[i] := 0;
      run := buffer[..i];
      assert run == s[..i];
    }

    lemma RestAt(i: nat)
      requires Valid() && offset + i < |content|
      ensures |Rest()| == |content| - 1 - offset && (i == |Rest()| <==> content[offset + i] == 0)
      ensures i < |Rest()| ==> Rest()[i] == content[offset + i]
    {
      assert i < |Rest()| ==> content[..|content| - 1][offset + i] != 0;
    }

    /**
     What parsing a value promises: it follows the reference parser unless an allocation was turned
     down; on success the node represents the value and exactly its blocks are new, on failure the
     heap is as it was.
     */
    twostate predicate Outcome(ok: bool, item: ptr, key: Option<cstring>, sh: Shape, spec: Parsed<Item>)
      reads this, mem
    {
      && mem.Valid()
      && (ok <==> spec.Ok? && !mem.refused)
      && (ok ==> && Valid() && depth == old(depth) && offset > old(offset) && Rest() == spec.rest && sh.node == item
                 && Filled(old(mem.blocks), mem.blocks, sh, key, spec.value) && Keyless(sh, spec.value))
      && (!ok ==> mem.blocks == old(mem.blocks) && offset <= |content|)
    }

    ghost predicate Ready()
      reads this, mem
    {
      Valid() && mem.Valid() && !mem.refused
    }

    method ParseValue(item: ptr, ghost key: Option<cstring>) returns (ok: bool, ghost sh: Shape)
      requires Ready() && Blank(mem.blocks, item, key)
      modifies this, mem
      ensures Outcome(ok, item, key, sh, J.ParseValue(codec, old(Rest()), old(depth)))
      decreases |content| - offset, 3
    {
      sh := Leaf(item, mem.blocks[item].key);
      var nothing := Matches(NULL_WORD);
      if nothing {
        ok := SetLiteral(item, key, Null, NULL_WORD);
        return;
      }
      var no := Matches(FALSE_WORD);
      if no {
        ok := SetLiteral(item, key, False, FALSE_WORD);
        return;
      }
      var yes := Matches(TRUE_WORD);
      if yes {
        ok := SetLiteral(item, key, True, TRUE_WORD);
        return;
      }
      Current();
      if content[offset] == QUOTE {
        ok, sh := ParseStringValue(item, key);
      } else if content[offset] == MINUS || IsDigit(content[offset]) {
        ok := ParseNumberValue(item, key);
      } else if content[offset] == LBRACKET {
        ok, sh := ParseArray(item, key);
      } else if content[offset] == LBRACE {
        ok, sh := ParseObject(item, key);
      } else {
        ok := false;
      }
    }

    method SetLiteral(item: ptr, ghost key: Option<cstring>, v: Item, w: seq<byte>) returns (ok: bool)
      requires Ready() && Blank(mem.blocks, item, key) && (v.Null? || v.False? || v.True?)
      requires 0 < |w| && offset + |w| < |content| && |w| <= |Rest()| && From(offset + |w|) == Rest()[|w|..]
      modifies this`offset, mem
      ensures ok && Outcome(ok, item, key, Leaf(item, old(mem.blocks)[item].key), Ok(v, old(Rest())[|w|..]))
      ensures v.True? ==> mem.blocks[item].integer == 1
    {
      var node := mem.blocks[item].(kind := KindOf(v), integer := if v.True? then 1 else mem.blocks[item].integer);
      FillLeaf(mem.blocks, item, key, v, node);
      mem.blocks := mem.blocks[item := node];
      offset := offset + |w|;
      ok := true;
    }

    method ParseStringValue(item: ptr, ghost key: Option<cstring>) returns (ok: bool, ghost sh: Shape)
      requires Ready() && Blank(mem.blocks, item, key)
      modifies this`offset, mem
      ensures var r := J.ParseString(old(Rest()));
              Outcome(ok, item, key, sh, if r.Ok? then Ok(String(Some(r.value)), r.rest) else Fail)
    {
      hide J.ParseString;
      ghost var h := mem.blocks;
      ghost var p, bytes;
      ok, p, bytes := ParseString(item);
      sh := Shape(item, p, h[item].key, []);
      if ok {
        FillString(h, item, key, p, bytes);
      }
    }

    method ParseNumberValue(item: ptr, ghost key: Option<cstring>) returns (ok: bool)
      requires Ready() && Blank(mem.blocks, item, key)
      modifies this`offset, mem
      ensures Outcome(ok, item, key, Leaf(item, old(mem.blocks)[item].key), J.ParseNumber(codec, old(Rest())))
    {
      hide J.ParseNumber, Filled, Blank;
      ghost var h := mem.blocks;
      BlankNode(h, item, key);
      ghost var spec := J.ParseNumber(codec, Rest());
      ok := ParseNumber(item);
      if ok {
        FillLeaf(h, item, key, spec.value, mem.blocks[item]);
      }
    }

    /** cJSON_New_Item, linked behind the tail of the list. */
    method Append(tail: ptr) returns (p: ptr)
      requires mem.Valid() && (tail != NULL ==> IsNode(mem.blocks, tail))
      modifies mem
      ensures mem.Valid()
      ensures p == NULL ==> mem.refused && mem.blocks == old(mem.blocks)
      ensures p != NULL ==> && p !in old(mem.blocks) && mem.refused == old(mem.refused)
                            && mem.blocks == Linkup(old(mem.blocks), tail, p)
    {
      p := mem.Allocate(BLANK);
      if p != NULL && tail != NULL {
        mem.blocks := mem.blocks[tail := mem.blocks[tail].(next := p)];
        mem.blocks := mem.blocks[p := mem.blocks[p].(prev := tail)];
      }
    }

    /** Steps into a container: past a closing byte at once, or back to the byte before the first element. */
    method Open(close: byte) returns (empty: bool)
      requires Valid() && Rest() != [] && depth < NESTING_LIMIT && close > 32
      modifies this
      ensures Valid() && depth == old(depth) + 1 && offset >= old(offset) && offset + 1 < |content|
      ensures var r := SkipWs(old(Rest())[1..]);
              && (empty <==> r != [] && r[0] == close)
              && (empty ==> content[offset] == close && From(offset + 1) == r[1..])
              && (!empty ==> From(offset + 1) == r)
    {
      Current();
      depth := depth + 1;
      offset := offset + 1;
      SkipWhitespace();
      Current();
      empty := content[offset] == close;
      if !empty {
        offset := offset - 1;
      }
    }

    method ParseArray(item: ptr, ghost key: Option<cstring>) returns (ok: bool, ghost sh: Shape)
      requires Ready() && Blank(mem.blocks, item, key) && Rest() != [] && Rest()[0] == LBRACKET
      modifies this, mem
      ensures Outcome(ok, item, key, sh, J.ParseArray(codec, old(Rest()), old(depth)))
      decreases |content| - offset, 2
    {
      hide J.ParseArray, J.ParseElements, Building, Filled, Blank, KidsOf, Keyless, KeylessKids, First, Last, SkipWs;
      sh := Leaf(item, NULL);
      ghost var base := mem.blocks;
      ArrayUnfold(codec, Rest(), depth);
      if depth >= NESTING_LIMIT {
        return false, sh;
      }
      var empty := Open(RBRACKET);
      if empty {
        EmptyList(base);
        NoKeylessKids();
        NoKids();
        NoneListed();
        sh := Close(base, item, key, NULL, NULL, ArrayKind, [], [], Array([]));
        return true, sh;
      }
      var head, tail;
      ghost var shs, vs, ms;
      ok, head, tail, shs, vs, ms := ParseElements(base);
      if ok {
        sh := Close(base, item, key, head, tail, ArrayKind, shs, ms, Array(vs));
      } else {
        DeleteList(base, head, shs, ms);
      }
    }

    /** The failure exit: cJSON_Delete on the list built so far. */
    method DeleteList(ghost base: heap, head: ptr, ghost shs: seq<Shape>, ghost ms: seq<Member>)
      requires Building(base, mem.blocks, shs, ms) && head == First(shs)
      modifies mem`blocks
      ensures mem.blocks == base
    {
      Discard(base, mem.blocks, shs, ms);
      if head != NULL {
        mem.Delete(head, shs);
      }
    }

    /** The success exit: the head's prev becomes the tail, and the container gets its list. */
    method Close(ghost base: heap, item: ptr, ghost key: Option<cstring>, head: ptr, tail: ptr,
                 kind: Kind, ghost shs: seq<Shape>, ghost ms: seq<Member>, ghost v: Item) returns (ghost sh: Shape)
      requires Ready() && depth > 0 && offset + 1 < |content|
      requires Building(base, mem.blocks, shs, ms) && |shs| == |ms| && Blank(base, item, key)
      requires head == First(shs) && tail == Last(shs) && (v.Array? || v.Object?) && KidsOf(v) == ms && kind == KindOf(v)
      requires KeylessKids(shs, ms, v.Array?)
      modifies this, mem`blocks
      ensures Ready() && depth == old(depth) - 1 && offset == old(offset) + 1 && Rest() == From(old(offset) + 1)
      ensures sh.node == item && Filled(base, mem.blocks, sh, key, v) && Keyless(sh, v)
    {
      hide Building, Filled, KidsOf, Agrees;
      KidsFit(mem.blocks, shs, v);
      Finish(base, mem.blocks, shs, ms, item, key, v);
      depth := depth - 1;
      if shs != [] {
        HeadListed(base, mem.blocks, shs, ms);
      }
      if head != NULL {
        mem.blocks := mem.blocks[head := mem.blocks[head].(prev := tail)];
      }
      sh := Shape(item, NULL, base[item].key, shs);
      mem.blocks := mem.blocks[item := mem.blocks[item].(kind := kind, child := head)];
      offset := offset + 1;
    }

    /** A new node at the end of the list under construction. */
    method AddChild(ghost base: heap, tail: ptr, ghost shs: seq<Shape>, ghost ms: seq<Member>) returns (p: ptr)
      requires mem.Valid() && Building(base, mem.blocks, shs, ms) && |shs| == |ms| && tail == Last(shs)
      modifies mem
      ensures mem.Valid()
      ensures p == NULL ==> mem.refused && mem.blocks == old(mem.blocks)
      ensures p != NULL ==> && mem.refused == old(mem.refused) && Building(base, mem.blocks, shs + [Leaf(p, NULL)], ms)
                            && Blank(mem.blocks, p, None) && mem.blocks[p].key == NULL
    {
      hide Building;
      if shs != [] {
        HeadListed(base, mem.blocks, shs, ms);
      }
      ghost var h := mem.blocks;
      p := Append(tail);
      if p != NULL {
        Attach(base, h, shs, ms, p);
        NewNodeBlank(h, tail, p);
      }
    }

    /** One array element: a new node, filled from the text after the byte at the offset. */
    method ParseElement(ghost base: heap, tail: ptr, ghost shs: seq<Shape>, ghost ms: seq<Member>)
        returns (ok: bool, p: ptr, ghost all: seq<Shape>, ghost done: seq<Member>)
      requires Ready() && Building(base, mem.blocks, shs, ms) && |shs| == |ms| && tail == Last(shs)
      requires offset + 1 < |content|
      modifies this, mem
      ensures mem.Valid() && Building(base, mem.blocks, all, done)
      ensures p == NULL ==> all == shs
      ensures p != NULL ==> Last(all) == p && First(all) == if First(shs) == NULL then p else First(shs)
      ensures var spec := J.ParseValue(codec, SkipWs(From(old(offset) + 1)), old(depth));
              && (ok <==> spec.Ok? && !mem.refused)
              && (ok ==> && Ready() && depth == old(depth) && offset > old(offset) && Rest() == SkipWs(spec.rest)
                         && p != NULL && done == ms + [Member(None, spec.value)] && |all| == |done|
                         && (KeylessKids(shs, ms, true) ==> KeylessKids(all, done, true)))
      ensures !ok ==> offset <= |content|
      decreases |content| - offset, 0
    {
      hide J.ParseValue, Building, Filled, Blank, KidsOf, Keyless, KeylessKids;
      all, done := shs, ms;
      if shs != [] {
        HeadListed(base, mem.blocks, shs, ms);
      }
      p := AddChild(base, tail, shs, ms);
      if p == NULL {
        return false, NULL, shs, ms;
      }
      ghost var pending := shs + [Leaf(p, NULL)];
      ghost var h := mem.blocks;
      offset := offset + 1;
      SkipWhitespace();
      ghost var spec := J.ParseValue(codec, Rest(), depth);
      ghost var sh;
      ok, sh := ParseValue(p, None);
      all := pending;
      if ok {
        FilledKey(h, mem.blocks, sh, None, spec.value);
        Fill(base, h, mem.blocks, pending, ms, sh, Member(None, spec.value));
        OneMoreKeyless(shs, ms, sh, Member(None, spec.value), true);
        assert pending[..|ms|] == shs;
        all, done := shs + [sh], ms + [Member(None, spec.value)];
        SkipWhitespace();
      }
    }

    /** The comma-separated values after the byte at the offset, up to the closing bracket. */
    method ParseElements(ghost base: heap)
        returns (ok: bool, head: ptr, tail: ptr, ghost shs: seq<Shape>, ghost vs: seq<Item>, ghost ms: seq<Member>)
      requires Ready() && base == mem.blocks && offset + 1 < |content|
      modifies this, mem
      ensures mem.Valid() && Building(base, mem.blocks, shs, ms) && head == First(shs) && tail == Last(shs)
      ensures ok <==> J.ParseElements(codec, From(old(offset) + 1), old(depth)).Ok? && !mem.refused
      ensures ok ==> && Valid() && depth == old(depth) && offset > old(offset) && offset + 1 < |content|
                     && content[offset] == RBRACKET && |shs| == |ms| && ms == KidsOf(Array(vs)) && KeylessKids(shs, ms, true)
                     && J.ParseElements(codec, From(old(offset) + 1), old(depth)) == Ok(vs, From(offset + 1))
      ensures !ok ==> offset <= |content|
      decreases |content| - offset, 1
    {
      hide J.ParseElements, J.ParseValue, Building, KidsOf, Keyless, KeylessKids;
      ghost var spec := J.ParseElements(codec, From(offset + 1), depth);
      ok, head, tail, shs, vs, ms := true, NULL, NULL, [], [], [];
      EmptyList(base);
      NoKeylessKids();
      NoKids();
      NothingDone(spec);
      var more := true;
      while more
        invariant Ready() && depth == old(depth) && offset >= old(offset)
        invariant Building(base, mem.blocks, shs, ms) && head == First(shs) && tail == Last(shs)
        invariant |shs| == |ms| && ms == KidsOf(Array(vs)) && KeylessKids(shs, ms, true)
        invariant more ==> offset + 1 < |content| && spec == Prefix(vs, J.ParseElements(codec, From(offset + 1), depth))
        invariant !more ==> offset > old(offset)
        invariant !more && content[offset] == RBRACKET ==> offset + 1 < |content| && spec == Ok(vs, From(offset + 1))
        invariant !more && content[offset] != RBRACKET ==> spec.Fail?
        decreases more, |content| - offset
      {
        ghost var s := From(offset + 1);
        ghost var value := J.ParseValue(codec, SkipWs(s), depth);
        ghost var n := |shs|;
        ElementsUnfold(codec, s, depth, vs);
        var p;
        ok, p, shs, ms := ParseElement(base, tail, shs, ms);
        if p != NULL {
          head := if head == NULL then p else head;
          tail := p;
        }
        if !ok {
          return;
        }
        MoreKids(vs, value.value);
        vs := vs + [value.value];
        Current();
        more := content[offset] == COMMA;
      }
      ok := content[offset] == RBRACKET;
    }

    method ParseObject(item: ptr, ghost key: Option<cstring>) returns (ok: bool, ghost sh: Shape)
      requires Ready() && Blank(mem.blocks, item, key) && Rest() != [] && Rest()[0] == LBRACE
      modifies this, mem
      ensures Outcome(ok, item, key, sh, J.ParseObject(codec, old(Rest()), old(depth)))
      decreases |content| - offset, 2
    {
      hide J.ParseObject, J.ParseMembers, Building, Filled, Blank, KidsOf, Keyless, KeylessKids, First, Last, SkipWs;
      sh := Leaf(item, NULL);
      ghost var base := mem.blocks;
      ObjectUnfold(codec, Rest(), depth);
      if depth >= NESTING_LIMIT {
        return false, sh;
      }
      var empty := Open(RBRACE);
      if empty {
        EmptyList(base);
        NoKeylessKids();
        NoKids();
        NoneListed();
        sh := Close(base, item, key, NULL, NULL, ObjectKind, [], [], Object([]));
        return true, sh;
      }
      var head, tail;
      ghost var shs, ms;
      ok, head, tail, shs, ms := ParseMembers(base);
      if ok {
        ObjectKids(ms);
        sh := Close(base, item, key, head, tail, ObjectKind, shs, ms, Object(ms));
      } else {
        DeleteList(base, head, shs, ms);
      }
    }

    /** The name of the pending last node: parsed as a string, then moved to the key. */
    method ParseKey(ghost base: heap, p: ptr, ghost shs: seq<Shape>, ghost ms: seq<Member>) returns (ok: bool, ghost q: ptr)
      requires Ready() && Building(base, mem.blocks, shs + [Leaf(p, NULL)], ms) && |shs| == |ms|
      requires Blank(mem.blocks, p, None) && mem.blocks[p].key == NULL
      modifies this`offset, mem
      ensures mem.Valid() && (ok <==> J.ParseString(old(Rest())).Ok? && !mem.refused)
      ensures ok ==> && Ready() && offset > old(offset) && Rest() == J.ParseString(old(Rest())).rest
                     && Building(base, mem.blocks, shs + [Leaf(p, q)], ms)
                     && Blank(mem.blocks, p, Some(J.ParseString(old(Rest())).value)) && mem.blocks[p].key == q
      ensures !ok ==> mem.blocks == old(mem.blocks) && offset <= |content|
    {
      hide J.ParseString, Building;
      ghost var h := mem.blocks;
      ghost var pending := shs + [Leaf(p, NULL)];
      ghost var bytes;
      ok, q, bytes := ParseString(p);
      if ok {
        mem.blocks := mem.blocks[p := mem.blocks[p].(key := mem.blocks[p].text, text := NULL)];
        ghost var node := h[p].(kind := StringKind, key := q);
        assert mem.blocks == h[q := Chars(bytes)][p := node];
        Name(base, h, pending, ms, p, q, bytes, node);
        assert pending[..|ms|] == shs;
      }
    }

    /** One member: a new node, named and filled from the text after the byte at the offset. */
    method ParseMember(ghost base: heap, tail: ptr, ghost shs: seq<Shape>, ghost ms: seq<Member>)
        returns (ok: bool, p: ptr, ghost all: seq<Shape>, ghost done: seq<Member>)
      requires Ready() && Building(base, mem.blocks, shs, ms) && |shs| == |ms| && tail == Last(shs)
      requires offset + 1 < |content|
      modifies this, mem
      ensures mem.Valid() && Building(base, mem.blocks, all, done)
      ensures p == NULL ==> all == shs
      ensures p != NULL ==> Last(all) == p && First(all) == if First(shs) == NULL then p else First(shs)
      ensures var spec := J.ParseMember(codec, From(old(offset) + 1), old(depth));
              && (ok <==> spec.Ok? && !mem.refused)
              && (ok ==> && Ready() && depth == old(depth) && offset > old(offset) && Rest() == SkipWs(spec.rest)
                         && p != NULL && done == ms + [spec.value] && |all| == |done|
                         && (KeylessKids(shs, ms, false) ==> KeylessKids(all, done, false)))
      ensures !ok ==> offset <= |content|
      decreases |content| - offset, 0
    {
      hide J.ParseMember, J.ParseString, J.ParseValue, Building, Filled, Blank, KidsOf, First, Last, From, KeylessKids;
      done := ms;
      MemberUnfold(codec, From(offset + 1), depth);
      ghost var q, name;
      ok, p, q, name, all := ParseName(base, tail, shs, ms);
      if ok {
        ok, all, done := ParseNamed(base, p, q, name, shs, ms);
      }
    }

    /** A new node with its name, up to the value behind the colon. */
    method ParseName(ghost base: heap, tail: ptr, ghost shs: seq<Shape>, ghost ms: seq<Member>)
        returns (ok: bool, p: ptr, ghost q: ptr, ghost name: cstring, ghost all: seq<Shape>)
      requires Ready() && Building(base, mem.blocks, shs, ms) && |shs| == |ms| && tail == Last(shs)
      requires offset + 1 < |content|
      modifies this`offset, mem
      ensures mem.Valid() && Building(base, mem.blocks, all, ms) && all == if p == NULL then shs else shs + [Leaf(p, q)]
      ensures p != NULL ==> Last(all) == p && First(all) == if First(shs) == NULL then p else First(shs)
      ensures var k := J.ParseString(SkipWs(From(old(offset) + 1)));
              var r := if k.Ok? then SkipWs(k.rest) else [];
              && (ok <==> r != [] && r[0] == COLON && !mem.refused)
              && (ok ==> && Ready() && offset > old(offset) && Rest() == SkipWs(r[1..]) && name == k.value
                         && p != NULL && Blank(mem.blocks, p, Some(name)) && mem.blocks[p].key == q)
      ensures !ok ==> offset <= |content|
    {
      hide J.ParseString, Building, Blank;
      q, name, all := NULL, [], shs;
      if shs != [] {
        HeadListed(base, mem.blocks, shs, ms);
      }
      p := AddChild(base, tail, shs, ms);
      if p == NULL {
        return false, NULL, NULL, [], shs;
      }
      all := shs + [Leaf(p, NULL)];
      offset := offset + 1;
      SkipWhitespace();
      ghost var k := J.ParseString(Rest());
      ok, q := ParseKey(base, p, shs, ms);
      if !ok {
        q := NULL;
        return;
      }
      all, name := shs + [Leaf(p, q)], k.value;
      ok := ExpectColon();
    }

    /** A colon between blanks. */
    method ExpectColon() returns (ok: bool)
      requires Valid()
      modifies this`offset
      ensures Valid() && offset >= old(offset)
      ensures var r := SkipWs(old(Rest()));
              (ok <==> r != [] && r[0] == COLON) && (ok ==> Rest() == SkipWs(r[1..]))
    {
      SkipWhitespace();
      Current();
      ok := content[offset] == COLON;
      if ok {
        offset := offset + 1;
        SkipWhitespace();
      }
    }

    /** The value of the named pending node. */
    method ParseNamed(ghost base: heap, p: ptr, ghost q: ptr, ghost key: cstring, ghost shs: seq<Shape>, ghost ms: seq<Member>)
        returns (ok: bool, ghost all: seq<Shape>, ghost done: seq<Member>)
      requires Ready() && Building(base, mem.blocks, shs + [Leaf(p, q)], ms) && |shs| == |ms|
      requires Blank(mem.blocks, p, Some(key)) && mem.blocks[p].key == q
      modifies this, mem
      ensures mem.Valid() && Building(base, mem.blocks, all, done)
      ensures Last(all) == Last(shs + [Leaf(p, q)]) && First(all) == First(shs + [Leaf(p, q)])
      ensures var spec := J.ParseValue(codec, old(Rest()), old(depth));
              && (ok <==> spec.Ok? && !mem.refused)
              && (ok ==> && Ready() && depth == old(depth) && offset > old(offset) && Rest() == SkipWs(spec.rest)
                         && done == ms + [Member(Some(key), spec.value)] && |all| == |done|
                         && (KeylessKids(shs, ms, false) ==> KeylessKids(all, done, false)))
      ensures !ok ==> offset <= |content|
      decreases |content| - offset, 4
    {
      hide J.ParseValue, Building, Keyless, KeylessKids;
      ghost var h := mem.blocks;
      ghost var pending := shs + [Leaf(p, q)];
      ghost var spec := J.ParseValue(codec, Rest(), depth);
      all, done := pending, ms;
      ghost var sh;
      ok, sh := ParseValue(p, Some(key));
      if ok {
        FilledSameKey(h, mem.blocks, sh, Some(key), spec.value);
        Fill(base, h, mem.blocks, pending, ms, sh, Member(Some(key), spec.value));
        OneMoreKeyless(shs, ms, sh, Member(Some(key), spec.value), false);
        assert pending[..|ms|] == shs;
        all, done := shs + [sh], ms + [Member(Some(key), spec.value)];
        SkipWhitespace();
      }
    }

    /** The comma-separated members after the byte at the offset, up to the closing brace. */
    method ParseMembers(ghost base: heap)
        returns (ok: bool, head: ptr, tail: ptr, ghost shs: seq<Shape>, ghost ms: seq<Member>)
      requires Ready() && base == mem.blocks && offset + 1 < |content|
      modifies this, mem
      ensures mem.Valid() && Building(base, mem.blocks, shs, ms) && head == First(shs) && tail == Last(shs)
      ensures ok <==> J.ParseMembers(codec, From(old(offset) + 1), old(depth)).Ok? && !mem.refused
      ensures ok ==> && Valid() && depth == old(depth) && offset > old(offset) && offset + 1 < |content|
                     && content[offset] == RBRACE && |shs| == |ms| && KeylessKids(shs, ms, false)
                     && J.ParseMembers(codec, From(old(offset) + 1), old(depth)) == Ok(ms, From(offset + 1))
      ensures !ok ==> offset <= |content|
      decreases |content| - offset, 1
    {
      hide J.ParseMembers, J.ParseMember, Building, KeylessKids;
      ghost var spec := J.ParseMembers(codec, From(offset + 1), depth);
      ok, head, tail, shs, ms := true, NULL, NULL, [], [];
      EmptyList(base);
      NoKeylessKids();
      NothingDone(spec);
      var more := true;
      while more
        invariant Ready() && depth == old(depth) && offset >= old(offset)
        invariant Building(base, mem.blocks, shs, ms) && head == First(shs) && tail == Last(shs) && |shs| == |ms|
        invariant KeylessKids(shs, ms, false)
        invariant more ==> offset + 1 < |content| && spec == Prefix(ms, J.ParseMembers(codec, From(offset + 1), depth))
        invariant !more ==> offset > old(offset)
        invariant !more && content[offset] == RBRACE ==> offset + 1 < |content| && spec == Ok(ms, From(offset + 1))
        invariant !more && content[offset] != RBRACE ==> spec.Fail?
        decreases more, |content| - offset
      {
        MembersUnfold(codec, From(offset + 1), depth, ms);
        var p;
        ok, p, shs, ms := ParseMember(base, tail, shs, ms);
        if p != NULL {
          head := if head == NULL then p else head;
          tail := p;
        }
        if !ok {
          return;
        }
        Current();
        more := content[offset] == COMMA;
      }
      ok := content[offset] == RBRACE;
    }

    /** The whole value behind a mark and whitespace, in a new root node; the node is deleted on failure. */
    method ParseRoot(item: ptr, ghost base: heap) returns (ok: bool, ghost sh: Shape)
      requires Ready() && offset == 0 && depth == 0 && item != NULL && item !in base && mem.blocks == base[item := BLANK]
      modifies this, mem
      ensures mem.Valid()
      ensures var spec := J.ParseValue(codec, SkipWs(J.SkipBom(old(Rest()))), 0);
              && (ok <==> spec.Ok? && !mem.refused)
              && (ok ==> && Valid() && Rest() == spec.rest && sh.node == item && Keyless(sh, spec.value)
                         && Grown(base, mem.blocks, sh, spec.value)
                         && Chain(mem.blocks, item, [sh]) && SeparateAll([sh]) && mem.blocks - OwnedAll([sh]) == base)
      ensures !ok ==> mem.blocks == base && offset <= |content|
    {
      hide J.ParseValue, Rep, Owned, OwnedAll, Separate, SeparateAll, Chain, Keyless, Filled, Blank, Grown;
      NewNodeBlank(base, NULL, item);
      SkipBom();
      SkipWhitespace();
      ghost var spec := J.ParseValue(codec, Rest(), 0);
      ok, sh := ParseValue(item, None);
      if ok {
        RootGrown(base, item, mem.blocks, sh, spec.value);
      } else {
        RootBlank(base, item);
        mem.Delete(item, [Leaf(item, NULL)]);
      }
    }
  }

  /** The tree at `sh` represents `v`, and its blocks are exactly what `k` has beyond `h`. */
  ghost predicate Grown(h: heap, k: heap, sh: Shape, v: Item) {
    && Rep(k, sh, None, v) && Separate(sh) && Owned(sh) !! h.Keys && k.Keys == h.Keys + Owned(sh)
    && SameOn(h, k, h.Keys)
  }

  /**
   cJSON_ParseWithOpts. It succeeds exactly when the reference parser does and no allocation was
   turned down. Then the new blocks are those of the result, and deleting it restores the heap;
   otherwise the heap is as it was and the reported position lies inside the input.
   */
  method Parse(text: cstring, codec: Codec, mem: Memory, whole: bool) returns (item: ptr, end: nat, ghost sh: Shape)
    requires mem.Valid() && !mem.refused
    modifies mem
    ensures mem.Valid() && end <= |text|
    ensures item != NULL <==> ParseText(codec, text, whole).Ok? && !mem.refused
    ensures item != NULL ==> && sh.node == item && Grown(old(mem.blocks), mem.blocks, sh, ParseText(codec, text, whole).value)
                             && Keyless(sh, ParseText(codec, text, whole).value) && text[end..] == ParseText(codec, text, whole).rest
                             && Chain(mem.blocks, item, [sh]) && SeparateAll([sh])
                             && mem.blocks - OwnedAll([sh]) == old(mem.blocks)
    ensures item == NULL ==> mem.blocks == old(mem.blocks)
  {
    hide J.ParseValue, Rep, Owned, OwnedAll, Separate, SeparateAll, Chain, Keyless, Filled, Blank, Grown, Owns, SkipWs, SameOn;
    ghost var base := mem.blocks;
    sh := Leaf(NULL, NULL);
    var buffer := new ParseBuffer(text, codec, mem);
    item := mem.Allocate(BLANK);
    if item == NULL {
      return NULL, 0, sh;
    }
    assert buffer.Rest() == text;
    var ok;
    ok, sh := buffer.ParseRoot(item, base);
    if !ok {
      end := if buffer.offset < |buffer.content| then buffer.offset else |buffer.content| - 1;
      return NULL, end, sh;
    }
    if whole {
      buffer.SkipWhitespace();
      buffer.Current();
      if buffer.content[buffer.offset] != 0 {
        end := buffer.offset;
        mem.Delete(item, [sh]);
        return NULL, end, sh;
      }
    }
    end := buffer.offset;
    assert buffer.Rest() == text[end..];
  }

  lemma RootBlank(base: heap, item: ptr)
    requires item != NULL && item !in base
    ensures var h := base[item := BLANK];
            var root := [Leaf(item, NULL)];
            Chain(h, item, root) && SeparateAll(root) && h - OwnedAll(root) == base
  {
    var h := base[item := BLANK];
    OwnedLeaf(item, NULL);
    LeafOwns(h, item, NULL);
    assert [Leaf(item, NULL)][1..] == [];
    assert Chain(h, NULL, []);
  }

  /** A filled root without siblings can be deleted as a list of one. */
  lemma RootGrown(base: heap, item: ptr, k: heap, sh: Shape, v: Item)
    requires item != NULL && item !in base && NULL !in base && sh.node == item
    requires Filled(base[item := BLANK], k, sh, None, v)
    ensures Grown(base, k, sh, v)
    ensures Chain(k, item, [sh]) && SeparateAll([sh]) && k - OwnedAll([sh]) == base
  {
    var h := base[item := BLANK];
    FilledSameKey(h, k, sh, None, v);
    RepOwns(k, sh, None, v);
    OwnedOne(sh);
    NodeOwned(sh);
    hide Rep, Owned, OwnedAll, Separate, SeparateAll, Owns;
    assert [sh][1..] == [];
    assert Chain(k, NULL, []);
    assert Owned(sh) !! base.Keys;
  }

  lemma ObjectUnfold(c: Codec, s: seq<byte>, depth: nat)
    requires s != []
    ensures depth >= NESTING_LIMIT ==> J.ParseObject(c, s, depth) == Fail
    ensures var r := SkipWs(s[1..]);
            depth < NESTING_LIMIT ==>
              if r != [] && r[0] == RBRACE then J.ParseObject(c, s, depth) == Ok(Object([]), r[1..])
              else var e := J.ParseMembers(c, r, depth + 1);
                   J.ParseObject(c, s, depth) == if e.Ok? then Ok(Object(e.value), e.rest) else Fail
  {
    hide J.ParseMembers;
  }

  lemma MemberUnfold(c: Codec, s: seq<byte>, depth: nat)
    ensures var k := J.ParseString(SkipWs(s));
            var r := if k.Ok? then SkipWs(k.rest) else [];
            if r == [] || r[0] != COLON then J.ParseMember(c, s, depth) == Fail
            else var v := J.ParseValue(c, SkipWs(r[1..]), depth);
                 J.ParseMember(c, s, depth) == if v.Ok? then Ok(Member(Some(k.value), v.value), v.rest) else Fail
  {
    hide J.ParseValue, J.ParseString;
  }

  lemma MembersUnfold(c: Codec, s: seq<byte>, depth: nat, ms: seq<Member>)
    ensures
      var m := J.ParseMember(c, s, depth);
      var r := if m.Fail? then [] else SkipWs(m.rest);
      && (r == [] ==> J.ParseMembers(c, s, depth) == Fail)
      && (r != [] ==>
            Prefix(ms, J.ParseMembers(c, s, depth)) ==
            (if r[0] == COMMA then Prefix(ms + [m.value], J.ParseMembers(c, r[1..], depth))
             else if r[0] == RBRACE then Ok(ms + [m.value], r[1..])
             else Fail))
  {
    hide J.ParseMember;
    var m := J.ParseMember(c, s, depth);
    if m.Ok? && SkipWs(m.rest) != [] && SkipWs(m.rest)[0] == COMMA {
      var more := J.ParseMembers(c, SkipWs(m.rest)[1..], depth);
      if more.Ok? {
        assert ms + ([m.value] + more.value) == (ms + [m.value]) + more.value;
      }
    }
  }

  lemma NothingDone<T>(r: Parsed<seq<T>>)
    ensures r == Prefix([], r)
  {
    if r.Ok? {
      assert [] + r.value == r.value;
    }
  }

  lemma ArrayUnfold(c: Codec, s: seq<byte>, depth: nat)
    requires s != []
    ensures depth >= NESTING_LIMIT ==> J.ParseArray(c, s, depth) == Fail
    ensures var r := SkipWs(s[1..]);
            depth < NESTING_LIMIT ==>
              if r != [] && r[0] == RBRACKET then J.ParseArray(c, s, depth) == Ok(Array([]), r[1..])
              else var e := J.ParseElements(c, r, depth + 1);
                   J.ParseArray(c, s, depth) == if e.Ok? then Ok(Array(e.value), e.rest) else Fail
  {
    hide J.ParseElements;
  }

  lemma ElementsUnfold(c: Codec, s: seq<byte>, depth: nat, vs: seq<Item>)
    ensures
      var v := J.ParseValue(c, SkipWs(s), depth);
      var r := if v.Fail? then [] else SkipWs(v.rest);
      && (r == [] ==> J.ParseElements(c, s, depth) == Fail)
      && (r != [] ==>
            Prefix(vs, J.ParseElements(c, s, depth)) ==
            (if r[0] == COMMA then Prefix(vs + [v.value], J.ParseElements(c, r[1..], depth))
             else if r[0] == RBRACKET then Ok(vs + [v.value], r[1..])
             else Fail))
  {
    hide J.ParseValue;
    var v := J.ParseValue(c, SkipWs(s), depth);
    if v.Ok? && SkipWs(v.rest) != [] && SkipWs(v.rest)[0] == COMMA {
      var more := J.ParseElements(c, SkipWs(v.rest)[1..], depth);
      if more.Ok? {
        assert vs + ([v.value] + more.value) == (vs + [v.value]) + more.value;
      }
    }
  }

  lemma NulIsNoNumber()
    ensures !NumberByte(0)
  {
  }
}
