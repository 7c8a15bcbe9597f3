/** Cutting the text of a member chain into its members and operators. */
module ChainText {
  import opened Text
  import opened FetchArg
  import opened StructTable
  import opened Surftrace

  /** The text before the first "." or "-". */
  function Head(s: string): (p: string)
    ensures p <= s && '.' !in p && '-' !in p
    ensures |p| < |s| ==> s[|p|] in ".-"
  {
    if s == "" || s[0] in ".-" then "" else [s[0]] + Head(s[1..])
  }

  /** _splitPr: members and operators in turn, without an empty last member. */
  function Cells(s: string): (r: Option<seq<string>>)
    decreases |s|
  {
    var p := Head(s);
    if s == "" then Some([])
    else if |p| == |s| then Some([s])
    else if s[|p|] == '.' then
      var rest := Cells(s[|p| + 1..]);
      if rest.None? then None else Some([p, "."] + rest.value)
    else if |p| + 1 < |s| && s[|p| + 1] == '>' then
      var rest := Cells(s[|p| + 2..]);
      if rest.None? then None else Some([p, "->"] + rest.value)
    else None
  }

  lemma {:induction false} HeadIs(p: string, rest: string)
    requires '.' !in p && '-' !in p && (rest == "" || rest[0] in ".-")
    ensures Head(p + rest) == p
  {
    if p == "" {
      assert p + rest == rest;
    } else {
      HeadIs(p[1..], rest);
      assert (p + rest)[1..] == p[1..] + rest;
    }
  }

  lemma NoOperator(s: string)
    requires '.' !in s && '-' !in s
    ensures Cells(s) == Some(if s == "" then [] else [s])
  {
    HeadIs(s, "");
    assert s + "" == s;
  }

  lemma CutDot(p: string, rest: string)
    requires '.' !in p && '-' !in p
    ensures Cells(p + "." + rest) == if Cells(rest).None? then None else Some([p, "."] + Cells(rest).value)
  {
    hide Head;
    var s := p + "." + rest;
    assert s == p + ("." + rest);
    HeadIs(p, "." + rest);
    assert s[|p| + 1..] == rest;
  }

  lemma CutArrow(p: string, rest: string)
    requires '.' !in p && '-' !in p
    ensures Cells(p + "-" + rest)
         == if rest == "" || rest[0] != '>' || Cells(rest[1..]).None? then None else Some([p, "->"] + Cells(rest[1..]).value)
  {
    hide Head;
    var s := p + "-" + rest;
    assert s == p + ("-" + rest);
    HeadIs(p, "-" + rest);
    if rest != "" {
      assert s[|p| + 2..] == rest[1..] && s[|p| + 1] == rest[0];
    }
  }

  /** What is cut so far, followed by what the rest gives, is what the whole gives. */
  predicate CutUpTo(prs: string, cells: seq<string>, beg: nat)
    requires beg <= |prs|
  {
    Cells(prs) == if Cells(prs[beg..]).None? then None else Some(cells + Cells(prs[beg..]).value)
  }

  lemma CutNothing(prs: string)
    ensures CutUpTo(prs, [], 0)
  {
    hide Cells;
    assert prs[0..] == prs;
    if Cells(prs).Some? {
      assert [] + Cells(prs).value == Cells(prs).value;
    }
  }

  lemma CutStep(prs: string, cells: seq<string>, beg: nat, more: seq<string>, next: nat)
    requires beg <= |prs| && next <= |prs| && CutUpTo(prs, cells, beg)
    requires Cells(prs[beg..]) == if Cells(prs[next..]).None? then None else Some(more + Cells(prs[next..]).value)
    ensures CutUpTo(prs, cells + more, next)
  {
    hide Cells;
    if Cells(prs[next..]).Some? {
      var rest := Cells(prs[next..]).value;
      assert cells + (more + rest) == cells + more + rest;
    }
  }

  lemma SliceAt(prs: string, beg: nat, i: nat)
    requires beg <= i < |prs|
    ensures prs[beg..] == prs[beg..i] + [prs[i]] + prs[i + 1..]
  {
  }

  lemma CutAtDot(prs: string, cells: seq<string>, beg: nat, i: nat)
    requires beg <= i < |prs| && '.' !in prs[beg..i] && '-' !in prs[beg..i] && CutUpTo(prs, cells, beg)
    requires prs[i] == '.'
    ensures CutUpTo(prs, cells + [prs[beg..i], "."], i + 1)
  {
    hide Cells, CutUpTo;
    SliceAt(prs, beg, i);
    assert [prs[i]] == ".";
    CutDot(prs[beg..i], prs[i + 1..]);
    CutStep(prs, cells, beg, [prs[beg..i], "."], i + 1);
  }

  lemma CutAtArrow(prs: string, cells: seq<string>, beg: nat, i: nat)
    requires beg <= i < |prs| && '.' !in prs[beg..i] && '-' !in prs[beg..i] && CutUpTo(prs, cells, beg)
    requires prs[i] == '-'
    ensures i + 1 == |prs| || prs[i + 1] != '>' ==> Cells(prs) == None
    ensures i + 1 < |prs| && prs[i + 1] == '>' ==> CutUpTo(prs, cells + [prs[beg..i], "->"], i + 2)
  {
    hide Cells, CutUpTo;
    var p, rest := prs[beg..i], prs[i + 1..];
    SliceAt(prs, beg, i);
    assert [prs[i]] == "-";
    CutArrow(p, rest);
    if i + 1 < |prs| && prs[i + 1] == '>' {
      assert rest[1..] == prs[i + 2..];
      CutStep(prs, cells, beg, [p, "->"], i + 2);
    } else {
      assert rest == "" || rest[0] != '>';
      CutBad(prs, cells, beg);
    }
  }

  lemma CutBad(prs: string, cells: seq<string>, beg: nat)
    requires beg <= |prs| && CutUpTo(prs, cells, beg) && Cells(prs[beg..]).None?
    ensures Cells(prs) == None
  {
    hide Cells;
  }

  method SplitPr(prs: string) returns (r: Option<seq<string>>)
    ensures r == Cells(prs)
  {
    hide Cells, CutUpTo;
    var cells, beg, i := [], 0, 0;
    CutNothing(prs);
    while i < |prs|
      invariant 0 <= i <= |prs| && beg <= |prs| && beg <= i + 1
      invariant beg <= i ==> '.' !in prs[beg..i] && '-' !in prs[beg..i]
      invariant beg > i ==> i < |prs| && prs[i] == '>'
      invariant CutUpTo(prs, cells, beg)
    {
      if prs[i] == '.' {
        CutAtDot(prs, cells, beg, i);
        cells := cells + [prs[beg..i], "."];
        beg := i + 1;
      } else if prs[i] == '-' {
        CutAtArrow(prs, cells, beg, i);
        if i + 1 == |prs| || prs[i + 1] != '>' {
          return None;
        }
        cells := cells + [prs[beg..i], "->"];
        beg := i + 2;
      }
      i := i + 1;
    }
    CutLast(prs, cells, beg);
    if beg < |prs| {
      cells := cells + [prs[beg..]];
    }
    return Some(cells);
  }

  lemma CutLast(prs: string, cells: seq<string>, beg: nat)
    requires beg <= |prs| && CutUpTo(prs, cells, beg)
    requires '.' !in prs[beg..|prs|] && '-' !in prs[beg..|prs|]
    ensures Cells(prs) == Some(if beg < |prs| then cells + [prs[beg..]] else cells)
  {
    hide Cells;
    var rest := prs[beg..];
    assert rest == prs[beg..|prs|];
    NoOperator(rest);
    assert cells + [] == cells;
  }

  // ---- from cells to links ----

  /** How the text of a C type is understood. */
  type typereader = string -> CType

  /** A member as written, with the cast in front of it, if any. */
  datatype Written = Written(cast: Option<CType>, text: string)

  /**
   __getCellMem: behind "(" or "!(" stands a type, up to the next and only ")". Casts marked with "@"
   select packet layers and are not read here.
   */
  function CellMember(types: typereader, s: string): (w: Option<Written>) {
    if s == "" || s[0] == '@' then None
    else if s[0] != '(' && s[0] != '!' then Some(Written(None, s))
    else
      var open := Before(s, '(');
      if |open| == |s| || ')' in open then None else CastMember(types, s[|open| + 1..])
  }

  /** What stands behind the opening bracket of a cast: the type, ")" and the member. */
  function CastMember(types: typereader, rest: string): (w: Option<Written>) {
    var ty := Before(rest, ')');
    if ty == "" || |ty| == |rest| then None else
    var text := rest[|ty| + 1..];
    if ')' in text then None else Some(Written(Some(types(ty)), text))
  }

  /** The rounds of _cellCheck over the cells: operator and member, the first cell set aside, a last operator dropped. */
  function Rounds(types: typereader, cells: seq<string>): (r: Option<seq<Segment>>)
    decreases |cells|
  {
    if |cells| < 3 then Some([]) else
    var w, rest := CellMember(types, cells[2]), Rounds(types, cells[2..]);
    if w.None? || rest.None? then None
    else Some([Segment(if cells[1] == "." then Dot else Arrow, w.value.cast, w.value.text)] + rest.value)
  }

  /** The whole front half: from the text behind the register to the fetch argument. */
  function CompileText(d: Display, types: typereader, tables: map<string, seq<Cell>>, reg: string, argt: CType, prs: string): (r: Option<string>) {
    var cells := Cells(prs);
    if cells.None? then None else
    var segs := Rounds(types, cells.value);
    if segs.None? then None else Compile(d, tables, reg, argt, segs.value)
  }

  /** Cells that are members hold neither a dot nor a dash. */
  predicate MembersPlain(cells: seq<string>) {
    forall i :: 0 <= i < |cells| && i % 2 == 0 ==> '.' !in cells[i] && '-' !in cells[i]
  }

  lemma PlainBefore(p: string, op: string, rest: seq<string>)
    requires '.' !in p && '-' !in p && MembersPlain(rest)
    ensures MembersPlain([p, op] + rest)
  {
    var cells := [p, op] + rest;
    forall i | 0 <= i < |cells| && i % 2 == 0 ensures '.' !in cells[i] && '-' !in cells[i] {
      if i > 0 {
        assert cells[i] == rest[i - 2];
      }
    }
  }

  lemma {:induction false} CellsUndotted(s: string)
    requires Cells(s).Some?
    ensures MembersPlain(Cells(s).value)
    decreases |s|
  {
    var p := Head(s);
    if s != "" && |p| < |s| {
      hide MembersPlain, Head;
      var n := if s[|p|] == '.' then 1 else 2;
      CellsUndotted(s[|p| + n..]);
      PlainBefore(p, if n == 1 then "." else "->", Cells(s[|p| + n..]).value);
    }
  }

  lemma MemberUndotted(types: typereader, s: string)
    requires '.' !in s && '-' !in s && CellMember(types, s).Some?
    ensures '.' !in CellMember(types, s).value.text && '-' !in CellMember(types, s).value.text
  {
  }

  lemma {:induction false} RoundsUndotted(types: typereader, cells: seq<string>)
    requires Rounds(types, cells).Some? && forall i :: 0 <= i < |cells| && i % 2 == 0 ==> '.' !in cells[i] && '-' !in cells[i]
    ensures Undotted(Rounds(types, cells).value)
    decreases |cells|
  {
    hide CellMember;
    if |cells| >= 3 {
      MemberUndotted(types, cells[2]);
      forall i | 0 <= i < |cells[2..]| && i % 2 == 0 ensures '.' !in cells[2..][i] && '-' !in cells[2..][i] {
        assert cells[2..][i] == cells[i + 2];
      }
      RoundsUndotted(types, cells[2..]);
    }
  }

  /**
   Exactly which texts compile, and to what, for every text, program, memory and register: the text must
   be cut and read, the compiler's rules must allow the chain it is read as, and its object be shown.
   */
  lemma TextExact(d: Display, types: typereader, p: Program, reg: string, argt: CType, prs: string, memory: nat -> nat, regs: string -> nat)
    requires Sound(p) && RegName(reg)
    ensures var out := CompileText(d, types, Tables(p), reg, argt, prs);
            var chain := ReadText(types, prs);
            && (out.Some? <==>
                && chain.Some? && Evaluate(CODE_RULES, p, memory, regs(reg), argt, chain.value).Some?
                && Shown(CODE_RULES, d, p, memory, regs(reg), argt, chain.value).Some?)
            && (out.Some? ==>
                Emits(d, out.value, Evaluate(CODE_RULES, p, memory, regs(reg), argt, chain.value).value,
                      Shown(CODE_RULES, d, p, memory, regs(reg), argt, chain.value).value, memory, regs))
  {
    hide Cells, Compile, Evaluate, Shown, Tables, Emits, Rounds, Readings;
    if Cells(prs).Some? && Rounds(types, Cells(prs).value).Some? {
      CellsUndotted(prs);
      RoundsUndotted(types, Cells(prs).value);
      CompileExact(d, p, reg, argt, Rounds(types, Cells(prs).value).value, memory, regs);
    }
  }

  /** The chain a text is read as. */
  function ReadText(types: typereader, prs: string): (chain: Option<seq<Access>>) {
    var cells := Cells(prs);
    if cells.None? then None else
    var segs := Rounds(types, cells.value);
    if segs.None? then None else Readings(segs.value)
  }

  // ---- written chains ----

  function ModeText(m: Mode): (s: string) {
    if m.Dot? then "." else "->"
  }

  /** A type whose text is read as that type, and can stand in a chain. */
  predicate Legible(types: typereader, t: CType) {
    var s := TypeText(t);
    types(s) == t && s != "" && '.' !in s && '-' !in s && ')' !in s
  }

  function LinkText(a: Access): (s: string) {
    (if a.cast.Some? then "(" + TypeText(a.cast.value) + ")" else "") + SegmentOf(a).text
  }

  /** A chain as it is written. */
  function ChainOf(chain: seq<Access>): (s: string) {
    if chain == [] then "" else ModeText(chain[0].mode) + (LinkText(chain[0]) + ChainOf(chain[1..]))
  }

  /** A name that can stand in a chain. */
  predicate NameText(s: string) {
    Identifier(s) && s[0] !in "(!@" && ')' !in s
  }

  /** A link that can be written: its name can stand in a chain, and so can the type of its cast. */
  predicate Nameable(types: typereader, a: Access) {
    NameText(a.name) && (a.cast.Some? ==> Legible(types, a.cast.value))
  }

  predicate AllNameable(types: typereader, chain: seq<Access>) {
    forall i :: 0 <= i < |chain| ==> Nameable(types, chain[i])
  }

  lemma MemberText(a: Access)
    requires NameText(a.name)
    ensures var t := SegmentOf(a).text;
            '.' !in t && '-' !in t && ')' !in t && t != "" && t[0] == a.name[0]
  {
    if a.index.Some? {
      NumeralPlain(a.index.value, 10, '.');
      NumeralPlain(a.index.value, 10, '-');
      NumeralPlain(a.index.value, 10, ')');
    }
  }

  lemma BehindCast(types: typereader, ty: string, m: string)
    requires ty != "" && ')' !in ty && ')' !in m
    ensures CastMember(types, ty + [')'] + m) == Some(Written(Some(types(ty)), m))
  {
    hide Before;
    BeforeJoin(ty, ')', m);
    assert (ty + [')'] + m)[|ty| + 1..] == m;
  }

  lemma CastRead(types: typereader, rest: string)
    ensures CellMember(types, "(" + rest) == CastMember(types, rest)
  {
    hide CastMember;
    assert ("(" + rest)[1..] == rest;
  }

  lemma CastPlain(c: char, ty: string, m: string)
    requires c !in ty && c !in m && c != '(' && c != ')'
    ensures c !in "(" + ty + ")" + m
  {
  }

  /** A written link is read back, cast and all. */
  lemma LinkRead(types: typereader, a: Access)
    requires Nameable(types, a)
    ensures var t := LinkText(a);
            && '.' !in t && '-' !in t && t != ""
            && CellMember(types, t) == Some(Written(a.cast, SegmentOf(a).text))
  {
    hide SegmentOf, CastMember;
    MemberText(a);
    var m := SegmentOf(a).text;
    if a.cast.Some? {
      var ty := TypeText(a.cast.value);
      BehindCast(types, ty, m);
      assert "(" + ty + ")" + m == "(" + (ty + [')'] + m);
      CastRead(types, ty + [')'] + m);
      CastPlain('.', ty, m);
      CastPlain('-', ty, m);
    } else {
      assert "" + m == m;
    }
  }

  lemma CutFirst(p: string, mode: Mode, rest: string)
    requires '.' !in p && '-' !in p && Cells(rest).Some?
    ensures Cells(p + (ModeText(mode) + rest)) == Some([p, ModeText(mode)] + Cells(rest).value)
  {
    hide Cells, Head;
    if mode.Dot? {
      assert p + ("." + rest) == p + "." + rest;
      CutDot(p, rest);
    } else {
      assert p + ("->" + rest) == p + "-" + (">" + rest);
      CutArrow(p, ">" + rest);
      assert (">" + rest)[1..] == rest;
    }
  }

  lemma RoundsStep(types: typereader, p: string, a: Access, inner: seq<string>)
    requires inner != [] && CellMember(types, inner[0]) == Some(Written(a.cast, SegmentOf(a).text)) && Rounds(types, inner).Some?
    ensures Rounds(types, [p, ModeText(a.mode)] + inner) == Some([SegmentOf(a)] + Rounds(types, inner).value)
  {
    hide CellMember;
    var cells := [p, ModeText(a.mode)] + inner;
    assert cells[2..] == inner && cells[2] == inner[0] && cells[1] == ModeText(a.mode);
  }

  /** What may follow a written chain and is dropped: nothing, or one more operator. */
  predicate Dropped(tail: string) {
    tail == "" || tail == "." || tail == "->"
  }

  /** Cutting the text behind a member `p` gives back the links written; an operator at the end is dropped. */
  lemma {:induction false} CutChain(types: typereader, p: string, chain: seq<Access>, tail: string)
    requires '.' !in p && '-' !in p && AllNameable(types, chain) && (p == "" ==> chain != []) && Dropped(tail)
    ensures Cells(p + (ChainOf(chain) + tail)).Some?
    ensures var cells := Cells(p + (ChainOf(chain) + tail)).value;
            cells != [] && cells[0] == p && Rounds(types, cells) == Some(SegmentsOf(chain))
    decreases |chain|
  {
    hide Cells, Head, SegmentOf, LinkText, Nameable, Rounds, Legible;
    if chain == [] {
      CutEnd(types, p, tail);
      assert ChainOf(chain) + tail == tail;
    } else {
      var t, rest := LinkText(chain[0]), ChainOf(chain[1..]);
      LinkRead(types, chain[0]);
      CutChain(types, t, chain[1..], tail);
      var inner := t + (rest + tail);
      CutFirst(p, chain[0].mode, inner);
      assert p + (ModeText(chain[0].mode) + inner) == p + (ChainOf(chain) + tail);
      RoundsStep(types, p, chain[0], Cells(inner).value);
    }
  }

  lemma CutEnd(types: typereader, p: string, tail: string)
    requires '.' !in p && '-' !in p && p != "" && Dropped(tail)
    ensures Cells(p + tail).Some?
    ensures var cells := Cells(p + tail).value;
            cells != [] && cells[0] == p && |cells| <= 2 && Rounds(types, cells) == Some([])
  {
    hide Cells, Head;
    NoOperator("");
    if tail == "" {
      assert p + tail == p;
      NoOperator(p);
    } else {
      var mode := if tail == "." then Dot else Arrow;
      CutFirst(p, mode, "");
      assert p + (ModeText(mode) + "") == p + tail;
    }
  }

  /** Without links there is nothing to do, operator or not. */
  lemma CutNone(types: typereader, tail: string)
    requires Dropped(tail)
    ensures Cells(tail).Some? && Rounds(types, Cells(tail).value) == Some([])
  {
    hide Cells, Head;
    NoOperator("");
    if tail != "" {
      var mode := if tail == "." then Dot else Arrow;
      CutFirst("", mode, "");
      assert "" + (ModeText(mode) + "") == tail;
    }
  }

  lemma CutWritten(types: typereader, chain: seq<Access>, tail: string)
    requires AllNameable(types, chain) && Dropped(tail)
    ensures var cells := Cells(ChainOf(chain) + tail);
            cells.Some? && Rounds(types, cells.value) == Some(SegmentsOf(chain))
  {
    hide Cells, Rounds, Nameable;
    var t := ChainOf(chain) + tail;
    if chain == [] {
      assert t == tail;
      CutNone(types, tail);
    } else {
      CutChain(types, "", chain, tail);
      assert "" + t == t;
    }
  }

  /** A trailing operator changes nothing: the chain compiles, or not, as it does without it. */
  lemma TrailingDropped(d: Display, types: typereader, tables: map<string, seq<Cell>>, reg: string, argt: CType,
                        chain: seq<Access>, tail: string)
    requires AllNameable(types, chain) && Dropped(tail)
    ensures CompileText(d, types, tables, reg, argt, ChainOf(chain) + tail) == CompileText(d, types, tables, reg, argt, ChainOf(chain))
    ensures CompileText(d, types, tables, reg, argt, ChainOf(chain)) == Compile(d, tables, reg, argt, SegmentsOf(chain))
  {
    hide Cells, Compile, Rounds, ChainOf, AllNameable;
    CutWritten(types, chain, tail);
    CutWritten(types, chain, "");
    assert ChainOf(chain) + "" == ChainOf(chain);
  }

  /** From the text of a chain to the fetch argument: every chain that C accepts, casts included, keeps its meaning. */
  lemma TextCorrect(d: Display, types: typereader, p: Program, reg: string, argt: CType, chain: seq<Access>,
                    memory: nat -> nat, regs: string -> nat)
    requires Sound(p) && RegName(reg) && AllNameable(types, chain)
    requires Evaluate(C_RULES, p, memory, regs(reg), argt, chain).Some?
    ensures var out := CompileText(d, types, Tables(p), reg, argt, ChainOf(chain));
            var style := Shown(C_RULES, d, p, memory, regs(reg), argt, chain);
            && (out.Some? <==> style.Some?)
            && (out.Some? ==>
                Emits(d, out.value, Evaluate(C_RULES, p, memory, regs(reg), argt, chain).value, style.value, memory, regs))
  {
    hide CompileText, Compile, Evaluate, Shown, Tables, Emits, Nameable;
    TrailingDropped(d, types, Tables(p), reg, argt, chain, "");
    CompileCorrect(d, p, reg, argt, chain, memory, regs);
  }
}
