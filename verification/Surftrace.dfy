/** Compiling a C member chain such as %0->mm->pgd[1].x into a fetch argument. */
module Surftrace {
  import opened Text
  import opened FetchArg
  import opened StructTable

  datatype Mode = Dot | Arrow

  /** One link of a chain: the operator, a cast of the member, and the member as written. */
  datatype Segment = Segment(mode: Mode, cast: Option<CType>, text: string)

  // ---- the compiler ----

  /** _fxprAddPoint. */
  function AddPoint(s: string, off: nat): (r: string) {
    "+0x" + Numeral(off, 16) + "(" + s + ")"
  }

  /** _fxprAddMem. */
  function AddMem(s: string, off: nat): (r: Option<string>) {
    var prev := Before(s, '(');
    if |prev| == |s| || prev == "" then None else
    var last := HexText(prev[1..]);
    if last.None? then None
    else Some("+0x" + Numeral(off + last.value, 16) + "(" + s[|prev| + 1..])
  }

  /** The struct a type names once every "*" is stripped. */
  function Tag(ty: CType): (r: Option<string>) {
    match ty
    case Scalar(_, _) => None
    case Struct(tag) => Some(tag)
    case Pointer(t) => Tag(t)
  }

  /** _cellCheckArray. */
  predicate ArrayChecked(mem: string, c: Cell) {
    || (c.ty.Scalar? && c.ty.name == "char")
    || '[' !in c.name
    || (IndexOf(mem).Some? && IndexOf(c.name).Some? && IndexOf(mem).value < IndexOf(c.name).value)
  }

  /** showMemberOffset. */
  function OffsetOf(mem: string, table: seq<Cell>): (r: Option<nat>) {
    if '[' !in mem then OffsetIn(mem, 0, table)
    else if IndexOf(mem).None? then None
    else OffsetIn(Before(mem, '['), IndexOf(mem).value, table)
  }

  /** _procFxpr. */
  function Extend(s: string, mode: Mode, off: nat): (r: Option<string>) {
    if mode.Dot? then AddMem(s, off) else Some(AddPoint(s, off))
  }

  /** The last cell: a type alone, behind a cast or without links; a row of a table; or a struct still to be entered. */
  datatype Last = OfType(ty: CType) | OfRow(cell: Cell) | Unfinished

  /** The loop state of _cellCheck: the text so far, the type reached, a pending nested member, and the last cell. */
  datatype Progress = Progress(fxpr: string, ty: CType, mem: string, table: seq<Cell>, mode: Mode, last: Last)

  function Start(reg: string, argt: CType): (s: Progress) {
    Progress(reg, argt, "", [], Arrow, OfType(argt))
  }

  /** The first half of a round: which struct the member belongs to, and its name there. */
  function Enter(tables: map<string, seq<Cell>>, s: Progress, mode: Mode): (r: Option<Progress>) {
    if s.mem != "" then Some(s.(mem := s.mem + "."))
    else if s.ty.Pointer? != mode.Arrow? then None
    else
      var tag := Tag(s.ty);
      if tag.None? || tag.value !in tables then None
      else Some(s.(table := tables[tag.value], mode := mode))
  }

  /** The second half: the member is looked up, and the text extended unless it is still incomplete. */
  function Select(s: Progress, seg: Segment): (r: Option<Progress>) {
    if seg.text == "" then None else
    var mem := s.mem + seg.text;
    var found := Search(Before(mem, '['), '[' in mem, s.table);
    if found.Missing? then None
    else if found.Nested? then Some(s.(mem := mem, last := if seg.cast.Some? then OfType(seg.cast.value) else Unfinished))
    else if !ArrayChecked(mem, found.cell) then None
    else
      var off := OffsetOf(mem, s.table);
      if off.None? then None else
      var fxpr := Extend(s.fxpr, s.mode, off.value);
      if fxpr.None? then None
      else
        Some(Progress(fxpr.value, if seg.cast.Some? then seg.cast.value else found.cell.ty, "", s.table, s.mode,
                      if seg.cast.Some? then OfType(seg.cast.value) else OfRow(found.cell)))
  }

  function Step(tables: map<string, seq<Cell>>, s: Progress, seg: Segment): (r: Option<Progress>) {
    var e := Enter(tables, s, seg.mode);
    if e.None? then None else Select(e.value, seg)
  }

  function Steps(tables: map<string, seq<Cell>>, s: Progress, chain: seq<Segment>): (r: Option<Progress>)
    decreases |chain|
  {
    if chain == [] then Some(s) else
    var t := Step(tables, s, chain[0]);
    if t.None? then None else Steps(tables, t.value, chain[1..])
  }

  // ---- the display suffix ----

  /** The sizes of types as the database gives them, and the letter of the number format. */
  datatype Display = Display(sizes: CType -> Option<nat>, format: char)

  /** A type as it is written. */
  function TypeText(ty: CType): (s: string) {
    match ty
    case Scalar(name, _) => name
    case Struct(tag) => tag
    case Pointer(t) => TypeText(t) + if t.Pointer? then "*" else " *"
  }

  predicate Contains(s: string, w: string) {
    w <= s || (s != "" && Contains(s[1..], w))
  }

  /** How the value is shown: the string it points to, the string it is, or a number of so many bits. */
  datatype Style = AtPointer | InPlace | Bits(n: nat)

  /** The choice of _fxprAddSuffix; `isArray` says whether the last cell is an array, if it has a name at all. */
  function StyleOf(text: string, isArray: Option<bool>, size: Option<nat>): (r: Option<Style>) {
    if Contains(text, "char *") then Some(AtPointer)
    else if (text == "char" || Contains(text, " char")) && isArray != Some(false) then
      if isArray.None? then None else Some(InPlace)
    else if text == "struct" then None
    else if size.Some? && size.value in {1, 2, 4, 8} then Some(Bits(8 * size.value))
    else None
  }

  function LastStyle(d: Display, last: Last): (r: Option<Style>) {
    match last
    case OfType(ty) => StyleOf(TypeText(ty), None, d.sizes(ty))
    case OfRow(c) => StyleOf(TypeText(c.ty), Some('[' in c.name), if '[' in c.name then d.sizes(c.ty) else Some(c.size))
    case Unfinished => None
  }

  function DisplayText(d: Display, style: Style): (s: string) {
    if style.Bits? then [d.format] + Numeral(style.n, 10) else "string"
  }

  function Styled(d: Display, fxpr: string, style: Style): (s: string) {
    (if style.AtPointer? then "+0x0(" + fxpr + ")" else fxpr) + ":" + DisplayText(d, style)
  }

  /** The fetch argument with its suffix for a chain on a register of the given type, if the chain is accepted. */
  function Compile(d: Display, tables: map<string, seq<Cell>>, reg: string, argt: CType, chain: seq<Segment>): (r: Option<string>) {
    var s := Steps(tables, Start(reg, argt), chain);
    if s.None? then None else
    var style := LastStyle(d, s.value.last);
    if style.None? then None else Some(Styled(d, s.value.fxpr, style.value))
  }

  class Compiler {
    const tables: map<string, seq<Cell>>
    const display: Display
    var fxpr: string

    constructor (tables: map<string, seq<Cell>>, display: Display)
      ensures this.tables == tables && this.display == display && fxpr == ""
    {
      this.tables, this.display := tables, display;
      fxpr := "";
    }

    method ProcFxpr(member: string, table: seq<Cell>, mode: Mode) returns (ok: bool)
      modifies this
      ensures ok <==> OffsetOf(member, table).Some? && Extend(old(fxpr), mode, OffsetOf(member, table).value).Some?
      ensures ok ==> Extend(old(fxpr), mode, OffsetOf(member, table).value) == Some(fxpr)
    {
      hide AddMem, AddPoint;
      if '[' in member && IndexOf(member).None? {
        return false;
      }
      var index := if '[' in member then IndexOf(member).value else 0;
      var name := if '[' in member then Before(member, '[') else member;
      var off := MemberOffset(name, index, table);
      if off.None? {
        return false;
      }
      if mode.Dot? {
        var r := AddMem(fxpr, off.value);
        if r.None? {
          return false;
        }
        fxpr := r.value;
      } else {
        fxpr := AddPoint(fxpr, off.value);
      }
      return true;
    }

    /** One round of the loop of _cellCheck. */
    method Round(ty: CType, mem: string, table: seq<Cell>, mode: Mode, last: Last, seg: Segment)
      returns (ok: bool, ty': CType, mem': string, table': seq<Cell>, mode': Mode, last': Last)
      modifies this
      ensures ok <==> Step(tables, Progress(old(fxpr), ty, mem, table, mode, last), seg).Some?
      ensures ok ==>
        Step(tables, Progress(old(fxpr), ty, mem, table, mode, last), seg) == Some(Progress(fxpr, ty', mem', table', mode', last'))
    {
      hide Extend, OffsetOf, Search, ArrayChecked;
      ty', mem', table', mode', last' := ty, mem, table, mode, last;
      if mem == "" {
        if ty.Pointer? != seg.mode.Arrow? || Tag(ty).None? || Tag(ty).value !in tables {
          return false, ty', mem', table', mode', last';
        }
        mem', table', mode' := seg.text, tables[Tag(ty).value], seg.mode;
        assert "" + seg.text == seg.text;
      } else {
        mem' := mem + "." + seg.text;
      }
      if seg.text == "" {
        return false, ty', mem', table', mode', last';
      }
      var found := MemInStruct(mem', table');
      ok := !found.Missing?;
      last' := Unfinished;
      if found.Row? {
        last' := OfRow(found.cell);
        ok := ArrayChecked(mem', found.cell);
        if ok {
          ok := ProcFxpr(mem', table', mode');
          mem' := "";
          ty' := if seg.cast.Some? then seg.cast.value else found.cell.ty;
        }
      }
      if seg.cast.Some? {
        last' := OfType(seg.cast.value);
      }
    }

    /** _fxprAddSuffix. */
    method AddSuffix(last: Last) returns (ok: bool)
      modifies this
      ensures ok <==> LastStyle(display, last).Some?
      ensures ok ==> fxpr == Styled(display, old(fxpr), LastStyle(display, last).value)
    {
      hide Contains, Numeral, TypeText;
      if last.Unfinished? {
        return false;
      }
      var ty := if last.OfRow? then last.cell.ty else last.ty;
      var isArray := last.OfRow? && '[' in last.cell.name;
      var text := TypeText(ty);
      if Contains(text, "char *") {
        fxpr := "+0x0(" + fxpr + ")" + ":string";
        assert ":" + "string" == ":string";
        return true;
      }
      if text == "char" || Contains(text, " char") {
        if last.OfType? {
          return false;
        }
        if isArray {
          fxpr := fxpr + ":string";
          assert ":" + "string" == ":string";
          return true;
        }
      }
      if text == "struct" {
        return false;
      }
      var size := if last.OfRow? && !isArray then Some(last.cell.size) else display.sizes(ty);
      if size.None? || size.value !in {1, 2, 4, 8} {
        return false;
      }
      fxpr := fxpr + ":" + ([display.format] + Numeral(8 * size.value, 10));
      return true;
    }

    /** _cellCheck. */
    method CellCheck(reg: string, argt: CType, chain: seq<Segment>) returns (ok: bool)
      modifies this
      ensures ok <==> Compile(display, tables, reg, argt, chain).Some?
      ensures ok ==> Compile(display, tables, reg, argt, chain) == Some(fxpr)
    {
      hide Step, LastStyle, Styled;
      fxpr := reg;
      var ty, mem, table, mode, last := argt, "", [], Arrow, OfType(argt);
      var i := 0;
      while i < |chain|
        invariant 0 <= i <= |chain|
        invariant Steps(tables, Progress(fxpr, ty, mem, table, mode, last), chain[i..])
               == Steps(tables, Start(reg, argt), chain)
      {
        assert chain[i..][1..] == chain[i + 1..] && chain[i..][0] == chain[i];
        ok, ty, mem, table, mode, last := Round(ty, mem, table, mode, last, chain[i]);
        if !ok {
          return false;
        }
        i := i + 1;
      }
      ok := AddSuffix(last);
    }
  }

  // ---- what the chain means ----

  datatype Program = Program(structs: map<string, seq<Field>>, sizes: map<string, nat>)

  ghost predicate Sound(p: Program) {
    forall tag :: tag in p.structs ==> WellFormed(p.structs[tag])
  }

  function Tables(p: Program): (t: map<string, seq<Cell>>) {
    map tag | tag in p.structs :: Flatten(p.sizes, "", 0, p.structs[tag])
  }

  datatype Access = Access(mode: Mode, cast: Option<CType>, name: string, index: Option<nat>)

  function SegmentOf(a: Access): (s: Segment) {
    Segment(a.mode, a.cast, a.name + Bracket(a.index))
  }

  function SegmentsOf(chain: seq<Access>): (s: seq<Segment>) {
    if chain == [] then [] else [SegmentOf(chain[0])] + SegmentsOf(chain[1..])
  }

  /** How a link is read: a name, and the number in the first brackets; what follows those is not looked at. */
  function Reading(seg: Segment): (a: Option<Access>) {
    if '[' !in seg.text then Some(Access(seg.mode, seg.cast, seg.text, None))
    else if IndexOf(seg.text).None? then None
    else Some(Access(seg.mode, seg.cast, Before(seg.text, '['), IndexOf(seg.text)))
  }

  function Readings(segs: seq<Segment>): (r: Option<seq<Access>>) {
    if segs == [] then Some([]) else
    var a, rest := Reading(segs[0]), Readings(segs[1..]);
    if a.None? || rest.None? then None else Some([a.value] + rest.value)
  }

  /** Where a reading of member chains may be laxer than C. */
  datatype Rules = Rules(arrowInside: bool, manyStars: bool, castInline: bool, castAtEnd: bool, dotOnRegister: bool)

  /** C: a dot inside a struct in memory, an arrow on a pointer to a struct, casts on whole members only. */
  const C_RULES := Rules(false, false, false, false, false)

  /**
   The compiler: an arrow behind an inline struct passes as a dot, a type with several stars passes as
   a pointer to the struct, a cast on an inline struct is ignored, unless it ends the chain: then the
   chain stands for the object from which the struct was entered. So it does behind a dot on a register.
   */
  const CODE_RULES := Rules(true, true, true, true, true)

  /**
   A whole object, of which `isArray` says whether it is an array, if it is a member taken as it is; or
   the members in reach, with the value of the object they were entered from and a cast on the way in.
   */
  datatype Kind = Whole(ty: CType, isArray: Option<bool>) | Inside(fields: seq<Field>, entry: Outcome, cast: Option<CType>)

  /** An expression so far: a value in a register, or an object in memory, and the loads made. */
  datatype Place = Place(base: nat, inMemory: bool, kind: Kind, loads: seq<nat>)

  /** The value of the object, and the loads up to it. */
  function Value(memory: nat -> nat, c: Place): (r: Outcome) {
    if c.inMemory then Outcome(c.loads + [c.base], memory(c.base)) else Outcome(c.loads, c.base)
  }

  /** The struct an arrow leads to. */
  function Target(rules: Rules, ty: CType): (tag: Option<string>) {
    if !ty.Pointer? then None
    else if rules.manyStars then Tag(ty)
    else if ty.target.Struct? then Some(ty.target.tag)
    else None
  }

  /** The members in reach of an operator: the pointed-to struct, or the object itself. */
  function Open(rules: Rules, p: Program, memory: nat -> nat, c: Place, mode: Mode): (r: Option<Place>) {
    if c.kind.Inside? then
      if mode.Dot? || rules.arrowInside then Some(c) else None
    else if mode.Arrow? then
      var tag := Target(rules, c.kind.ty);
      if tag.None? || tag.value !in p.structs then None
      else
        var v := Value(memory, c);
        Some(Place(v.value, true, Inside(p.structs[tag.value], v, None), v.loads))
    else
      if (c.inMemory || rules.dotOnRegister) && c.kind.ty.Struct? && c.kind.ty.tag in p.structs
      then Some(c.(kind := Inside(p.structs[c.kind.ty.tag], Value(memory, c), None))) else None
  }

  /** An array member must be indexed, within its bound, unless it is a string. */
  predicate Indexable(f: Field, index: Option<nat>)
    requires f.Leaf?
  {
    if index.Some? then f.count.Some? && index.value < f.count.value
    else f.count.None? || (f.ty.Scalar? && f.ty.name == "char")
  }

  /** How far into an array member the access goes. */
  function Element(p: Program, f: Field, a: Access): (n: nat)
    requires f.Leaf?
  {
    if a.index.Some? then Times(a.index.value, SizeOf(p.sizes, f.ty)) else 0
  }

  function Member(rules: Rules, p: Program, c: Place, a: Access): (r: Option<Place>)
    requires c.kind.Inside?
  {
    var f := Lookup(c.kind.fields, a.name);
    if f.None? then None
    else if f.value.Inline? then
      if a.index.None? && (a.cast.None? || rules.castInline)
      then Some(c.(base := c.base + f.value.offset, kind := Inside(f.value.fields, c.kind.entry, a.cast))) else None
    else if !c.inMemory || !Indexable(f.value, a.index) then None
    else
      Some(c.(base := c.base + (f.value.offset + Element(p, f.value, a)),
              kind := if a.cast.Some? then Whole(a.cast.value, None) else Whole(f.value.ty, Some(f.value.count.Some?))))
  }

  function Follow(rules: Rules, p: Program, memory: nat -> nat, c: Place, chain: seq<Access>): (r: Option<Place>)
    decreases |chain|
  {
    if chain == [] then Some(c) else
    var o := Open(rules, p, memory, c, chain[0].mode);
    if o.None? || o.value.kind.Whole? then None else
    var m := Member(rules, p, o.value, chain[0]);
    if m.None? then None else Follow(rules, p, memory, m.value, chain[1..])
  }

  /** A register of the given type and value. */
  function Register(value: nat, argt: CType): (c: Place) {
    Place(value, false, Whole(argt, None), [])
  }

  /** The value of a chain on a register: the loads it makes, the last one that of the member itself. */
  function Evaluate(rules: Rules, p: Program, memory: nat -> nat, value: nat, argt: CType, chain: seq<Access>): (r: Option<Outcome>) {
    var c := Follow(rules, p, memory, Register(value, argt), chain);
    if c.None? then None else Final(rules, memory, c.value)
  }

  function Final(rules: Rules, memory: nat -> nat, c: Place): (r: Option<Outcome>) {
    if c.kind.Whole? then Some(Value(memory, c))
    else if rules.castAtEnd && c.kind.cast.Some? then Some(c.kind.entry)
    else None
  }

  /** How the object a chain names is shown: by its type, and by its size if it is taken as it is declared. */
  function Shown(rules: Rules, d: Display, p: Program, memory: nat -> nat, value: nat, argt: CType, chain: seq<Access>): (r: Option<Style>) {
    var c := Follow(rules, p, memory, Register(value, argt), chain);
    if c.None? then None else KindStyle(d, p, c.value.kind)
  }

  function KindStyle(d: Display, p: Program, k: Kind): (r: Option<Style>) {
    match k
    case Whole(ty, isArray) =>
      StyleOf(TypeText(ty), isArray, if isArray == Some(false) then Some(SizeOf(p.sizes, ty)) else d.sizes(ty))
    case Inside(_, _, cast) => if cast.None? then None else StyleOf(TypeText(cast.value), None, d.sizes(cast.value))
  }

  /** Numbers are shown in the width of the object, where the database has the sizes of the layouts. */
  lemma WidthIsSize(rules: Rules, d: Display, p: Program, memory: nat -> nat, value: nat, argt: CType, chain: seq<Access>)
    requires forall ty :: d.sizes(ty).Some? ==> d.sizes(ty).value == SizeOf(p.sizes, ty)
    ensures var c := Follow(rules, p, memory, Register(value, argt), chain);
            var style := Shown(rules, d, p, memory, value, argt, chain);
            c.Some? && c.value.kind.Whole? && style.Some? && style.value.Bits? ==>
              style.value.n == 8 * SizeOf(p.sizes, c.value.kind.ty) && style.value.n in {8, 16, 32, 64}
  {
    hide Follow, SizeOf, TypeText, Contains;
  }

  /** What is shown of a value: itself, or the string it points to. */
  function Displayed(memory: nat -> nat, style: Style, v: Outcome): (r: Outcome) {
    if style.AtPointer? then Outcome(v.loads + [v.value], memory(v.value)) else v
  }

  // ---- the compiler follows its rules ----

  /** The fetch argument whose last load is that of the object at `c`. */
  predicate Denotes(f: Fetch, c: Place, memory: nat -> nat, regs: string -> nat) {
    if c.inMemory then
      && f.Deref?
      && Run(f.inner, memory, regs).loads == c.loads
      && Run(f.inner, memory, regs).value + f.offset == c.base
    else f.Reg? && Run(f, memory, regs) == Outcome(c.loads, c.base)
  }

  /** A fetch argument moved to a member at `off`. */
  function Moved(f: Fetch, mode: Mode, off: nat): (r: Option<Fetch>) {
    if mode.Arrow? then Some(Deref(off, f))
    else if f.Deref? then Some(Deref(f.offset + off, f.inner))
    else None
  }

  lemma ExtendShown(f: Fetch, mode: Mode, off: nat)
    requires Plain(f) && Moved(f, mode, off).Some?
    ensures Extend(Show(f), mode, off) == Some(Show(Moved(f, mode, off).value))
    ensures Plain(Moved(f, mode, off).value)
  {
    if mode.Dot? {
      ShowParts(f.offset, f.inner);
      var head := "+0x" + Numeral(off + f.offset, 16) + "(";
      assert head + (Show(f.inner) + ")") == head + Show(f.inner) + ")";
      assert off + f.offset == f.offset + off;
    }
  }

  lemma MovedFurther(f: Fetch, mode: Mode, off: nat, more: nat, c: Place, d: Place, memory: nat -> nat, regs: string -> nat)
    requires Moved(f, mode, off).Some? && Denotes(Moved(f, mode, off).value, c, memory, regs)
    requires c.inMemory && d.inMemory && d.base == c.base + more && d.loads == c.loads
    ensures Moved(f, mode, off + more).Some? && Denotes(Moved(f, mode, off + more).value, d, memory, regs)
  {
  }

  /** The last cell is that of the object reached. */
  predicate Ties(p: Program, last: Last, k: Kind) {
    match k
    case Whole(ty, isArray) =>
      if isArray.None? then last == OfType(ty)
      else
        && last.OfRow? && last.cell.ty == ty && ('[' in last.cell.name <==> isArray.value)
        && (isArray.value || last.cell.size == SizeOf(p.sizes, ty))
    case Inside(_, _, cast) => last == if cast.Some? then OfType(cast.value) else Unfinished
  }

  lemma TiedStyle(d: Display, p: Program, last: Last, k: Kind)
    requires Ties(p, last, k)
    ensures LastStyle(d, last) == KindStyle(d, p, k)
  {
    hide StyleOf, TypeText, SizeOf;
  }

  /** Between rounds: the text is that of a fetch argument for the object reached. */
  ghost predicate Rests(p: Program, s: Progress, c: Place, f: Fetch, memory: nat -> nat, regs: string -> nat) {
    && Plain(f) && s.fxpr == Show(f) && s.mem == "" && c.kind.Whole? && c.kind.ty == s.ty
    && Ties(p, s.last, c.kind) && Denotes(f, c, memory, regs)
  }

  /** Inside a round: the members in reach are those a path through inline structs leads to from `root`. */
  ghost predicate Reaches(p: Program, s: Progress, c: Place, root: seq<Field>, path: seq<string>, f: Fetch,
                          memory: nat -> nat, regs: string -> nat) {
    && Plain(f) && s.fxpr == Show(f) && s.mem == PathText(path)
    && WellFormed(root) && s.table == Flatten(p.sizes, "", 0, root)
    && Descend(root, path).Some?
    && c.kind.Inside? && c.kind.fields == Descend(root, path).value.fields && c.kind.entry == Run(f, memory, regs)
    && if c.inMemory then
         && Moved(f, s.mode, Descend(root, path).value.offset).Some?
         && Denotes(Moved(f, s.mode, Descend(root, path).value.offset).value, c, memory, regs)
       else s.mode.Dot? && f.Reg?
  }

  /** A nested member is pending: its name is the path without the last dot. */
  ghost predicate Pends(p: Program, s: Progress, c: Place, root: seq<Field>, path: seq<string>, f: Fetch,
                        memory: nat -> nat, regs: string -> nat) {
    s.mem != "" && Reaches(p, s.(mem := s.mem + "."), c, root, path, f, memory, regs) && Ties(p, s.last, c.kind)
  }

  /** Entering from a whole object: exactly as the rules allow. */
  lemma OpenWhole(p: Program, s: Progress, c: Place, f: Fetch, mode: Mode, memory: nat -> nat, regs: string -> nat)
    requires Sound(p) && Rests(p, s, c, f, memory, regs)
    ensures Open(CODE_RULES, p, memory, c, mode).Some? <==> Enter(Tables(p), s, mode).Some?
    ensures Open(CODE_RULES, p, memory, c, mode).Some? ==>
      var d := Open(CODE_RULES, p, memory, c, mode).value;
      d.kind.Inside? && Reaches(p, Enter(Tables(p), s, mode).value, d, d.kind.fields, [], f, memory, regs)
  {
    hide Flatten, WellFormed, Ties;
    NoStars(s.ty);
    if Open(CODE_RULES, p, memory, c, mode).Some? {
      var d := Open(CODE_RULES, p, memory, c, mode).value;
      assert Descend(d.kind.fields, []) == Some(Part(d.kind.fields, 0));
    }
  }

  lemma NoStars(ty: CType)
    ensures !ty.Pointer? ==> (Tag(ty).Some? <==> ty.Struct?) && (ty.Struct? ==> Tag(ty) == Some(ty.tag))
  {
  }

  lemma OpenInside(p: Program, s: Progress, c: Place, root: seq<Field>, path: seq<string>, f: Fetch, mode: Mode,
                   memory: nat -> nat, regs: string -> nat)
    requires Pends(p, s, c, root, path, f, memory, regs)
    ensures c.kind.Inside? && Open(CODE_RULES, p, memory, c, mode) == Some(c)
    ensures Enter(Tables(p), s, mode) == Some(s.(mem := s.mem + "."))
  {
  }

  /** A text with an opening bracket: what stands before it, and the number behind it. */
  lemma BracketParts(p: string, rest: string)
    requires '[' !in p
    ensures var t := p + ['['] + rest;
            && '[' in t && Before(t, '[') == p
            && IndexOf(t) == if ']' in rest then IntText(Before(rest, ']')) else None
  {
    hide Before;
    BeforeJoin(p, '[', rest);
    assert (p + ['['] + rest)[|p| + 1..] == rest;
  }

  lemma NoBracket(t: string)
    requires '[' !in t
    ensures Before(t, '[') == t && IndexOf(t) == None
  {
    hide Before;
    BeforeJoin(t, '[', "");
  }

  lemma {:induction false} CutBracket(t: string)
    requires |Before(t, '[')| < |t|
    ensures var b := Before(t, '[');
            '[' !in b && t == b + ['['] + t[|b| + 1..]
  {
    hide Before;
  }

  /** What a link's text contributes behind a prefix without brackets. */
  lemma {:induction false} TextParts(pre: string, t: string)
    requires '[' !in pre
    ensures '[' in (pre + t) <==> '[' in t
    ensures Before(pre + t, '[') == pre + Before(t, '[')
    ensures IndexOf(pre + t) == IndexOf(t)
  {
    hide Before, IndexOf;
    var b := Before(t, '[');
    if |b| == |t| {
      assert b == t;
      NoBracket(t);
      NoBracket(pre + t);
    } else {
      var rest := t[|b| + 1..];
      CutBracket(t);
      BracketParts(b, rest);
      BracketParts(pre + b, rest);
      Regrouped(pre, b, rest);
    }
  }

  lemma Regrouped(pre: string, b: string, rest: string)
    ensures pre + (b + ['['] + rest) == (pre + b) + ['['] + rest
  {
  }

  /** Brackets without a number are rejected. */
  lemma UnreadableRejected(s: Progress, seg: Segment)
    requires Reading(seg).None? && '[' !in s.mem
    ensures Select(s, seg).None?
  {
    hide IndexOf, Before, OffsetIn;
    TextParts(s.mem, seg.text);
    IndexedNotNested(Before(s.mem + seg.text, '['), s.table);
  }

  lemma {:induction false} IndexedNotNested(m: string, table: seq<Cell>)
    ensures !Search(m, true, table).Nested?
  {
    if table != [] {
      IndexedNotNested(m, table[1..]);
    }
  }

  /** What the compiler finds behind a path: the rows of the member named, and nothing else. */
  lemma FoundRows(p: Program, s: Progress, root: seq<Field>, path: seq<string>, seg: Segment, a: Access)
    requires WellFormed(root) && s.table == Flatten(p.sizes, "", 0, root) && s.mem == PathText(path)
    requires Descend(root, path).Some? && Reading(seg) == Some(a) && '.' !in seg.text
    ensures var d := Descend(root, path).value;
            var mem := s.mem + seg.text;
            var rows := RowsOf(p.sizes, PathText(path), d.offset, d.fields, a.name);
            && '[' !in PathText(path) && WellFormed(d.fields)
            && Before(mem, '[') == PathText(path) + a.name && ('[' in mem <==> a.index.Some?) && IndexOf(mem) == a.index
            && Search(Before(mem, '['), '[' in mem, s.table) == Search(PathText(path) + a.name, a.index.Some?, rows)
            && OffsetOf(mem, s.table) == OffsetIn(PathText(path) + a.name, if a.index.Some? then a.index.value else 0, rows)
  {
    hide Flatten, FlattenField, WellFormed, Search, OffsetIn, Descend, PathText, RowsOf, IndexOf;
    var d := Descend(root, path).value;
    DescendWellFormed(root, path);
    TextParts(PathText(path), seg.text);
    WholeText(seg.text);
    assert "" + PathText(path) == PathText(path) && 0 + d.offset == d.offset;
    FocusPath(p.sizes, "", 0, root, path, a.name, a.index.Some?, if a.index.Some? then a.index.value else 0);
    if a.index.None? {
      WholeText(PathText(path) + a.name);
    }
  }

  lemma WholeText(t: string)
    ensures '[' !in t ==> Before(t, '[') == t && IndexOf(t) == None
  {
    if '[' !in t {
      BeforeJoin(t, '[', "");
    }
  }

  /** A member that is not declared is rejected. */
  lemma SelectUnknown(p: Program, s: Progress, c: Place, root: seq<Field>, path: seq<string>, f: Fetch, seg: Segment, a: Access,
                      memory: nat -> nat, regs: string -> nat)
    requires Reaches(p, s, c, root, path, f, memory, regs) && Reading(seg) == Some(a) && '.' !in seg.text
    requires Lookup(c.kind.fields, a.name).None?
    ensures Select(s, seg).None?
  {
    hide Plain, Flatten, FlattenField, WellFormed, Show, Descend, Denotes, Moved, PathText, Before, IndexOf, OffsetOf;
    FoundRows(p, s, root, path, seg, a);
  }

  /** Selecting an inline member leaves it pending, unless it is indexed. */
  lemma SelectInline(p: Program, s: Progress, c: Place, root: seq<Field>, path: seq<string>, f: Fetch, seg: Segment, a: Access,
                     memory: nat -> nat, regs: string -> nat)
    requires Reaches(p, s, c, root, path, f, memory, regs) && Reading(seg) == Some(a) && '.' !in seg.text
    requires Lookup(c.kind.fields, a.name).Some? && Lookup(c.kind.fields, a.name).value.Inline?
    ensures Select(s, seg).Some? <==> Member(CODE_RULES, p, c, a).Some?
    ensures Select(s, seg).Some? ==>
      Pends(p, Select(s, seg).value, Member(CODE_RULES, p, c, a).value, root, path + [a.name], f, memory, regs)
  {
    hide Plain, Flatten, FlattenField, WellFormed, Show, Search, Descend, Denotes, Moved, PathText, Before, IndexOf, OffsetOf, ArrayChecked;
    var d := Descend(root, path).value;
    var g := Lookup(d.fields, a.name).value;
    FoundRows(p, s, root, path, seg, a);
    MemberDeclared(d.fields, a.name);
    FieldDeclared(g);
    InlineFound(p.sizes, PathText(path), d.offset, g);
    SameText(seg, a);
    if a.index.None? {
      DescendFurther(root, path, a.name);
      PathTextAppend(path, a.name);
      if c.inMemory {
        MovedFurther(f, s.mode, d.offset, g.offset, c, Member(CODE_RULES, p, c, a).value, memory, regs);
      }
    }
  }

  lemma SameText(seg: Segment, a: Access)
    requires Reading(seg) == Some(a)
    ensures a.index.None? ==> seg.text == a.name
    ensures a.mode == seg.mode && a.cast == seg.cast
    ensures seg.text == "" ==> a.name == ""
  {
    WholeText(seg.text);
  }

  /** Whether the compiler takes a plain member is whether C lets it be indexed so. */
  lemma LeafRow(p: Program, s: Progress, root: seq<Field>, path: seq<string>, seg: Segment, a: Access, field: Field)
    requires WellFormed(root) && s.table == Flatten(p.sizes, "", 0, root) && s.mem == PathText(path)
    requires Descend(root, path).Some? && Lookup(Descend(root, path).value.fields, a.name) == Some(field)
    requires Reading(seg) == Some(a) && '.' !in seg.text && field.Leaf?
    ensures var mem := s.mem + seg.text;
            var found := Search(Before(mem, '['), '[' in mem, s.table);
            && !found.Nested? && seg.text != ""
            && (Indexable(field, a.index) <==> found.Row? && ArrayChecked(mem, found.cell) && OffsetOf(mem, s.table).Some?)
            && (Indexable(field, a.index) ==> found.cell.ty == field.ty && ('[' in found.cell.name <==> field.count.Some?))
            && (Indexable(field, a.index) && field.count.None? ==> found.cell.size == SizeOf(p.sizes, field.ty))
            && (Indexable(field, a.index) ==>
                OffsetOf(mem, s.table) == Some(Descend(root, path).value.offset + (field.offset + Element(p, field, a))))
  {
    hide Flatten, FlattenField, WellFormed, Search, OffsetIn, Descend, PathText, Times, SizeOf, IndexOf, Bracket, Before, OffsetOf;
    var d := Descend(root, path).value;
    FoundRows(p, s, root, path, seg, a);
    MemberDeclared(d.fields, a.name);
    FieldDeclared(field);
    SameText(seg, a);
    LeafFound(p.sizes, PathText(path), d.offset, field, a.index);
    OnceIs(SizeOf(p.sizes, field.ty));
  }

  lemma OnceIs(n: nat)
    ensures Times(1, n) == n
  {
  }

  /** Selecting a plain member extends the text to a fetch argument for it. */
  lemma SelectLeaf(p: Program, s: Progress, c: Place, root: seq<Field>, path: seq<string>, f: Fetch, seg: Segment, a: Access,
                   memory: nat -> nat, regs: string -> nat) returns (g: Fetch)
    requires Reaches(p, s, c, root, path, f, memory, regs) && Reading(seg) == Some(a) && '.' !in seg.text
    requires Lookup(c.kind.fields, a.name).Some? && Lookup(c.kind.fields, a.name).value.Leaf?
    ensures Select(s, seg).Some? <==> Member(CODE_RULES, p, c, a).Some?
    ensures Select(s, seg).Some? ==> Rests(p, Select(s, seg).value, Member(CODE_RULES, p, c, a).value, g, memory, regs)
  {
    hide Plain, Flatten, WellFormed, Show, Search, Descend, Denotes, Moved, PathText, ArrayChecked, OffsetOf,
         Element, Extend, Indexable, Before, Reading, SizeOf;
    var field := Lookup(c.kind.fields, a.name).value;
    var off, more := Descend(root, path).value.offset, field.offset + Element(p, field, a);
    g := f;
    LeafRow(p, s, root, path, seg, a, field);
    SameText(seg, a);
    if !c.inMemory {
      NoDotOnRegister(f);
    } else if Indexable(field, a.index) {
      MovedFurther(f, s.mode, off, more, c, Member(CODE_RULES, p, c, a).value, memory, regs);
      ExtendShown(f, s.mode, off + more);
      g := Moved(f, s.mode, off + more).value;
    }
  }

  /** A dot on a register is noticed only when a plain member is reached. */
  lemma NoDotOnRegister(f: Fetch)
    requires Plain(f) && f.Reg?
    ensures forall off :: Extend(Show(f), Dot, off) == None
  {
    BeforeJoin(f.name, '(', "");
  }

  /** Members as cutting the text of a chain leaves them. */
  predicate Undotted(segs: seq<Segment>) {
    forall i :: 0 <= i < |segs| ==> '.' !in segs[i].text && '-' !in segs[i].text
  }

  /** Where the rules lead, if the chain can be read and is allowed. */
  function Arrives(p: Program, memory: nat -> nat, c: Place, segs: seq<Segment>): (r: Option<Place>) {
    var chain := Readings(segs);
    if chain.None? then None else Follow(CODE_RULES, p, memory, c, chain.value)
  }

  /** The value of the object at hand: the whole one, or the one from which a pending struct was entered. */
  function AtHand(memory: nat -> nat, c: Place): (r: Outcome) {
    if c.kind.Whole? then Value(memory, c) else c.kind.entry
  }

  /** The compiler's verdict, text and last cell agree with that. */
  ghost predicate Agrees(p: Program, s: Progress, c: Place, segs: seq<Segment>, g: Fetch, memory: nat -> nat, regs: string -> nat) {
    var t, a := Steps(Tables(p), s, segs), Arrives(p, memory, c, segs);
    && (t.Some? <==> a.Some?)
    && (a.Some? ==> Plain(g) && t.value.fxpr == Show(g) && Run(g, memory, regs) == AtHand(memory, a.value))
    && (a.Some? ==> Ties(p, t.value.last, a.value.kind))
  }

  lemma ArrivesStep(p: Program, memory: nat -> nat, c: Place, segs: seq<Segment>)
    requires segs != []
    ensures var a, o := Reading(segs[0]), Open(CODE_RULES, p, memory, c, segs[0].mode);
            && (a.None? || o.None? || o.value.kind.Whole? ==> Arrives(p, memory, c, segs).None?)
            && (a.Some? && o.Some? && o.value.kind.Inside? ==>
                  Arrives(p, memory, c, segs) ==
                    if Member(CODE_RULES, p, o.value, a.value).None? then None
                    else Arrives(p, memory, Member(CODE_RULES, p, o.value, a.value).value, segs[1..]))
  {
    hide Member, Open, IndexOf, Before;
    var r := Readings(segs);
    if r.Some? {
      assert r.value[0] == Reading(segs[0]).value && r.value[1..] == Readings(segs[1..]).value;
    }
  }

  /** Between rounds the compiler keeps up with its rules for the rest of the chain, in verdict and in text. */
  lemma {:induction false} Keeps(p: Program, s: Progress, c: Place, segs: seq<Segment>,
                                 root: seq<Field>, path: seq<string>, f: Fetch, memory: nat -> nat, regs: string -> nat)
    returns (g: Fetch)
    requires Sound(p) && Undotted(segs)
    requires Rests(p, s, c, f, memory, regs) || Pends(p, s, c, root, path, f, memory, regs)
    ensures Agrees(p, s, c, segs, g, memory, regs)
    decreases |segs|, 1
  {
    hide Open, Member, Enter, Select, Tables, Reaches, Denotes, Plain, Show, Moved, Sound, Reading, Arrives, Ties;
    g := f;
    if segs == [] {
      Ends(p, s, c, root, path, f, memory, regs);
      return;
    }
    var mode := segs[0].mode;
    ArrivesStep(p, memory, c, segs);
    var e := Enter(Tables(p), s, mode);
    if s.mem == "" {
      OpenWhole(p, s, c, f, mode, memory, regs);
      var o := Open(CODE_RULES, p, memory, c, mode);
      if o.Some? {
        g := KeepsFrom(p, s, c, segs, o.value.kind.fields, [], f, memory, regs);
      }
    } else {
      OpenInside(p, s, c, root, path, f, mode, memory, regs);
      g := KeepsFrom(p, s, c, segs, root, path, f, memory, regs);
    }
  }

  lemma Ends(p: Program, s: Progress, c: Place, root: seq<Field>, path: seq<string>, f: Fetch,
             memory: nat -> nat, regs: string -> nat)
    requires Rests(p, s, c, f, memory, regs) || Pends(p, s, c, root, path, f, memory, regs)
    ensures Agrees(p, s, c, [], f, memory, regs)
  {
    hide Plain, Show, Moved, Tables, Ties;
  }

  /** The same once the members in reach are known. */
  lemma {:induction false} KeepsFrom(p: Program, s: Progress, c: Place, segs: seq<Segment>,
                                     root: seq<Field>, path: seq<string>, f: Fetch, memory: nat -> nat, regs: string -> nat)
    returns (g: Fetch)
    requires Sound(p) && Undotted(segs) && segs != []
    requires Enter(Tables(p), s, segs[0].mode).Some? && Open(CODE_RULES, p, memory, c, segs[0].mode).Some?
    requires Open(CODE_RULES, p, memory, c, segs[0].mode).value.kind.Inside?
    requires Reaches(p, Enter(Tables(p), s, segs[0].mode).value, Open(CODE_RULES, p, memory, c, segs[0].mode).value,
                     root, path, f, memory, regs)
    ensures Agrees(p, s, c, segs, g, memory, regs)
    decreases |segs|, 0
  {
    hide Open, Member, Enter, Select, Tables, Denotes, Plain, Show, Moved, Sound, Reading, Arrives, Flatten, WellFormed, Descend;
    var seg := segs[0];
    var e, o := Enter(Tables(p), s, seg.mode).value, Open(CODE_RULES, p, memory, c, seg.mode).value;
    g := f;
    ArrivesStep(p, memory, c, segs);
    DescendWellFormed(root, path);
    if Reading(seg).None? {
      UnreadableRejected(e, seg);
      return;
    }
    var a := Reading(seg).value;
    var r, q := root, path;
    MemberKnown(p, o, a);
    if Lookup(o.kind.fields, a.name).None? {
      SelectUnknown(p, e, o, root, path, f, seg, a, memory, regs);
      return;
    }
    if Lookup(o.kind.fields, a.name).value.Inline? {
      SelectInline(p, e, o, root, path, f, seg, a, memory, regs);
      q := path + [a.name];
    } else {
      g := SelectLeaf(p, e, o, root, path, f, seg, a, memory, regs);
    }
    if Select(e, seg).Some? {
      g := Keeps(p, Select(e, seg).value, Member(CODE_RULES, p, o, a).value, segs[1..], r, q, g, memory, regs);
    }
  }

  lemma MemberKnown(p: Program, c: Place, a: Access)
    requires c.kind.Inside?
    ensures Lookup(c.kind.fields, a.name).None? ==> Member(CODE_RULES, p, c, a).None?
  {
  }

  /**
   Exactly what the compiler accepts, for every program, memory, register and chain of links: the chains
   that can be read, that its rules allow and whose object can be shown; and the kernel's reading of the
   text it emits makes the loads and gives the value that the rules give, shown so.
   */
  lemma CompileExact(d: Display, p: Program, reg: string, argt: CType, segs: seq<Segment>, memory: nat -> nat, regs: string -> nat)
    requires Sound(p) && RegName(reg) && Undotted(segs)
    ensures var out := Compile(d, Tables(p), reg, argt, segs);
            var chain := Readings(segs);
            && (out.Some? <==>
                && chain.Some? && Evaluate(CODE_RULES, p, memory, regs(reg), argt, chain.value).Some?
                && Shown(CODE_RULES, d, p, memory, regs(reg), argt, chain.value).Some?)
            && (out.Some? ==>
                Emits(d, out.value, Evaluate(CODE_RULES, p, memory, regs(reg), argt, chain.value).value,
                      Shown(CODE_RULES, d, p, memory, regs(reg), argt, chain.value).value, memory, regs))
  {
    hide Steps, Follow, Tables, Show, Readings, LastStyle, KindStyle, Styled, Emits, Ties;
    var s, c := Start(reg, argt), Register(regs(reg), argt);
    ShowReg(reg);
    StartTied(p, reg, argt);
    var g := Keeps(p, s, c, segs, [], [], Reg(reg), memory, regs);
    var a, t := Arrives(p, memory, c, segs), Steps(Tables(p), s, segs);
    if a.Some? {
      TiedStyle(d, p, t.value.last, a.value.kind);
      NothingShown(d, p, a.value.kind);
      if LastStyle(d, t.value.last).Some? {
        StyledEmits(d, g, LastStyle(d, t.value.last).value, memory, regs);
      }
    }
  }

  /** The text is read as a fetch argument that gives this value, shown in this style. */
  ghost predicate Emits(d: Display, text: string, v: Outcome, style: Style, memory: nat -> nat, regs: string -> nat) {
    && ReadArgument(text).Some?
    && ReadArgument(text).value.display == DisplayText(d, style)
    && Run(ReadArgument(text).value.fetch, memory, regs) == Displayed(memory, style, v)
  }

  lemma StyledEmits(d: Display, g: Fetch, style: Style, memory: nat -> nat, regs: string -> nat)
    requires Plain(g)
    ensures Emits(d, Styled(d, Show(g), style), Run(g, memory, regs), style, memory, regs)
  {
    hide ReadArgument, DisplayText;
    if style.AtPointer? {
      assert Show(Deref(0, g)) == "+0x0(" + Show(g) + ")" by { ZeroOffset(g); }
      ReadShown(Deref(0, g), DisplayText(d, style));
    } else {
      ReadShown(g, DisplayText(d, style));
    }
  }

  lemma ZeroOffset(g: Fetch)
    ensures Show(Deref(0, g)) == "+0x0(" + Show(g) + ")"
  {
    NumeralShape(0, 16);
    assert "+0x" + Numeral(0, 16) + "(" == "+0x0(";
  }

  lemma StartTied(p: Program, reg: string, argt: CType)
    ensures Ties(p, Start(reg, argt).last, Whole(argt, None))
  {
  }

  /** A struct that is not cast cannot be shown. */
  lemma NothingShown(d: Display, p: Program, k: Kind)
    ensures KindStyle(d, p, k).Some? && k.Inside? ==> k.cast.Some?
  {
    hide StyleOf, TypeText;
  }

  lemma ShowReg(reg: string)
    ensures Show(Reg(reg)) == reg
  {
  }

  // ---- the compiler against C ----

  lemma {:induction false} StrictIsLax(p: Program, memory: nat -> nat, c: Place, chain: seq<Access>)
    requires Follow(C_RULES, p, memory, c, chain).Some?
    ensures Follow(CODE_RULES, p, memory, c, chain) == Follow(C_RULES, p, memory, c, chain)
    decreases |chain|
  {
    if chain != [] {
      var o := Open(C_RULES, p, memory, c, chain[0].mode).value;
      OpenLax(p, memory, c, chain[0].mode);
      StrictIsLax(p, memory, Member(C_RULES, p, o, chain[0]).value, chain[1..]);
    }
  }

  lemma OpenLax(p: Program, memory: nat -> nat, c: Place, mode: Mode)
    requires Open(C_RULES, p, memory, c, mode).Some?
    ensures Open(CODE_RULES, p, memory, c, mode) == Open(C_RULES, p, memory, c, mode)
  {
    if c.kind.Whole? && mode.Arrow? {
      NoStars(c.kind.ty.target);
    }
  }

  /** Chains that C accepts name declared members, so they are read as written. */
  lemma {:induction false} AcceptedReads(p: Program, memory: nat -> nat, c: Place, chain: seq<Access>)
    requires Sound(p) && (c.kind.Inside? ==> WellFormed(c.kind.fields)) && Follow(C_RULES, p, memory, c, chain).Some?
    ensures Readings(SegmentsOf(chain)) == Some(chain) && Undotted(SegmentsOf(chain))
    decreases |chain|
  {
    hide WellFormed, IndexOf, Before, Reading;
    if chain != [] {
      var o := Open(C_RULES, p, memory, c, chain[0].mode).value;
      OpenWellFormed(p, memory, c, chain[0].mode);
      MemberDeclared(o.kind.fields, chain[0].name);
      FieldDeclared(Lookup(o.kind.fields, chain[0].name).value);
      AcceptedReads(p, memory, Member(C_RULES, p, o, chain[0]).value, chain[1..]);
      ReadsAsWritten(chain[0]);
      var segs := SegmentsOf(chain);
      assert segs[0] == SegmentOf(chain[0]) && segs[1..] == SegmentsOf(chain[1..]);
      assert [chain[0]] + chain[1..] == chain;
    }
  }

  lemma OpenWellFormed(p: Program, memory: nat -> nat, c: Place, mode: Mode)
    requires Sound(p) && (c.kind.Inside? ==> WellFormed(c.kind.fields)) && Open(C_RULES, p, memory, c, mode).Some?
    ensures var o := Open(C_RULES, p, memory, c, mode).value; o.kind.Inside? && WellFormed(o.kind.fields)
  {
  }

  lemma ReadsAsWritten(a: Access)
    requires Identifier(a.name)
    ensures Reading(SegmentOf(a)) == Some(a) && '.' !in SegmentOf(a).text && '-' !in SegmentOf(a).text
  {
    hide IndexOf, Before;
    LeafName("", a.name, a.index);
    assert "" + a.name == a.name;
    BracketPlain(a.index);
    if a.index.None? {
      assert a.name + Bracket(a.index) == a.name;
    }
  }

  lemma BracketPlain(n: Option<nat>)
    ensures '.' !in Bracket(n) && '-' !in Bracket(n)
  {
    if n.Some? {
      NumeralPlain(n.value, 10, '.');
      NumeralPlain(n.value, 10, '-');
    }
  }

  /** Chains that C accepts enter structs without casts. */
  lemma {:induction false} StrictUncast(p: Program, memory: nat -> nat, c: Place, chain: seq<Access>)
    requires Follow(C_RULES, p, memory, c, chain).Some? && (c.kind.Inside? ==> c.kind.cast.None?)
    ensures var e := Follow(C_RULES, p, memory, c, chain).value;
            e.kind.Inside? ==> e.kind.cast.None?
    decreases |chain|
  {
    if chain != [] {
      var o := Open(C_RULES, p, memory, c, chain[0].mode).value;
      StrictUncast(p, memory, Member(C_RULES, p, o, chain[0]).value, chain[1..]);
    }
  }

  /** What C accepts, the compiler's rules accept with the same value and the same display. */
  lemma StrictEvaluates(d: Display, p: Program, memory: nat -> nat, value: nat, argt: CType, chain: seq<Access>)
    requires Evaluate(C_RULES, p, memory, value, argt, chain).Some?
    ensures Evaluate(CODE_RULES, p, memory, value, argt, chain) == Evaluate(C_RULES, p, memory, value, argt, chain)
    ensures Shown(CODE_RULES, d, p, memory, value, argt, chain) == Shown(C_RULES, d, p, memory, value, argt, chain)
  {
    hide Follow, KindStyle;
    StrictIsLax(p, memory, Register(value, argt), chain);
  }

  /**
   Compiler correctness: whatever the program, the memory and the register, a chain that C accepts is
   accepted exactly when its object can be shown, and the kernel's reading of the emitted text makes the
   same loads and gives the same value.
   */
  lemma CompileCorrect(d: Display, p: Program, reg: string, argt: CType, chain: seq<Access>, memory: nat -> nat, regs: string -> nat)
    requires Sound(p) && RegName(reg) && Evaluate(C_RULES, p, memory, regs(reg), argt, chain).Some?
    ensures var out := Compile(d, Tables(p), reg, argt, SegmentsOf(chain));
            var style := Shown(C_RULES, d, p, memory, regs(reg), argt, chain);
            && (out.Some? <==> style.Some?)
            && (out.Some? ==>
                Emits(d, out.value, Evaluate(C_RULES, p, memory, regs(reg), argt, chain).value, style.value, memory, regs))
  {
    hide Follow, Compile, Tables, Readings, Emits, KindStyle;
    var c := Register(regs(reg), argt);
    StrictEvaluates(d, p, memory, regs(reg), argt, chain);
    AcceptedReads(p, memory, c, chain);
    CompileExact(d, p, reg, argt, SegmentsOf(chain), memory, regs);
  }

  /** Even where it cannot be shown, the text before the suffix is right. */
  lemma FetchCorrect(p: Program, reg: string, argt: CType, chain: seq<Access>, memory: nat -> nat, regs: string -> nat)
    requires Sound(p) && RegName(reg) && Evaluate(C_RULES, p, memory, regs(reg), argt, chain).Some?
    ensures var t := Steps(Tables(p), Start(reg, argt), SegmentsOf(chain));
            && t.Some? && ReadFetch(t.value.fxpr).Some?
            && Some(Run(ReadFetch(t.value.fxpr).value, memory, regs)) == Evaluate(C_RULES, p, memory, regs(reg), argt, chain)
  {
    hide Steps, Follow, Tables, Show, Readings, ReadFetch, Ties;
    var s, c := Start(reg, argt), Register(regs(reg), argt);
    StrictIsLax(p, memory, c, chain);
    AcceptedReads(p, memory, c, chain);
    ShowReg(reg);
    StartTied(p, reg, argt);
    var g := Keeps(p, s, c, SegmentsOf(chain), [], [], Reg(reg), memory, regs);
    ReadShow(g);
  }

  /** The link at hand is as C has it. */
  predicate Strict(c: Place, mode: Mode) {
    && (c.kind.Inside? ==> mode.Dot?)
    && (c.kind.Whole? && mode.Arrow? && c.kind.ty.Pointer? ==> c.kind.ty.target.Struct?)
    && (c.kind.Whole? && mode.Dot? ==> c.inMemory)
  }

  /**
   No link uses a relaxation: an arrow behind an inline struct, several stars, a dot on a register, or a
   cast on an inline struct, be it on the way or at the end.
   */
  predicate Disciplined(p: Program, memory: nat -> nat, c: Place, chain: seq<Access>)
    decreases |chain|
  {
    if chain == [] then true else
    var a := chain[0];
    var o := Open(CODE_RULES, p, memory, c, a.mode);
    && Strict(c, a.mode)
    && (o.Some? && o.value.kind.Inside? ==>
          var m := Member(CODE_RULES, p, o.value, a);
          && (m.Some? && m.value.kind.Inside? ==> a.cast.None?)
          && (m.Some? ==> Disciplined(p, memory, m.value, chain[1..])))
  }

  lemma {:induction false} FollowedExactly(p: Program, memory: nat -> nat, c: Place, chain: seq<Access>)
    ensures Follow(C_RULES, p, memory, c, chain).Some? <==>
      Follow(CODE_RULES, p, memory, c, chain).Some? && Disciplined(p, memory, c, chain)
    decreases |chain|
  {
    if chain != [] {
      var a := chain[0];
      var o := Open(CODE_RULES, p, memory, c, a.mode);
      OpenAlike(p, memory, c, a.mode);
      if o.Some? && o.value.kind.Inside? {
        var m := Member(CODE_RULES, p, o.value, a);
        if m.Some? {
          FollowedExactly(p, memory, m.value, chain[1..]);
        }
      }
    }
  }

  lemma OpenAlike(p: Program, memory: nat -> nat, c: Place, mode: Mode)
    ensures Strict(c, mode) ==> Open(C_RULES, p, memory, c, mode) == Open(CODE_RULES, p, memory, c, mode)
    ensures Open(C_RULES, p, memory, c, mode).Some? ==> Strict(c, mode)
  {
    if c.kind.Whole? && c.kind.ty.Pointer? {
      NoStars(c.kind.ty.target);
    }
  }

  /** C accepts a chain exactly when the compiler's rules do and no relaxation is used. */
  lemma TakenExactly(p: Program, memory: nat -> nat, value: nat, argt: CType, chain: seq<Access>)
    ensures Evaluate(C_RULES, p, memory, value, argt, chain).Some? <==>
      Evaluate(CODE_RULES, p, memory, value, argt, chain).Some? && Disciplined(p, memory, Register(value, argt), chain)
  {
    hide Follow, Disciplined;
    var c := Register(value, argt);
    FollowedExactly(p, memory, c, chain);
    if Follow(C_RULES, p, memory, c, chain).Some? {
      StrictIsLax(p, memory, c, chain);
      StrictUncast(p, memory, c, chain);
    }
  }

  // ---- chains that C rejects and the compiler takes ----

  const S := Struct("struct s")
  const X := Leaf("x", Scalar("int", 4), None, 4)

  /** struct s { struct s *n; struct { int x; } u; }; with u at 8 and x at 4 inside it. */
  function Sample(): (p: Program) {
    Program(map["struct s" := [Leaf("n", Pointer(S), None, 0), Inline("u", 8, [X])]], map["struct s" := 16])
  }

  lemma SampleSound()
    ensures Sound(Sample())
  {
    assert Declared(X);
    assert WellFormed([X]);
    assert Declared(Leaf("n", Pointer(S), None, 0)) && Declared(Inline("u", 8, [X]));
  }

  lemma SampleLookup()
    ensures var fields := Sample().structs["struct s"];
            && Lookup(fields, "n") == Some(Leaf("n", Pointer(S), None, 0))
            && Lookup(fields, "u") == Some(Inline("u", 8, [X])) && Lookup([X], "x") == Some(X)
  {
    var fields := Sample().structs["struct s"];
    assert fields[1..] == [Inline("u", 8, [X])];
  }

  lemma FollowOne(rules: Rules, p: Program, memory: nat -> nat, c: Place, a: Access, rest: seq<Access>)
    ensures var o := Open(rules, p, memory, c, a.mode);
            Follow(rules, p, memory, c, [a] + rest) ==
              if o.None? || o.value.kind.Whole? then None
              else if Member(rules, p, o.value, a).None? then None
              else Follow(rules, p, memory, Member(rules, p, o.value, a).value, rest)
  {
    hide Open, Member;
    assert ([a] + rest)[1..] == rest;
  }

  lemma NoMore(rules: Rules, p: Program, memory: nat -> nat, c: Place)
    ensures Follow(rules, p, memory, c, []) == Some(c)
  {
  }

  /** A chain of two named links, as the compiler gets it. */
  lemma TwoLinks(a: Access, b: Access)
    requires Identifier(a.name) && Identifier(b.name)
    ensures var segs := [SegmentOf(a), SegmentOf(b)];
            Undotted(segs) && Readings(segs) == Some([a] + ([b] + []))
  {
    ReadsAsWritten(a);
    ReadsAsWritten(b);
    hide Reading;
    var segs := [SegmentOf(a), SegmentOf(b)];
    assert segs[1..] == [SegmentOf(b)] && segs[1..][1..] == [];
    assert Readings(segs[1..]) == Some([b] + []);
  }

  lemma OneLink(a: Access)
    requires Identifier(a.name)
    ensures Undotted([SegmentOf(a)]) && Readings([SegmentOf(a)]) == Some([a] + [])
  {
    ReadsAsWritten(a);
    hide Reading;
    assert [SegmentOf(a)][1..] == [];
  }

  lemma {:induction false} NotContained(s: string, w: string, c: char)
    requires c in w && c !in s
    ensures !Contains(s, w)
  {
    if s != "" {
      NotContained(s[1..], w, c);
    }
  }

  /** What becomes of a chain in the sample program that the compiler's rules lead to `c`. */
  lemma SampleTaken(d: Display, reg: string, argt: CType, segs: seq<Segment>, chain: seq<Access>, c: Place, memory: nat -> nat, regs: string -> nat)
    requires RegName(reg) && Undotted(segs) && Readings(segs) == Some(chain)
    requires Follow(CODE_RULES, Sample(), memory, Register(regs(reg), argt), chain) == Some(c)
    ensures var out, style := Compile(d, Tables(Sample()), reg, argt, segs), KindStyle(d, Sample(), c.kind);
            && (out.Some? <==> style.Some?)
            && (out.Some? ==> Emits(d, out.value, AtHand(memory, c), style.value, memory, regs))
  {
    hide Compile, Tables, Follow, KindStyle, Emits, Sample;
    SampleSound();
    CompileExact(d, Sample(), reg, argt, segs, memory, regs);
    NothingShown(d, Sample(), c.kind);
  }

  /** The member x, wherever it is: 32 bits. */
  lemma ShowsX(d: Display)
    ensures KindStyle(d, Sample(), Whole(X.ty, Some(false))) == Some(Bits(32))
  {
    NotContained("int", "char *", 'h');
    NotContained("int", " char", 'h');
    hide Contains;
  }

  lemma ShowsN(d: Display)
    ensures KindStyle(d, Sample(), Whole(Pointer(S), Some(false))) == Some(Bits(64))
  {
    var t := TypeText(Pointer(S));
    assert t == "struct s *";
    NotContained(t, "char *", 'h');
    NotContained(t, " char", 'h');
    hide Contains;
  }

  /** p->u->x is no C, as u is no pointer; it compiles to what p->u.x means: one load at 12 bytes from the pointer. */
  lemma ArrowInsideTaken(d: Display, reg: string, memory: nat -> nat, regs: string -> nat)
    requires RegName(reg)
    ensures var a, b := Access(Arrow, None, "u", None), Access(Arrow, None, "x", None);
            var out := Compile(d, Tables(Sample()), reg, Pointer(S), [SegmentOf(a), SegmentOf(b)]);
            && Evaluate(C_RULES, Sample(), memory, regs(reg), Pointer(S), [a] + ([b] + [])) == None
            && out.Some? && Emits(d, out.value, Outcome([regs(reg) + 12], memory(regs(reg) + 12)), Bits(32), memory, regs)
  {
    hide Lookup, Compile, Tables, Follow, KindStyle, Emits;
    var a, b, c := Access(Arrow, None, "u", None), Access(Arrow, None, "x", None), Register(regs(reg), Pointer(S));
    SampleLookup();
    TwoLinks(a, b);
    var u := Place(regs(reg) + 8, true, Inside([X], Outcome([], regs(reg)), None), []);
    var x := Place(regs(reg) + 12, true, Whole(X.ty, Some(false)), []);
    FollowOne(C_RULES, Sample(), memory, c, a, [b] + []);
    FollowOne(C_RULES, Sample(), memory, u, b, []);
    FollowOne(CODE_RULES, Sample(), memory, c, a, [b] + []);
    FollowOne(CODE_RULES, Sample(), memory, u, b, []);
    NoMore(CODE_RULES, Sample(), memory, x);
    assert x.loads + [x.base] == [x.base];
    ShowsX(d);
    SampleTaken(d, reg, Pointer(S), [SegmentOf(a), SegmentOf(b)], [a] + ([b] + []), x, memory, regs);
  }

  /** p->n on a struct s ** is no C either; it compiles as if p were a struct s *, leaving a load out. */
  lemma ManyStarsTaken(d: Display, reg: string, memory: nat -> nat, regs: string -> nat)
    requires RegName(reg)
    ensures var a, ty := Access(Arrow, None, "n", None), Pointer(Pointer(S));
            var out := Compile(d, Tables(Sample()), reg, ty, [SegmentOf(a)]);
            && Evaluate(C_RULES, Sample(), memory, regs(reg), ty, [a] + []) == None
            && out.Some? && Emits(d, out.value, Outcome([regs(reg)], memory(regs(reg))), Bits(64), memory, regs)
  {
    hide Lookup, Compile, Tables, Follow, KindStyle, Emits;
    var a, ty := Access(Arrow, None, "n", None), Pointer(Pointer(S));
    var c, n := Register(regs(reg), ty), Place(regs(reg), true, Whole(Pointer(S), Some(false)), []);
    SampleLookup();
    OneLink(a);
    assert Tag(Pointer(S)) == Some("struct s");
    FollowOne(C_RULES, Sample(), memory, c, a, []);
    FollowOne(CODE_RULES, Sample(), memory, c, a, []);
    NoMore(CODE_RULES, Sample(), memory, n);
    assert n.loads + [n.base] == [n.base];
    ShowsN(d);
    SampleTaken(d, reg, ty, [SegmentOf(a)], [a] + [], n, memory, regs);
  }

  /** A cast on an inline struct on the way has no effect: p->(T)u.x compiles to what p->u.x means. */
  lemma CastInlineIgnored(d: Display, reg: string, ty: CType, memory: nat -> nat, regs: string -> nat)
    requires RegName(reg)
    ensures var a, b := Access(Arrow, Some(ty), "u", None), Access(Dot, None, "x", None);
            var out := Compile(d, Tables(Sample()), reg, Pointer(S), [SegmentOf(a), SegmentOf(b)]);
            && Evaluate(C_RULES, Sample(), memory, regs(reg), Pointer(S), [a] + ([b] + [])) == None
            && out.Some? && Emits(d, out.value, Outcome([regs(reg) + 12], memory(regs(reg) + 12)), Bits(32), memory, regs)
  {
    hide Lookup, Compile, Tables, Follow, KindStyle, Emits;
    var a, b, c := Access(Arrow, Some(ty), "u", None), Access(Dot, None, "x", None), Register(regs(reg), Pointer(S));
    SampleLookup();
    TwoLinks(a, b);
    var u := Place(regs(reg) + 8, true, Inside([X], Outcome([], regs(reg)), Some(ty)), []);
    var x := Place(regs(reg) + 12, true, Whole(X.ty, Some(false)), []);
    FollowOne(C_RULES, Sample(), memory, c, a, [b] + []);
    FollowOne(CODE_RULES, Sample(), memory, c, a, [b] + []);
    FollowOne(CODE_RULES, Sample(), memory, u, b, []);
    NoMore(CODE_RULES, Sample(), memory, x);
    assert x.loads + [x.base] == [x.base];
    ShowsX(d);
    SampleTaken(d, reg, Pointer(S), [SegmentOf(a), SegmentOf(b)], [a] + ([b] + []), x, memory, regs);
  }

  /**
   At the end of a chain it has one: p->(T)u is accepted for every type T that can be shown, and stands
   for p itself, the load of u missing.
   */
  lemma CastAtEndTaken(d: Display, reg: string, ty: CType, memory: nat -> nat, regs: string -> nat)
    requires RegName(reg)
    ensures var a, style := Access(Arrow, Some(ty), "u", None), StyleOf(TypeText(ty), None, d.sizes(ty));
            var out := Compile(d, Tables(Sample()), reg, Pointer(S), [SegmentOf(a)]);
            && Evaluate(C_RULES, Sample(), memory, regs(reg), Pointer(S), [a] + []) == None
            && (out.Some? <==> style.Some?)
            && (out.Some? ==> Emits(d, out.value, Outcome([], regs(reg)), style.value, memory, regs))
  {
    hide Lookup, Compile, Tables, Follow, Emits, StyleOf, TypeText;
    var a, c := Access(Arrow, Some(ty), "u", None), Register(regs(reg), Pointer(S));
    SampleLookup();
    OneLink(a);
    var u := Place(regs(reg) + 8, true, Inside([X], Outcome([], regs(reg)), Some(ty)), []);
    FollowOne(C_RULES, Sample(), memory, c, a, []);
    FollowOne(CODE_RULES, Sample(), memory, c, a, []);
    NoMore(CODE_RULES, Sample(), memory, u);
    SampleTaken(d, reg, Pointer(S), [SegmentOf(a)], [a] + [], u, memory, regs);
  }

  /** Not even a dot on a register is noticed then: with a struct s in a register, r.(T)u stands for the register. */
  lemma DotOnRegisterTaken(d: Display, reg: string, ty: CType, memory: nat -> nat, regs: string -> nat)
    requires RegName(reg)
    ensures var a, style := Access(Dot, Some(ty), "u", None), StyleOf(TypeText(ty), None, d.sizes(ty));
            var out := Compile(d, Tables(Sample()), reg, S, [SegmentOf(a)]);
            && Evaluate(C_RULES, Sample(), memory, regs(reg), S, [a] + []) == None
            && (out.Some? <==> style.Some?)
            && (out.Some? ==> Emits(d, out.value, Outcome([], regs(reg)), style.value, memory, regs))
  {
    hide Lookup, Compile, Tables, Follow, Emits, StyleOf, TypeText;
    var a, c := Access(Dot, Some(ty), "u", None), Register(regs(reg), S);
    SampleLookup();
    OneLink(a);
    var u := Place(regs(reg) + 8, false, Inside([X], Outcome([], regs(reg)), Some(ty)), []);
    FollowOne(C_RULES, Sample(), memory, c, a, []);
    FollowOne(CODE_RULES, Sample(), memory, c, a, []);
    NoMore(CODE_RULES, Sample(), memory, u);
    SampleTaken(d, reg, S, [SegmentOf(a)], [a] + [], u, memory, regs);
  }

  /** A cast of a member to char, on the other hand, cannot be shown, whatever the database says. */
  lemma CastToCharRejected(d: Display, n: nat)
    ensures StyleOf(TypeText(Scalar("char", n)), None, d.sizes(Scalar("char", n))) == None
  {
    NotContained("char", "char *", '*');
    hide Contains;
  }

  /** Whatever is written behind the first brackets is not looked at. */
  lemma BehindBrackets(mode: Mode, cast: Option<CType>, name: string, i: nat, junk: string)
    requires '[' !in name
    ensures Reading(Segment(mode, cast, name + Bracket(Some(i)) + junk)) == Some(Access(mode, cast, name, Some(i)))
  {
    hide Before, IndexOf, Numeral, IntText;
    var d := Numeral(i, 10);
    var rest := d + [']'] + junk;
    BracketParts(name, rest);
    NumeralPlain(i, 10, ']');
    BeforeJoin(d, ']', junk);
    IntNumeral(i);
    Bracketed(name, d, junk);
  }

  lemma Bracketed(name: string, d: string, junk: string)
    ensures name + ("[" + d + "]") + junk == name + ['['] + (d + [']'] + junk)
    ensures ']' in d + [']'] + junk
  {
    assert (d + [']'] + junk)[|d|] == ']';
  }
}
