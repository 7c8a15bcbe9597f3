/** Where the chains that C accepts lead: into the struct they name, within its bounds, element by element. */
module InBounds {
  import opened Text
  import opened FetchArg
  import opened StructTable
  import opened Surftrace

  /** A member, with all elements if it is an array, which has some, lies within the first `size` bytes. */
  ghost predicate Fits(sizes: map<string, nat>, f: Field, size: int)
    decreases f
  {
    match f
    case Leaf(_, ty, count, o) => (count.Some? ==> count.value > 0) && o + (if count.Some? then count.value else 1) * SizeOf(sizes, ty) <= size
    case Inline(_, o, fs) => forall g :: g in fs ==> Fits(sizes, g, size - o)
  }

  /** Every struct has a size that its members fit into. */
  ghost predicate LaidOut(p: Program) {
    forall tag :: tag in p.structs ==> tag in p.sizes && forall f :: f in p.structs[tag] ==> Fits(p.sizes, f, p.sizes[tag])
  }

  /** The struct that an object is or points to, and where it starts. */
  function StructAt(memory: nat -> nat, q: Place): (r: Option<(string, nat)>)
    requires q.kind.Whole?
  {
    match q.kind.ty
    case Struct(tag) => Some((tag, q.base))
    case Pointer(Struct(tag)) => Some((tag, Value(memory, q).value))
    case _ => None
  }

  /** The members at hand fit before `end`. */
  ghost predicate Before(p: Program, c: Place, end: int)
    requires c.kind.Inside?
  {
    forall f :: f in c.kind.fields ==> Fits(p.sizes, f, end - c.base)
  }

  lemma TimesIs(a: nat, b: nat)
    ensures Times(a, b) == a * b
  {
    if a > 0 {
      TimesIs(a - 1, b);
    }
  }

  lemma ElementFits(index: nat, count: nat, size: nat)
    requires index < count
    ensures index * size + size <= count * size
  {
    assert (index + 1) * size <= count * size;
  }

  lemma OpenStarts(p: Program, memory: nat -> nat, c: Place, mode: Mode)
    requires LaidOut(p) && c.kind.Whole? && Open(C_RULES, p, memory, c, mode).Some?
    ensures var o := Open(C_RULES, p, memory, c, mode).value;
            && StructAt(memory, c).Some? && o.kind.Inside?
            && var (tag, start) := StructAt(memory, c).value;
            tag in p.structs && tag in p.sizes && o.base == start && Before(p, o, start + p.sizes[tag])
  {
  }

  lemma MemberLies(p: Program, c: Place, a: Access, start: nat, end: int)
    requires c.kind.Inside? && start <= c.base && Before(p, c, end) && Member(C_RULES, p, c, a).Some?
    ensures var m := Member(C_RULES, p, c, a).value;
            && start <= m.base
            && (m.kind.Inside? ==> Before(p, m, end))
            && (m.kind.Whole? && m.kind.isArray.Some? ==> m.base + SizeOf(p.sizes, m.kind.ty) <= end)
  {
    hide SizeOf;
    var f := Lookup(c.kind.fields, a.name).value;
    assert Fits(p.sizes, f, end - c.base);
    if f.Leaf? {
      var size := SizeOf(p.sizes, f.ty);
      if a.index.Some? {
        TimesIs(a.index.value, size);
        ElementFits(a.index.value, f.count.value, size);
      } else if f.count.Some? {
        ElementFits(0, f.count.value, size);
      }
    }
  }

  /** The object reached by the first `k` links is a struct, or points to one, that holds all of [at, at + size). */
  ghost predicate Holds(p: Program, memory: nat -> nat, c: Place, chain: seq<Access>, k: nat, at: nat, size: nat) {
    && k < |chain|
    && var q := Follow(C_RULES, p, memory, c, chain[..k]);
    && q.Some? && q.value.kind.Whole? && StructAt(memory, q.value).Some?
    && var (tag, start) := StructAt(memory, q.value).value;
    tag in p.sizes && start <= at && at + size <= start + p.sizes[tag]
  }

  /** The link behind, from a place inside a struct that ends at `end`. */
  lemma {:induction false} InsideLies(p: Program, memory: nat -> nat, c: Place, chain: seq<Access>, start: nat, end: int) returns (k: nat)
    requires LaidOut(p) && Follow(C_RULES, p, memory, c, chain).Some? && c.kind.Inside? && start <= c.base && Before(p, c, end)
    ensures var e := Follow(C_RULES, p, memory, c, chain).value;
            e.kind.Whole? && e.kind.isArray.Some? ==>
              || (start <= e.base && e.base + SizeOf(p.sizes, e.kind.ty) <= end)
              || Holds(p, memory, c, chain, k, e.base, SizeOf(p.sizes, e.kind.ty))
    decreases |chain|
  {
    hide Fits, SizeOf, StructAt;
    k := 0;
    if chain != [] {
      var a := chain[0];
      var o := Open(C_RULES, p, memory, c, a.mode).value;
      MemberLies(p, o, a, start, end);
      k := AfterMember(p, memory, c, chain, start, end);
    }
  }

  lemma {:induction false} AfterMember(p: Program, memory: nat -> nat, c: Place, chain: seq<Access>, start: nat, end: int) returns (k: nat)
    requires LaidOut(p) && chain != [] && Follow(C_RULES, p, memory, c, chain).Some?
    requires var o := Open(C_RULES, p, memory, c, chain[0].mode).value;
             var m := Member(C_RULES, p, o, chain[0]).value;
             && start <= m.base && (m.kind.Inside? ==> Before(p, m, end))
             && (m.kind.Whole? && m.kind.isArray.Some? ==> m.base + SizeOf(p.sizes, m.kind.ty) <= end)
    ensures var e := Follow(C_RULES, p, memory, c, chain).value;
            e.kind.Whole? && e.kind.isArray.Some? ==>
              || (start <= e.base && e.base + SizeOf(p.sizes, e.kind.ty) <= end)
              || Holds(p, memory, c, chain, k, e.base, SizeOf(p.sizes, e.kind.ty))
    decreases |chain|, 0
  {
    hide Fits, SizeOf, StructAt;
    k := 0;
    var o := Open(C_RULES, p, memory, c, chain[0].mode).value;
    var m := Member(C_RULES, p, o, chain[0]).value;
    var rest := chain[1..];
    if rest != [] {
      var e := Follow(C_RULES, p, memory, c, chain).value;
      if m.kind.Inside? {
        k := InsideLies(p, memory, m, rest, start, end);
      } else {
        k := WholeLies(p, memory, m, rest);
      }
      HoldsLater(p, memory, c, chain, k, e.base, if e.kind.Whole? then SizeOf(p.sizes, e.kind.ty) else 0);
      k := k + 1;
    }
  }

  lemma HoldsLater(p: Program, memory: nat -> nat, c: Place, chain: seq<Access>, k: nat, at: nat, size: nat)
    requires chain != [] && Open(C_RULES, p, memory, c, chain[0].mode).Some?
    requires Open(C_RULES, p, memory, c, chain[0].mode).value.kind.Inside?
    requires Member(C_RULES, p, Open(C_RULES, p, memory, c, chain[0].mode).value, chain[0]).Some?
    ensures Holds(p, memory, Member(C_RULES, p, Open(C_RULES, p, memory, c, chain[0].mode).value, chain[0]).value, chain[1..], k, at, size)
       ==> Holds(p, memory, c, chain, k + 1, at, size)
  {
    hide StructAt, Open, Member;
    if k < |chain| - 1 {
      assert chain[..k + 1][0] == chain[0] && chain[..k + 1][1..] == chain[1..][..k];
    }
  }

  /** From a whole object: what the chain ends at lies in a struct that some part of the chain names. */
  lemma {:induction false} WholeLies(p: Program, memory: nat -> nat, c: Place, chain: seq<Access>) returns (k: nat)
    requires LaidOut(p) && chain != [] && Follow(C_RULES, p, memory, c, chain).Some? && c.kind.Whole?
    ensures var e := Follow(C_RULES, p, memory, c, chain).value;
            e.kind.Whole? && e.kind.isArray.Some? ==> Holds(p, memory, c, chain, k, e.base, SizeOf(p.sizes, e.kind.ty))
    decreases |chain|, 1
  {
    hide Fits, SizeOf;
    var o := Open(C_RULES, p, memory, c, chain[0].mode).value;
    OpenStarts(p, memory, c, chain[0].mode);
    var (tag, start) := StructAt(memory, c).value;
    MemberLies(p, o, chain[0], start, start + p.sizes[tag]);
    k := AfterMember(p, memory, c, chain, start, start + p.sizes[tag]);
    var e := Follow(C_RULES, p, memory, c, chain).value;
    if e.kind.Whole? && e.kind.isArray.Some? && !Holds(p, memory, c, chain, k, e.base, SizeOf(p.sizes, e.kind.ty)) {
      k := 0;
      assert chain[..0] == [];
    }
  }

  /**
   Whatever member a chain names, as it is declared: it lies within the bounds of the struct that a part
   of the chain leads to, so an index never leads out of it.
   */
  lemma ChainInBounds(p: Program, memory: nat -> nat, value: nat, argt: CType, chain: seq<Access>) returns (k: nat)
    requires LaidOut(p) && chain != [] && Follow(C_RULES, p, memory, Register(value, argt), chain).Some?
    ensures var e := Follow(C_RULES, p, memory, Register(value, argt), chain).value;
            e.kind.Whole? && e.kind.isArray.Some? ==>
              Holds(p, memory, Register(value, argt), chain, k, e.base, SizeOf(p.sizes, e.kind.ty))
  {
    k := WholeLies(p, memory, Register(value, argt), chain);
  }

  /** The elements of an array follow each other without gaps, the first one where the array is. */
  lemma ElementsTile(p: Program, f: Field, a: Access, i: nat)
    requires f.Leaf?
    ensures Element(p, f, a.(index := Some(0))) == Element(p, f, a.(index := None)) == 0
    ensures Element(p, f, a.(index := Some(i + 1))) == Element(p, f, a.(index := Some(i))) + SizeOf(p.sizes, f.ty)
  {
  }

  /** Pointers take 8 bytes, so a pointer member that is no text is shown as 64 bits. */
  lemma PointersWide(d: Display, p: Program, target: CType)
    ensures KindStyle(d, p, Whole(Pointer(target), Some(false))) in {Some(AtPointer), Some(Bits(64))}
  {
    hide TypeText, Contains;
    NotStruct(target);
  }

  lemma NotStruct(target: CType)
    ensures TypeText(Pointer(target)) != "struct"
  {
    var s := TypeText(Pointer(target));
    assert s[|s| - 1] == '*';
  }
}
