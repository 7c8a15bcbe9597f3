/**
 How surftrace shows the object a chain names, told from its C type: a pointer to characters as the
 string it points to, an array of characters as the string it is, anything else as a number of its width.
 */
module ShownAs {
  import opened Text
  import opened FetchArg
  import opened StructTable
  import opened Surftrace

  /** The type behind all the stars, by name. */
  function Innermost(ty: CType): (name: string) {
    match ty
    case Scalar(name, _) => name
    case Struct(tag) => tag
    case Pointer(t) => Innermost(t)
  }

  /** Names of C types have no stars in them. */
  predicate Starless(ty: CType) {
    '*' !in Innermost(ty)
  }

  predicate Occurs(s: string, w: string, i: nat) {
    i + |w| <= |s| && s[i..i + |w|] == w
  }

  /** A name such as char, unsigned char or uchar. */
  predicate EndsInChar(name: string) {
    |name| >= 4 && name[|name| - 4..] == "char"
  }

  /** A name with a word that begins with char behind another word, such as unsigned char. */
  predicate HasCharWord(name: string) {
    exists i :: 0 <= i <= |name| && Occurs(name, " char", i)
  }

  predicate PointsToText(ty: CType) {
    ty.Pointer? && EndsInChar(Innermost(ty))
  }

  predicate OfChars(ty: CType) {
    !PointsToText(ty) && ((!ty.Pointer? && Innermost(ty) == "char") || HasCharWord(Innermost(ty)))
  }

  /** The size of an object: of its type as declared, or as the database has it for an array or a cast. */
  function SizeShown(d: Display, p: Program, ty: CType, isArray: Option<bool>): (n: Option<nat>) {
    if isArray == Some(false) then Some(SizeOf(p.sizes, ty)) else d.sizes(ty)
  }

  /** What can be shown: not characters behind a cast, nothing called "struct", and numbers of four widths only. */
  predicate CanShow(d: Display, p: Program, ty: CType, isArray: Option<bool>) {
    || PointsToText(ty)
    || (OfChars(ty) && isArray == Some(true))
    || (!(OfChars(ty) && isArray.None?) && (ty.Pointer? || Innermost(ty) != "struct")
        && SizeShown(d, p, ty, isArray) in {Some(1), Some(2), Some(4), Some(8)})
  }

  /** The number of bits, written out. */
  function WidthText(size: nat): (s: string) {
    if size == 1 then "8" else if size == 2 then "16" else if size == 4 then "32" else "64"
  }

  // ---- the texts of types ----

  function Stars(ty: CType): (s: string) {
    match ty
    case Pointer(t) => Stars(t) + if t.Pointer? then "*" else " *"
    case _ => ""
  }

  lemma {:induction false} TextParts(ty: CType)
    ensures TypeText(ty) == Innermost(ty) + Stars(ty)
  {
    if ty.Pointer? {
      TextParts(ty.target);
    }
  }

  lemma {:induction false} StarsShape(ty: CType)
    ensures ty.Pointer? <==> Stars(ty) != ""
    ensures ty.Pointer? ==> |Stars(ty)| >= 2 && Stars(ty)[0] == ' ' && forall i :: 0 < i < |Stars(ty)| ==> Stars(ty)[i] == '*'
  {
    if ty.Pointer? {
      StarsShape(ty.target);
    }
  }

  lemma OccursLater(s: string, w: string, i: nat)
    requires s != ""
    ensures Occurs(s[1..], w, i) <==> Occurs(s, w, i + 1)
  {
    if i + 1 + |w| <= |s| {
      assert s[1..][i..i + |w|] == s[i + 1..i + 1 + |w|];
    }
  }

  lemma OccursFirst(s: string, w: string)
    ensures Occurs(s, w, 0) <==> w <= s
  {
    if |w| <= |s| {
      assert s[0..|w|] == s[..|w|];
    }
  }

  lemma {:induction false} ContainsAt(s: string, w: string)
    ensures Contains(s, w) <==> exists i :: Occurs(s, w, i)
    decreases |s|
  {
    hide Occurs;
    OccursFirst(s, w);
    if s != "" {
      ContainsAt(s[1..], w);
      if Contains(s[1..], w) {
        var i: nat :| Occurs(s[1..], w, i);
        OccursLater(s, w, i);
      }
      if exists i :: Occurs(s, w, i) {
        var i: nat :| Occurs(s, w, i);
        if i > 0 {
          OccursLater(s, w, i - 1);
        }
      }
    } else if exists i :: Occurs(s, w, i) {
      var i: nat :| Occurs(s, w, i);
      NothingOccurs(w, i);
    }
  }

  lemma NothingOccurs(w: string, i: nat)
    ensures Occurs("", w, i) ==> i == 0
  {
  }

  lemma OccursLonger(n: string, more: string, w: string, i: nat)
    requires Occurs(n, w, i)
    ensures Occurs(n + more, w, i)
  {
    assert (n + more)[i..i + |w|] == n[i..i + |w|];
  }

  lemma LastStar(ty: CType)
    ensures var s := TypeText(ty);
            if ty.Pointer? then s != "" && s[|s| - 1] == '*' else s == Innermost(ty)
  {
    TextParts(ty);
    StarsShape(ty);
  }

  lemma PointerText(ty: CType)
    requires Starless(ty)
    ensures Contains(TypeText(ty), "char *") <==> PointsToText(ty)
  {
    var n, stars, s := Innermost(ty), Stars(ty), TypeText(ty);
    TextParts(ty);
    StarsShape(ty);
    ContainsAt(s, "char *");
    if exists i :: Occurs(s, "char *", i) {
      var i: nat :| Occurs(s, "char *", i);
      StarAt(n, stars, i);
    }
    if PointsToText(ty) {
      var i := |n| - 4;
      assert s[i..i + 6] == n[i..] + stars[..2];
      assert stars[..2] == " *";
      assert Occurs(s, "char *", i);
    }
  }

  lemma StarAt(n: string, stars: string, i: nat)
    requires '*' !in n && (stars == "" || (|stars| >= 2 && stars[0] == ' ' && forall k :: 0 < k < |stars| ==> stars[k] == '*'))
    requires Occurs(n + stars, "char *", i)
    ensures stars != "" && EndsInChar(n)
  {
    var s := n + stars;
    var w := s[i..i + 6];
    assert w[4] == s[i + 4] == ' ' && w[5] == s[i + 5] == '*';
    assert i + 4 == |n|;
    assert n[i..] == s[i..i + 4] == w[..4];
  }

  lemma CharText(ty: CType)
    requires Starless(ty)
    ensures TypeText(ty) == "char" || Contains(TypeText(ty), " char")
       <==> (!ty.Pointer? && Innermost(ty) == "char") || HasCharWord(Innermost(ty))
  {
    var n, stars, s := Innermost(ty), Stars(ty), TypeText(ty);
    TextParts(ty);
    StarsShape(ty);
    LastStar(ty);
    ContainsAt(s, " char");
    if exists i :: Occurs(s, " char", i) {
      var i: nat :| Occurs(s, " char", i);
      WordAt(n, stars, i);
    }
    if HasCharWord(n) {
      var i: nat :| Occurs(n, " char", i);
      OccursLonger(n, stars, " char", i);
    }
  }

  lemma WordAt(n: string, stars: string, i: nat)
    requires stars == "" || (|stars| >= 2 && stars[0] == ' ' && forall k :: 0 < k < |stars| ==> stars[k] == '*')
    requires Occurs(n + stars, " char", i)
    ensures HasCharWord(n)
  {
    var s := n + stars;
    var w := s[i..i + 5];
    assert w[4] == s[i + 4] == 'r';
    assert i + 5 <= |n|;
    assert n[i..i + 5] == s[i..i + 5];
    assert Occurs(n, " char", i);
  }

  lemma StructText(ty: CType)
    requires Starless(ty)
    ensures TypeText(ty) == "struct" <==> !ty.Pointer? && Innermost(ty) == "struct"
  {
    TextParts(ty);
    StarsShape(ty);
    LastStar(ty);
  }

  // ---- the styles ----

  function StyleFor(d: Display, p: Program, ty: CType, isArray: Option<bool>): (r: Option<Style>) {
    if !CanShow(d, p, ty, isArray) then None
    else if PointsToText(ty) then Some(AtPointer)
    else if OfChars(ty) && isArray == Some(true) then Some(InPlace)
    else Some(Bits(8 * SizeShown(d, p, ty, isArray).value))
  }

  lemma StyleByType(d: Display, p: Program, ty: CType, isArray: Option<bool>)
    requires Starless(ty)
    ensures KindStyle(d, p, Whole(ty, isArray)) == StyleFor(d, p, ty, isArray)
  {
    hide Contains, TypeText, Innermost, HasCharWord, EndsInChar, SizeOf;
    PointerText(ty);
    CharText(ty);
    StructText(ty);
    match isArray
    case None =>
    case Some(b) =>
      if b {
        assert isArray == Some(true);
      } else {
        assert isArray == Some(false);
      }
  }

  lemma Widths(size: nat)
    requires size in {1, 2, 4, 8}
    ensures Numeral(8 * size, 10) == WidthText(size)
  {
    assert Numeral(1, 10) == "1" && Numeral(3, 10) == "3" && Numeral(6, 10) == "6" && Numeral(8, 10) == "8";
    assert Numeral(16, 10) == Numeral(1, 10) + "6" && Numeral(32, 10) == Numeral(3, 10) + "2" && Numeral(64, 10) == Numeral(6, 10) + "4";
  }

  /** How the kernel reads a text: the value it loads and the way it shows it. */
  ghost predicate Reads(text: string, memory: nat -> nat, regs: string -> nat, v: Outcome, display: string) {
    && ReadArgument(text).Some?
    && Run(ReadArgument(text).value.fetch, memory, regs) == v && ReadArgument(text).value.display == display
  }

  /** The string at an address: one more load, of what is there. */
  function StringAt(memory: nat -> nat, v: Outcome): (r: Outcome) {
    Outcome(v.loads + [v.value], memory(v.value))
  }

  /**
   A chain that C accepts compiles exactly when an object of its type can be shown. A pointer to
   characters is then shown as the string at its value, with that load last; an array of characters in
   place; any other object as a number of 8 times its size in bits.
   */
  lemma ShownByType(d: Display, p: Program, reg: string, argt: CType, chain: seq<Access>, memory: nat -> nat, regs: string -> nat)
    requires Sound(p) && RegName(reg) && Evaluate(C_RULES, p, memory, regs(reg), argt, chain).Some?
    requires Starless(Follow(C_RULES, p, memory, Register(regs(reg), argt), chain).value.kind.ty)
    ensures var kind := Follow(C_RULES, p, memory, Register(regs(reg), argt), chain).value.kind;
            var v := Evaluate(C_RULES, p, memory, regs(reg), argt, chain).value;
            var out := Compile(d, Tables(p), reg, argt, SegmentsOf(chain));
            && (out.Some? <==> CanShow(d, p, kind.ty, kind.isArray))
            && (out.Some? ==>
                  if PointsToText(kind.ty) then Reads(out.value, memory, regs, StringAt(memory, v), "string")
                  else if OfChars(kind.ty) && kind.isArray == Some(true) then Reads(out.value, memory, regs, v, "string")
                  else
                    Reads(out.value, memory, regs, v, [d.format] + WidthText(SizeShown(d, p, kind.ty, kind.isArray).value)))
            && (out.Some? ==>
                  (ReadArgument(out.value).value.display == "string"
                   <==> PointsToText(kind.ty) || (OfChars(kind.ty) && kind.isArray == Some(true))))
  {
    hide Compile, Follow, Tables, KindStyle, ReadArgument, Run, Numeral, WidthText, CanShow, PointsToText, OfChars, SizeShown;
    var c := Follow(C_RULES, p, memory, Register(regs(reg), argt), chain).value;
    CompileCorrect(d, p, reg, argt, chain, memory, regs);
    StyleByType(d, p, c.kind.ty, c.kind.isArray);
    NumberShown(d, p, c.kind.ty, c.kind.isArray);
    if SizeShown(d, p, c.kind.ty, c.kind.isArray).Some? {
      NoString(d.format, SizeShown(d, p, c.kind.ty, c.kind.isArray).value);
    }
  }

  lemma NoString(format: char, size: nat)
    ensures [format] + WidthText(size) != "string"
  {
  }

  lemma NumberShown(d: Display, p: Program, ty: CType, isArray: Option<bool>)
    ensures CanShow(d, p, ty, isArray) && !PointsToText(ty) && !(OfChars(ty) && isArray == Some(true)) ==>
      && SizeShown(d, p, ty, isArray).Some?
      && Numeral(8 * SizeShown(d, p, ty, isArray).value, 10) == WidthText(SizeShown(d, p, ty, isArray).value)
  {
    hide OfChars, PointsToText, Innermost, SizeShown, Numeral, WidthText;
    if SizeShown(d, p, ty, isArray) in {Some(1), Some(2), Some(4), Some(8)} {
      Widths(SizeShown(d, p, ty, isArray).value);
    }
  }

  /** The character types of C, plain or qualified by a word before, are taken for what they are. */
  lemma CharacterTypes(word: string, n: nat)
    requires '*' !in word
    ensures var plain, qualified := Scalar("char", n), Scalar(word + " char", n);
            && Starless(plain) && PointsToText(Pointer(plain)) && OfChars(plain)
            && Starless(qualified) && PointsToText(Pointer(qualified)) && OfChars(qualified)
  {
    var name := word + " char";
    assert name[|name| - 4..] == "char" && name[|word|..|word| + 5] == " char";
    assert Occurs(name, " char", |word|);
  }

  /** But an array of pointers to a struct with such a word in its name is taken for an array of characters. */
  lemma ChargersAreChars(d: Display, p: Program)
    ensures var ty := Pointer(Struct("struct charger"));
            Starless(ty) && OfChars(ty) && KindStyle(d, p, Whole(ty, Some(true))) == Some(InPlace)
  {
    var ty := Pointer(Struct("struct charger"));
    assert Occurs("struct charger", " char", 6);
    var name := "struct charger";
    assert name[|name| - 4..] == "rger";
    StyleByType(d, p, ty, Some(true));
  }
}
