/** C struct layouts, the flat member tables made from them, and the lookups in those tables. */
module StructTable {
  import opened Text
  import opened FetchArg

  datatype CType = Scalar(name: string, size: nat) | Struct(tag: string) | Pointer(target: CType)

  /** A member of a struct: of a named type, or itself an inline struct or union. */
  datatype Field =
    | Leaf(name: string, ty: CType, count: Option<nat>, offset: nat)
    | Inline(name: string, offset: nat, fields: seq<Field>)

  /** One row of a member table. */
  datatype Cell = Cell(name: string, ty: CType, offset: nat, size: nat)

  predicate Identifier(s: string) {
    s != "" && '.' !in s && '-' !in s && '[' !in s
  }

  ghost predicate Declared(f: Field) {
    && Identifier(f.name)
    && (f.Leaf? ==> f.count.Some? ==> f.count.value > 0)
    && (f.Inline? ==> f.fields != [] && WellFormed(f.fields))
  }

  /** Names are identifiers, distinct within one struct; arrays and inline structs are not empty. */
  ghost predicate WellFormed(fields: seq<Field>) {
    && (forall f :: f in fields ==> Declared(f))
    && (forall i, j :: 0 <= i < j < |fields| ==> fields[i].name != fields[j].name)
  }

  function SizeOf(sizes: map<string, nat>, ty: CType): (n: nat) {
    match ty
    case Scalar(_, n) => n
    case Pointer(_) => 8
    case Struct(tag) => if tag in sizes then sizes[tag] else 0
  }

  function Bracket(n: Option<nat>): (s: string) {
    if n.Some? then "[" + Numeral(n.value, 10) + "]" else ""
  }

  /** The rows of one member, its name prefixed and its offset counted from the outermost struct. */
  function FlattenField(sizes: map<string, nat>, pre: string, base: nat, f: Field): (cells: seq<Cell>)
    decreases f, 1
  {
    match f
    case Leaf(n, ty, count, o) =>
      [Cell(pre + n + Bracket(count), ty, base + o, Times(if count.Some? then count.value else 1, SizeOf(sizes, ty)))]
    case Inline(n, o, fs) => Flatten(sizes, pre + n + ".", base + o, fs)
  }

  function Flatten(sizes: map<string, nat>, pre: string, base: nat, fields: seq<Field>): (cells: seq<Cell>)
    decreases fields, 0
  {
    if fields == [] then []
    else FlattenField(sizes, pre, base, fields[0]) + Flatten(sizes, pre, base, fields[1..])
  }

  // ---- table lookups ----

  datatype Found = Missing | Nested | Row(cell: Cell)

  /** One round of _memINStruct: the row answers for member `m`, or the search goes on. */
  function Answer(m: string, indexed: bool, c: Cell): (r: Found) {
    if indexed && '[' !in c.name then Missing else
    var n := Before(c.name, '[');
    if n == m then Row(c)
    else if !indexed && m + "." <= n then Nested
    else Missing
  }

  /** _memINStruct. */
  function Search(m: string, indexed: bool, table: seq<Cell>): (r: Found) {
    if table == [] then Missing else
    var a := Answer(m, indexed, table[0]);
    if a.Missing? then Search(m, indexed, table[1..]) else a
  }

  /** The number between the brackets. */
  function IndexOf(s: string): (n: Option<nat>) {
    var p := Before(s, '[');
    if |p| == |s| || ']' !in s[|p| + 1..] then None
    else IntText(Before(s[|p| + 1..], ']'))
  }

  function Times(a: nat, b: nat): (n: nat) {
    if a == 0 then 0 else b + Times(a - 1, b)
  }

  /** int(a / b). */
  function Quotient(a: nat, b: nat): (q: nat)
    requires b > 0
  {
    if a < b then 0 else 1 + Quotient(a - b, b)
  }

  /** The offset of element `index` of a row. */
  function RowOffset(c: Cell, index: nat): (r: Option<nat>) {
    var max := if IndexOf(c.name).Some? then IndexOf(c.name).value else 0;
    if index == 0 then Some(c.offset)
    else if index >= max then None
    else Some(c.offset + Times(index, Quotient(c.size, max)))
  }

  /** showMemberOffset, once the member's own index has been read. */
  function OffsetIn(m: string, index: nat, table: seq<Cell>): (r: Option<nat>) {
    if table == [] then None
    else if Before(table[0].name, '[') == m then RowOffset(table[0], index)
    else OffsetIn(m, index, table[1..])
  }

  method MemInStruct(mem: string, table: seq<Cell>) returns (r: Found)
    ensures r == Search(Before(mem, '['), '[' in mem, table)
  {
    var m, indexed := mem, false;
    BeforeJoin(Before(mem, '['), '[', "");
    if '[' in mem {
      m, indexed := Before(mem, '['), true;
    }
    assert m == Before(mem, '[');
    var i := 0;
    while i < |table|
      invariant 0 <= i <= |table|
      invariant Search(m, indexed, table[i..]) == Search(m, indexed, table)
    {
      var name := table[i].name;
      assert table[i..][1..] == table[i + 1..] && table[i..][0] == table[i];
      if !indexed || '[' in name {
        name := Before(name, '[');
        if name == m {
          return Row(table[i]);
        } else if !indexed && m + "." <= name {
          return Nested;
        }
      }
      i := i + 1;
    }
    return Missing;
  }

  method MemberOffset(m: string, index: nat, table: seq<Cell>) returns (r: Option<nat>)
    ensures r == OffsetIn(m, index, table)
  {
    hide RowOffset;
    var i := 0;
    while i < |table|
      invariant 0 <= i <= |table|
      invariant OffsetIn(m, index, table[i..]) == OffsetIn(m, index, table)
    {
      assert table[i..][1..] == table[i + 1..] && table[i..][0] == table[i];
      if Before(table[i].name, '[') == m {
        return RowOffset(table[i], index);
      }
      i := i + 1;
    }
    return None;
  }

  // ---- the flat table agrees with the nested declaration ----

  /** The row's name starts with the prefix and then the given component. */
  predicate Under(c: Cell, pre: string, n: string) {
    var b := Before(c.name, '[');
    pre <= b && Before(b[|pre|..], '.') == n
  }

  predicate AllUnder(cells: seq<Cell>, pre: string, n: string) {
    forall i :: 0 <= i < |cells| ==> Under(cells[i], pre, n)
  }

  lemma LeafName(pre: string, n: string, count: Option<nat>)
    requires '[' !in pre && '[' !in n
    ensures Before(pre + n + Bracket(count), '[') == pre + n
    ensures '[' in (pre + n + Bracket(count)) <==> count.Some?
    ensures IndexOf(pre + n + Bracket(count)) == count
  {
    var p := pre + n;
    if count.Some? {
      var d := Numeral(count.value, 10);
      assert p + Bracket(count) == p + ['['] + (d + "]");
      BeforeJoin(p, '[', d + "]");
      assert (p + Bracket(count))[|p| + 1..] == d + [']'] + "";
      NumeralPlain(count.value, 10, ']');
      BeforeJoin(d, ']', "");
      IntNumeral(count.value);
    } else {
      assert p + Bracket(count) == p;
      BeforeJoin(p, '[', "");
    }
  }

  /** The row's name starts with the prefix. */
  predicate Starts(c: Cell, pre: string) {
    pre <= Before(c.name, '[')
  }

  lemma Deeper(c: Cell, pre: string, n: string)
    requires '.' !in n && Starts(c, pre + n + ".")
    ensures Under(c, pre, n)
  {
    var b := Before(c.name, '[');
    var rest := b[|pre + n + "."|..];
    assert b == (pre + n + ".") + rest;
    assert b[|pre|..] == n + ['.'] + rest;
    BeforeJoin(n, '.', rest);
  }

  lemma {:induction false} FieldUnder(sizes: map<string, nat>, pre: string, base: nat, f: Field)
    requires '[' !in pre && Declared(f)
    ensures AllUnder(FlattenField(sizes, pre, base, f), pre, f.name)
    ensures FlattenField(sizes, pre, base, f) != []
    decreases f, 1
  {
    hide FlattenField, Flatten, Starts, Under;
    if f.Leaf? {
      LeafUnder(sizes, pre, base, f);
    } else {
      InlineRows(sizes, pre, base, f);
      var cells := Flatten(sizes, pre + f.name + ".", base + f.offset, f.fields);
      FieldsUnder(sizes, pre + f.name + ".", base + f.offset, f.fields);
      forall i | 0 <= i < |cells| ensures Under(cells[i], pre, f.name) {
        Deeper(cells[i], pre, f.name);
      }
    }
  }

  lemma LeafUnder(sizes: map<string, nat>, pre: string, base: nat, f: Field)
    requires '[' !in pre && Declared(f) && f.Leaf?
    ensures AllUnder(FlattenField(sizes, pre, base, f), pre, f.name)
    ensures |FlattenField(sizes, pre, base, f)| == 1
  {
    LeafName(pre, f.name, f.count);
    assert (pre + f.name)[|pre|..] == f.name;
    BeforeJoin(f.name, '.', "");
  }

  lemma InlineRows(sizes: map<string, nat>, pre: string, base: nat, f: Field)
    requires f.Inline?
    ensures FlattenField(sizes, pre, base, f) == Flatten(sizes, pre + f.name + ".", base + f.offset, f.fields)
  {
  }

  lemma {:induction false} FieldsUnder(sizes: map<string, nat>, pre: string, base: nat, fields: seq<Field>)
    requires '[' !in pre && (forall f :: f in fields ==> Declared(f))
    ensures fields != [] ==> Flatten(sizes, pre, base, fields) != []
    ensures var cells := Flatten(sizes, pre, base, fields);
            forall i :: 0 <= i < |cells| ==> Starts(cells[i], pre)
    decreases fields, 0
  {
    hide FlattenField, Declared;
    if fields != [] {
      FieldUnder(sizes, pre, base, fields[0]);
      FieldsUnder(sizes, pre, base, fields[1..]);
      var cells := Flatten(sizes, pre, base, fields);
      var front := FlattenField(sizes, pre, base, fields[0]);
      forall i | 0 <= i < |cells| ensures Starts(cells[i], pre) {
        if i < |front| {
          assert cells[i] == front[i] && Under(front[i], pre, fields[0].name);
        } else {
          assert cells[i] == Flatten(sizes, pre, base, fields[1..])[i - |front|];
        }
      }
    }
  }

  /** The member asked for lies under component `n` of the prefix. */
  predicate Asks(m: string, pre: string, n: string) {
    pre <= m && Before(m[|pre|..], '.') == n
  }

  lemma Misses(m: string, indexed: bool, c: Cell, pre: string, n: string, other: string)
    requires Asks(m, pre, n) && Under(c, pre, other) && n != other
    ensures Answer(m, indexed, c).Missing? && Before(c.name, '[') != m
  {
    var b := Before(c.name, '[');
    if m + "." <= b {
      var x, y := m[|pre|..], b[|pre|..];
      assert x + "." <= y;
      PrefixHead(x, y);
    }
  }

  lemma {:induction false} PrefixHead(x: string, y: string)
    requires x + "." <= y
    ensures Before(x, '.') == Before(y, '.')
  {
    if x != "" && x[0] != '.' {
      assert x[1..] + "." <= y[1..];
      PrefixHead(x[1..], y[1..]);
    }
  }

  lemma {:induction false} SkipFront(m: string, indexed: bool, index: nat, front: seq<Cell>, rest: seq<Cell>,
                                     pre: string, n: string, other: string)
    requires Asks(m, pre, n) && AllUnder(front, pre, other) && n != other
    ensures Search(m, indexed, front + rest) == Search(m, indexed, rest)
    ensures OffsetIn(m, index, front + rest) == OffsetIn(m, index, rest)
    decreases |front|
  {
    hide Answer, Asks, Under, RowOffset;
    if front == [] {
      assert front + rest == rest;
    } else {
      Misses(m, indexed, front[0], pre, n, other);
      assert (front + rest)[1..] == front[1..] + rest;
      SkipFront(m, indexed, index, front[1..], rest, pre, n, other);
    }
  }

  /** Rows that do not answer may as well not be there. */
  lemma {:induction false} NothingBehind(m: string, indexed: bool, index: nat, front: seq<Cell>, rest: seq<Cell>)
    requires Search(m, indexed, rest).Missing? && OffsetIn(m, index, rest).None?
    ensures Search(m, indexed, front + rest) == Search(m, indexed, front)
    ensures OffsetIn(m, index, front + rest) == OffsetIn(m, index, front)
    decreases |front|
  {
    hide Answer, RowOffset;
    if front == [] {
      assert front + rest == rest;
    } else {
      assert (front + rest)[1..] == front[1..] + rest;
      assert (front + rest)[0] == front[0];
      NothingBehind(m, indexed, index, front[1..], rest);
    }
  }

  /** C's member lookup. */
  function Lookup(fields: seq<Field>, n: string): (f: Option<Field>)
    ensures f.Some? ==> f.value in fields && f.value.name == n
    ensures f.None? <==> forall g :: g in fields ==> g.name != n
  {
    if fields == [] then None
    else if fields[0].name == n then Some(fields[0])
    else Lookup(fields[1..], n)
  }

  /** A member that is not declared is not in the table. */
  lemma {:induction false} Absent(sizes: map<string, nat>, pre: string, base: nat, fields: seq<Field>, n: string,
                                  m: string, indexed: bool, index: nat)
    requires '[' !in pre && Asks(m, pre, n) && forall f :: f in fields ==> Declared(f) && f.name != n
    ensures Search(m, indexed, Flatten(sizes, pre, base, fields)).Missing?
    ensures OffsetIn(m, index, Flatten(sizes, pre, base, fields)).None?
    decreases |fields|
  {
    hide FlattenField, Declared, Asks, Answer, RowOffset;
    if fields != [] {
      var front, rest := FlattenField(sizes, pre, base, fields[0]), Flatten(sizes, pre, base, fields[1..]);
      FieldUnder(sizes, pre, base, fields[0]);
      SkipFront(m, indexed, index, front, rest, pre, n, fields[0].name);
      Absent(sizes, pre, base, fields[1..], n, m, indexed, index);
    }
  }

  /** The rows of member `n`, none if it is not declared. */
  function RowsOf(sizes: map<string, nat>, pre: string, base: nat, fields: seq<Field>, n: string): (rows: seq<Cell>) {
    if Lookup(fields, n).None? then [] else FlattenField(sizes, pre, base, Lookup(fields, n).value)
  }

  lemma NoRows(m: string, indexed: bool, index: nat)
    ensures Search(m, indexed, []).Missing? && OffsetIn(m, index, []).None?
  {
  }

  /** A search for something under member `n` looks, in effect, only at the rows of that member. */
  lemma {:induction false} Focus(sizes: map<string, nat>, pre: string, base: nat, fields: seq<Field>, n: string,
                                 m: string, indexed: bool, index: nat)
    requires '[' !in pre && WellFormed(fields) && Asks(m, pre, n)
    ensures Search(m, indexed, Flatten(sizes, pre, base, fields)) == Search(m, indexed, RowsOf(sizes, pre, base, fields, n))
    ensures OffsetIn(m, index, Flatten(sizes, pre, base, fields)) == OffsetIn(m, index, RowsOf(sizes, pre, base, fields, n))
    decreases |fields|
  {
    hide Search, OffsetIn, FlattenField, Declared, Asks;
    NoRows(m, indexed, index);
    if Lookup(fields, n).None? {
      Absent(sizes, pre, base, fields, n, m, indexed, index);
    } else {
      var front, rest := FlattenField(sizes, pre, base, fields[0]), Flatten(sizes, pre, base, fields[1..]);
      if fields[0].name == n {
        Absent(sizes, pre, base, fields[1..], n, m, indexed, index);
        NothingBehind(m, indexed, index, front, rest);
      } else {
        FieldUnder(sizes, pre, base, fields[0]);
        SkipFront(m, indexed, index, front, rest, pre, n, fields[0].name);
        Focus(sizes, pre, base, fields[1..], n, m, indexed, index);
      }
    }
  }

  // ---- paths through inline structs ----

  function PathText(path: seq<string>): (s: string) {
    if path == [] then "" else path[0] + "." + PathText(path[1..])
  }

  datatype Part = Part(fields: seq<Field>, offset: nat)

  /** The inline struct a path of member names leads to, and its offset. */
  function Descend(fields: seq<Field>, path: seq<string>): (r: Option<Part>)
    decreases |path|
  {
    if path == [] then Some(Part(fields, 0)) else
    var f := Lookup(fields, path[0]);
    if f.None? || f.value.Leaf? then None else
    var r := Descend(f.value.fields, path[1..]);
    if r.None? then None else Some(Part(r.value.fields, f.value.offset + r.value.offset))
  }

  lemma {:induction false} DescendFurther(fields: seq<Field>, path: seq<string>, n: string)
    requires Descend(fields, path).Some?
    requires var f := Lookup(Descend(fields, path).value.fields, n); f.Some? && f.value.Inline?
    ensures var d, f := Descend(fields, path).value, Lookup(Descend(fields, path).value.fields, n).value;
            Descend(fields, path + [n]) == Some(Part(f.fields, d.offset + f.offset))
    decreases |path|
  {
    hide Lookup;
    if path == [] {
      assert path + [n] == [n];
      DescendOne(fields, n);
    } else {
      DescendFurther(Lookup(fields, path[0]).value.fields, path[1..], n);
      assert (path + [n])[1..] == path[1..] + [n] && (path + [n])[0] == path[0];
    }
  }

  lemma DescendOne(fields: seq<Field>, n: string)
    requires Lookup(fields, n).Some? && Lookup(fields, n).value.Inline?
    ensures Descend(fields, [n]) == Some(Part(Lookup(fields, n).value.fields, Lookup(fields, n).value.offset))
  {
    hide Lookup;
    assert Descend(Lookup(fields, n).value.fields, [n][1..]) == Some(Part(Lookup(fields, n).value.fields, 0));
  }

  lemma {:induction false} PathTextAppend(path: seq<string>, n: string)
    ensures PathText(path + [n]) == PathText(path) + n + "."
  {
    if path == [] {
      assert path + [n] == [n];
    } else {
      PathTextAppend(path[1..], n);
      assert (path + [n])[1..] == path[1..] + [n] && (path + [n])[0] == path[0];
    }
  }

  lemma {:induction false} DescendWellFormed(fields: seq<Field>, path: seq<string>)
    requires WellFormed(fields) && Descend(fields, path).Some?
    ensures WellFormed(Descend(fields, path).value.fields)
    ensures '[' !in PathText(path)
    decreases |path|
  {
    if path != [] {
      var f := Lookup(fields, path[0]).value;
      assert Declared(f);
      DescendWellFormed(f.fields, path[1..]);
    }
  }

  lemma PathAsks(pre: string, c: string, rest: string)
    requires '.' !in c
    ensures Asks(pre + (c + "." + rest), pre, c)
  {
    assert (pre + (c + "." + rest))[|pre|..] == c + ['.'] + rest;
    BeforeJoin(c, '.', rest);
  }

  /** The same focus, at the end of a path through inline structs. */
  lemma {:induction false} FocusPath(sizes: map<string, nat>, pre: string, base: nat, fields: seq<Field>,
                                     path: seq<string>, n: string, indexed: bool, index: nat)
    requires '[' !in pre && WellFormed(fields) && Descend(fields, path).Some? && '.' !in n
    ensures var d := Descend(fields, path).value;
            var m := pre + PathText(path) + n;
            var rows := RowsOf(sizes, pre + PathText(path), base + d.offset, d.fields, n);
            && Search(m, indexed, Flatten(sizes, pre, base, fields)) == Search(m, indexed, rows)
            && OffsetIn(m, index, Flatten(sizes, pre, base, fields)) == OffsetIn(m, index, rows)
    decreases |path|
  {
    hide Search, OffsetIn, FlattenField, Flatten, Declared, Asks;
    var m := pre + PathText(path) + n;
    if path == [] {
      assert pre + PathText(path) == pre;
      NameAsks(pre, n);
      Focus(sizes, pre, base, fields, n, m, indexed, index);
    } else {
      var f := Lookup(fields, path[0]).value;
      var deeper := pre + path[0] + ".";
      MemberDeclared(fields, path[0]);
      FieldDeclared(f);
      assert pre + PathText(path) == deeper + PathText(path[1..]);
      FocusPath(sizes, deeper, base + f.offset, f.fields, path[1..], n, indexed, index);
      InlineRows(sizes, pre, base, f);
      assert m == pre + (path[0] + "." + (PathText(path[1..]) + n));
      PathAsks(pre, path[0], PathText(path[1..]) + n);
      Focus(sizes, pre, base, fields, path[0], m, indexed, index);
    }
  }

  lemma MemberDeclared(fields: seq<Field>, n: string)
    requires WellFormed(fields) && Lookup(fields, n).Some?
    ensures Declared(Lookup(fields, n).value)
  {
  }

  lemma NameAsks(pre: string, n: string)
    requires '.' !in n
    ensures Asks(pre + n, pre, n)
  {
    assert (pre + n)[|pre|..] == n;
    BeforeJoin(n, '.', "");
  }

  lemma FieldDeclared(f: Field)
    requires Declared(f)
    ensures Identifier(f.name)
    ensures f.Inline? ==> WellFormed(f.fields) && f.fields != []
  {
  }

  /** What the one row of a plain member answers, and the offset of the element asked for. */
  lemma LeafFound(sizes: map<string, nat>, pre: string, base: nat, f: Field, index: Option<nat>)
    requires '[' !in pre && Declared(f) && f.Leaf?
    ensures var rows := FlattenField(sizes, pre, base, f);
            && |rows| == 1 && rows[0].ty == f.ty && IndexOf(rows[0].name) == f.count
            && rows[0].size == Times(if f.count.Some? then f.count.value else 1, SizeOf(sizes, f.ty))
            && ('[' in rows[0].name <==> f.count.Some?)
            && Search(pre + f.name, index.Some?, rows) == (if index.Some? && f.count.None? then Missing else Row(rows[0]))
            && OffsetIn(pre + f.name, if index.Some? then index.value else 0, rows) == LeafOffset(sizes, base, f, index)
  {
    hide SizeOf, IndexOf, Times, RowOffset, Bracket, Before;
    LeafName(pre, f.name, f.count);
    var row := FlattenField(sizes, pre, base, f)[0];
    OneRow(pre + f.name, index, row);
    if index.Some? && index.value > 0 {
      ElementOffset(row, index.value, f.count, SizeOf(sizes, f.ty));
    } else {
      WholeOffset(row);
      NoTimes(SizeOf(sizes, f.ty));
    }
  }

  /** The offset the table gives for an element: element 0 is not checked, others must lie within the count. */
  function LeafOffset(sizes: map<string, nat>, base: nat, f: Field, index: Option<nat>): (o: Option<nat>)
    requires f.Leaf?
  {
    if index.None? then Some(base + f.offset)
    else if index.value > 0 && (f.count.None? || index.value >= f.count.value) then None
    else Some(base + f.offset + Times(index.value, SizeOf(sizes, f.ty)))
  }

  lemma NoTimes(b: nat)
    ensures Times(0, b) == 0
  {
  }

  lemma OneRow(m: string, index: Option<nat>, row: Cell)
    requires Before(row.name, '[') == m
    ensures Search(m, index.Some?, [row]) == if index.Some? && '[' !in row.name then Missing else Row(row)
    ensures OffsetIn(m, if index.Some? then index.value else 0, [row])
         == RowOffset(row, if index.Some? then index.value else 0)
  {
    hide RowOffset, Before;
    NoRows(m, index.Some?, 0);
  }

  lemma WholeOffset(row: Cell)
    ensures RowOffset(row, 0) == Some(row.offset)
  {
    hide IndexOf;
  }

  lemma ElementOffset(row: Cell, index: nat, count: Option<nat>, size: nat)
    requires IndexOf(row.name) == count && index > 0
    requires count.Some? ==> count.value > 0 && row.size == Times(count.value, size)
    ensures RowOffset(row, index) ==
            if count.None? || index >= count.value then None else Some(row.offset + Times(index, size))
  {
    hide IndexOf, Quotient;
    if count.Some? {
      Stride(count.value, size);
    }
  }

  lemma {:induction false} TimesStep(a: nat, b: nat)
    requires b > 0
    ensures Times(a, b) == a + Times(a, b - 1)
  {
    if a > 0 {
      TimesStep(a - 1, b);
    }
  }

  lemma {:induction false} Stride(count: nat, size: nat)
    requires count > 0
    ensures Quotient(Times(count, size), count) == size
    decreases size
  {
    if size == 0 {
      NoSize(count);
    } else {
      TimesStep(count, size);
      Stride(count, size - 1);
    }
  }

  lemma {:induction false} NoSize(count: nat)
    ensures Times(count, 0) == 0
  {
    if count > 0 {
      NoSize(count - 1);
    }
  }

  /** The rows of an inline struct announce it, but do not answer for an element of it. */
  lemma InlineFound(sizes: map<string, nat>, pre: string, base: nat, f: Field)
    requires '[' !in pre && Declared(f) && f.Inline?
    ensures Search(pre + f.name, false, FlattenField(sizes, pre, base, f)) == Nested
    ensures Search(pre + f.name, true, FlattenField(sizes, pre, base, f)) == Missing
  {
    hide Flatten, FlattenField;
    var deeper := pre + f.name + ".";
    FieldDeclared(f);
    InlineRows(sizes, pre, base, f);
    FieldsUnder(sizes, deeper, base + f.offset, f.fields);
    var rows := Flatten(sizes, deeper, base + f.offset, f.fields);
    assert Starts(rows[0], deeper);
    LongerNames(pre + f.name, rows);
  }

  lemma {:induction false} LongerNames(m: string, rows: seq<Cell>)
    requires forall i :: 0 <= i < |rows| ==> Starts(rows[i], m + ".")
    ensures Search(m, true, rows).Missing?
    decreases |rows|
  {
    if rows != [] {
      assert Starts(rows[0], m + ".");
      LongerNames(m, rows[1..]);
    }
  }
}
