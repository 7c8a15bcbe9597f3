/** The kernel's probe fetch arguments: nested "+0xoff(...)" around a register. */
module FetchArg {
  import opened Text

  // ---- numerals ----

  function DigitChar(d: nat): (c: char)
    requires d < 16
  {
    "0123456789abcdef"[d]
  }

  function DigitValue(c: char): (d: Option<nat>) {
    if '0' <= c <= '9' then Some(c as nat - '0' as nat)
    else if 'a' <= c <= 'f' then Some(10 + (c as nat - 'a' as nat))
    else None
  }

  /** The numeral of `n` in base `b`, without leading zeros: "%x" or "%d". */
  function Numeral(n: nat, b: nat): (s: string)
    requires 2 <= b <= 16
    decreases n
  {
    if n < b then [DigitChar(n)] else Numeral(n / b, b) + [DigitChar(n % b)]
  }

  /** int(s, b) for digits alone. */
  function NumeralValue(s: string, b: nat): (n: Option<nat>) {
    if s == "" then None else
    var d := DigitValue(s[|s| - 1]);
    if d.None? || d.value >= b then None
    else if |s| == 1 then d
    else
      var high := NumeralValue(s[..|s| - 1], b);
      if high.None? then None else Some(high.value * b + d.value)
  }

  /** Blanks, as str.strip drops them. */
  const BLANKS := " \t\n\r\U{000B}\U{000C}"

  /** No digit is one of these. */
  const MARKS := "([].+-)_:" + BLANKS

  function TrimFront(s: string): (r: string)
    ensures |r| <= |s|
  {
    if s != "" && s[0] in BLANKS then TrimFront(s[1..]) else s
  }

  function TrimBack(s: string): (r: string)
    ensures |r| <= |s|
  {
    if s != "" && s[|s| - 1] in BLANKS then TrimBack(s[..|s| - 1]) else s
  }

  /** Digits in groups, with one underscore between two of them. */
  predicate Grouped(s: string) {
    && s != "" && s[0] != '_' && s[|s| - 1] != '_'
    && forall i :: 0 <= i < |s| - 1 ==> s[i] != '_' || s[i + 1] != '_'
  }

  function Ungrouped(s: string): (r: string) {
    if s == "" then "" else (if s[0] == '_' then "" else [s[0]]) + Ungrouped(s[1..])
  }

  /** int(s), for a text without "-": blanks around it, a plus sign, and digits in groups. */
  function IntText(s: string): (n: Option<nat>) {
    var t := TrimBack(TrimFront(s));
    var u := if t != "" && t[0] == '+' then t[1..] else t;
    if Grouped(u) then NumeralValue(Ungrouped(u), 10) else None
  }

  lemma {:induction false} UngroupedPlain(s: string)
    requires '_' !in s
    ensures Ungrouped(s) == s
  {
    if s != "" {
      UngroupedPlain(s[1..]);
    }
  }

  /** A numeral is read as its number. */
  lemma IntNumeral(n: nat)
    ensures IntText(Numeral(n, 10)) == Some(n)
  {
    var s := Numeral(n, 10);
    NumeralShape(n, 10);
    NumeralInverse(n, 10);
    NumeralPlain(n, 10, '_');
    NumeralPlain(n, 10, '+');
    NumeralUnblank(n);
    UngroupedPlain(s);
    hide Numeral, NumeralValue, Ungrouped;
  }

  lemma NumeralUnblank(n: nat)
    ensures forall i :: 0 <= i < |Numeral(n, 10)| ==> Numeral(n, 10)[i] !in BLANKS
  {
    var s := Numeral(n, 10);
    forall i | 0 <= i < |s| ensures s[i] !in BLANKS {
      if s[i] in BLANKS {
        NumeralPlain(n, 10, s[i]);
      }
    }
  }

  lemma DigitInverse(d: nat)
    requires d < 16
    ensures DigitValue(DigitChar(d)) == Some(d)
    ensures DigitChar(d) !in MARKS
  {
  }

  lemma DivMod(n: nat, b: nat)
    requires b > 0
    ensures (n / b) * b + n % b == n && n % b < b
  {
  }

  lemma NumeralAppend(high: string, c: char, b: nat)
    requires high != "" && NumeralValue(high, b).Some? && DigitValue(c).Some? && DigitValue(c).value < b
    ensures NumeralValue(high + [c], b) == Some(NumeralValue(high, b).value * b + DigitValue(c).value)
  {
    hide DigitValue;
    assert (high + [c])[..|high|] == high;
  }

  lemma NumeralShape(n: nat, b: nat)
    requires 2 <= b <= 16
    ensures n < b ==> Numeral(n, b) == [DigitChar(n)]
    ensures n >= b ==> n / b < n && Numeral(n, b) == Numeral(n / b, b) + [DigitChar(n % b)]
    ensures Numeral(n, b) != ""
  {
    hide DigitChar;
  }

  lemma OneDigit(c: char, b: nat)
    requires DigitValue(c).Some? && DigitValue(c).value < b
    ensures NumeralValue([c], b) == DigitValue(c)
  {
    hide DigitValue;
  }

  lemma {:induction false} NumeralInverse(n: nat, b: nat)
    requires 2 <= b <= 16
    ensures NumeralValue(Numeral(n, b), b) == Some(n)
    decreases n
  {
    hide *;
    NumeralShape(n, b);
    if n < b {
      DigitInverse(n);
      OneDigit(DigitChar(n), b);
    } else {
      DivMod(n, b);
      DigitInverse(n % b);
      NumeralInverse(n / b, b);
      NumeralShape(n / b, b);
      NumeralAppend(Numeral(n / b, b), DigitChar(n % b), b);
    }
  }

  lemma {:induction false} NumeralPlain(n: nat, b: nat, c: char)
    requires 2 <= b <= 16 && c in MARKS
    ensures c !in Numeral(n, b)
    decreases n
  {
    hide *;
    NumeralShape(n, b);
    if n < b {
      DigitInverse(n);
    } else {
      DivMod(n, b);
      DigitInverse(n % b);
      NumeralPlain(n / b, b, c);
    }
  }

  // ---- text ----

  /** The part of `s` before the first `c`: s.split(c, 1)[0]. */
  function Before(s: string, c: char): (p: string)
    ensures p <= s && c !in p
    ensures |p| < |s| ==> s[|p|] == c
    ensures |p| == |s| <==> c !in s
  {
    if s == "" || s[0] == c then "" else [s[0]] + Before(s[1..], c)
  }

  lemma {:induction false} BeforeJoin(p: string, c: char, rest: string)
    requires c !in p
    ensures Before(p + [c] + rest, c) == p
    ensures Before(p, c) == p
  {
    if p != "" {
      BeforeJoin(p[1..], c, rest);
      assert (p + [c] + rest)[1..] == p[1..] + [c] + rest;
    }
  }

  // ---- fetch arguments ----

  datatype Fetch = Reg(name: string) | Deref(offset: nat, inner: Fetch)

  predicate RegName(s: string) {
    s != "" && s[0] in "%$" && '(' !in s && ':' !in s
  }

  predicate Plain(f: Fetch) {
    match f
    case Reg(n) => RegName(n)
    case Deref(_, g) => Plain(g)
  }

  function Show(f: Fetch): (s: string) {
    match f
    case Reg(n) => n
    case Deref(o, g) => "+0x" + Numeral(o, 16) + "(" + Show(g) + ")"
  }

  /** int(s, 16), with its optional "0x". */
  function HexText(s: string): (n: Option<nat>) {
    if "0x" <= s then NumeralValue(s[2..], 16) else NumeralValue(s, 16)
  }

  /** How the kernel reads one: the offset up to the first "(", the inner one up to the last ")". */
  function ReadFetch(s: string): (f: Option<Fetch>)
    decreases |s|
  {
    if s == "" then None
    else if s[0] == '+' then
      var p := Before(s, '(');
      if |p| + 2 > |s| || s[|s| - 1] != ')' then None else
      var o := HexText(p[1..]);
      var g := ReadFetch(s[|p| + 1..|s| - 1]);
      if o.None? || g.None? then None else Some(Deref(o.value, g.value))
    else if RegName(s) then Some(Reg(s))
    else None
  }

  lemma ShowParts(o: nat, g: Fetch)
    ensures var s := Show(Deref(o, g)); var p := "+0x" + Numeral(o, 16);
            && Before(s, '(') == p && |p| + 2 <= |s|
            && s[|p| + 1..|s| - 1] == Show(g) && s[|p| + 1..] == Show(g) + ")"
            && s[|s| - 1] == ')' && s[0] == '+' && HexText(p[1..]) == Some(o)
  {
    hide Before, HexText, Numeral;
    var p := "+0x" + Numeral(o, 16);
    NumeralPlain(o, 16, '(');
    BeforeJoin(p, '(', Show(g) + ")");
    Wrapped(p, Show(g));
    HexPrefix(Numeral(o, 16));
    NumeralInverse(o, 16);
  }

  lemma Wrapped(p: string, x: string)
    ensures var s := p + "(" + x + ")";
            && s == p + ['('] + (x + ")") && |s| == |p| + |x| + 2
            && s[|p| + 1..|s| - 1] == x && s[|p| + 1..] == x + ")" && s[|s| - 1] == ')'
  {
  }

  lemma HexPrefix(digits: string)
    ensures HexText(("+0x" + digits)[1..]) == NumeralValue(digits, 16)
  {
    hide NumeralValue;
    assert ("+0x" + digits)[1..] == "0x" + digits;
    assert ("0x" + digits)[2..] == digits;
  }

  /** Reading a printed fetch argument gives it back. */
  lemma {:induction false} ReadShow(f: Fetch)
    requires Plain(f)
    ensures ReadFetch(Show(f)) == Some(f)
  {
    if f.Deref? {
      ShowParts(f.offset, f.inner);
      ReadShow(f.inner);
    } else {
      assert f.name[0] != '+';
    }
  }

  lemma {:induction false} NoColon(f: Fetch)
    requires Plain(f)
    ensures ':' !in Show(f)
  {
    if f.Deref? {
      NoColon(f.inner);
      NumeralPlain(f.offset, 16, ':');
    }
  }

  /** A fetch argument with its display type behind a colon. */
  datatype Argument = Argument(fetch: Fetch, display: string)

  function ReadArgument(s: string): (a: Option<Argument>) {
    var p := Before(s, ':');
    if |p| == |s| then None else
    var f := ReadFetch(p);
    if f.None? then None else Some(Argument(f.value, s[|p| + 1..]))
  }

  /** Reading a printed fetch argument with its display type gives both back. */
  lemma ReadShown(f: Fetch, display: string)
    requires Plain(f)
    ensures ReadArgument(Show(f) + ":" + display) == Some(Argument(f, display))
  {
    hide ReadFetch, Before;
    NoColon(f);
    ReadShow(f);
    BeforeJoin(Show(f), ':', display);
    assert Show(f) + ":" + display == Show(f) + [':'] + display;
    assert (Show(f) + [':'] + display)[|Show(f)| + 1..] == display;
  }

  /** What a fetch argument does: the addresses it loads, in order, and the value it ends with. */
  datatype Outcome = Outcome(loads: seq<nat>, value: nat)

  function Run(f: Fetch, memory: nat -> nat, regs: string -> nat): (r: Outcome) {
    match f
    case Reg(n) => Outcome([], regs(n))
    case Deref(o, g) =>
      var r := Run(g, memory, regs);
      Outcome(r.loads + [r.value + o], memory(r.value + o))
  }
}
