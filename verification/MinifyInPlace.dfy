/** The loops of cJSON_Minify over one buffer that they read and overwrite. */
module MinifyInPlace {
  import opened Text
  import opened Minify

  /** From `at` on the buffer still holds the text and its terminating NUL. */
  ghost predicate Unread(a: array<byte>, t: seq<byte>, at: nat)
    reads a
  {
    at <= |t| < a.Length && NulFree(t) && a[|t|] == 0 && forall k :: at <= k < |t| ==> a[k] == t[k]
  }

  method SkipOnelineComment(a: array<byte>, json: nat, ghost t: seq<byte>) returns (j: nat)
    requires json + 2 <= |t| && Unread(a, t, json)
    ensures json + 2 <= j <= |t| && t[j..] == SkipLine(t[json + 2..])
  {
    j := json + 2;
    while a[j] != 0
      invariant json + 2 <= j <= |t|
      invariant SkipLine(t[j..]) == SkipLine(t[json + 2..])
      decreases |t| - j
    {
      if a[j] == NEWLINE {
        return j + 1;
      }
      j := j + 1;
    }
  }

  lemma SkipBlockAt(t: seq<byte>, j: nat)
    requires j < |t|
    ensures SkipBlock(t[j..]) == if t[j] == STAR && j + 1 < |t| && t[j + 1] == SLASH then t[j + 2..] else SkipBlock(t[j + 1..])
    ensures SkipBlock(t[|t|..]) == t[|t|..]
  {
    var s := t[j..];
    assert s[0] == t[j] && s[1..] == t[j + 1..];
    if j + 1 < |t| {
      assert s[1] == t[j + 1] && s[2..] == t[j + 2..];
    }
  }

  method SkipMultilineComment(a: array<byte>, json: nat, ghost t: seq<byte>) returns (j: nat)
    requires json + 2 <= |t| && Unread(a, t, json)
    ensures json + 2 <= j <= |t| && t[j..] == SkipBlock(t[json + 2..])
  {
    hide SkipBlock;
    SkipBlockAt(t, json);
    j := json + 2;
    while a[j] != 0
      invariant json + 2 <= j <= |t|
      invariant SkipBlock(t[j..]) == SkipBlock(t[json + 2..])
      decreases |t| - j
    {
      SkipBlockAt(t, j);
      if a[j] == STAR && a[j + 1] == SLASH {
        return j + 2;
      }
      j := j + 1;
    }
  }

  /** One byte copied down the buffer. */
  method Copy(a: array<byte>, from: nat, into: nat, ghost t: seq<byte>)
    requires into <= from < |t| && Unread(a, t, from)
    modifies a
    ensures Unread(a, t, from + 1) && a[..into + 1] == old(a[..into]) + [t[from]]
    ensures forall k :: from < k < a.Length ==> a[k] == old(a[k])
  {
    a[into] := a[from];
  }

  /** The buffer starts with `before` and then the text from `json` to `j`. */
  ghost predicate Copied(a: array<byte>, o: nat, before: seq<byte>, t: seq<byte>, json: nat, j: nat)
    reads a
  {
    json <= j <= |t| && o <= a.Length && a[..o] == before + t[json..j]
  }

  /** One more byte of a string copied. */
  method CopyNext(a: array<byte>, json: nat, j: nat, o: nat, ghost t: seq<byte>, ghost before: seq<byte>)
    requires json <= j < |t| && o <= j && Unread(a, t, j) && Copied(a, o, before, t, json, j)
    modifies a
    ensures Unread(a, t, j + 1) && Copied(a, o + 1, before, t, json, j + 1)
    ensures forall k :: |t| <= k < a.Length ==> a[k] == old(a[k])
  {
    Copy(a, j, o, t);
    Longer(before, t, json, j);
  }

  lemma Longer(before: seq<byte>, t: seq<byte>, i: nat, j: nat)
    requires i <= j < |t|
    ensures before + t[i..j + 1] == before + t[i..j] + [t[j]]
  {
    assert t[i..j + 1] == t[i..j] + [t[j]];
  }

  lemma StringLengthAt(t: seq<byte>, j: nat)
    requires j <= |t|
    ensures j == |t| ==> StringLength(t[j..]) == 0
    ensures j < |t| && t[j] == QUOTE ==> StringLength(t[j..]) == 1
    ensures j + 1 < |t| && t[j] == BACKSLASH && t[j + 1] == QUOTE ==> StringLength(t[j..]) == 2 + StringLength(t[j + 2..])
    ensures j < |t| && t[j] != QUOTE && !(j + 1 < |t| && t[j] == BACKSLASH && t[j + 1] == QUOTE) ==>
      StringLength(t[j..]) == 1 + StringLength(t[j + 1..])
  {
    var s := t[j..];
    if j < |t| {
      assert s[0] == t[j] && s[1..] == t[j + 1..];
      if j + 1 < |t| {
        assert s[1] == t[j + 1] && s[2..] == t[j + 2..];
      }
    }
  }

  method MinifyString(a: array<byte>, json: nat, into: nat, ghost t: seq<byte>) returns (j: nat, o: nat)
    requires into <= json < |t| && Unread(a, t, json) && t[json] == QUOTE
    modifies a
    ensures j == json + 1 + StringLength(t[json + 1..]) && o == into + (j - json)
    ensures Unread(a, t, j) && a[..o] == old(a[..into]) + t[json..j]
    ensures forall k :: |t| <= k < a.Length ==> a[k] == old(a[k])
  {
    hide StringLength, Copied;
    ghost var before := a[..into];
    CopiedNone(a, into, t, json);
    CopyNext(a, json, json, into, t, before);
    j, o := json + 1, into + 1;
    while a[j] != 0
      invariant json < j <= |t| && o == into + (j - json)
      invariant Unread(a, t, j) && Copied(a, o, before, t, json, j)
      invariant forall k :: |t| <= k < a.Length ==> a[k] == old(a[k])
      invariant j - json + StringLength(t[j..]) == 1 + StringLength(t[json + 1..])
      decreases |t| - j
    {
      var closing, pair := a[j] == QUOTE, a[j] == BACKSLASH && a[j + 1] == QUOTE;
      StringLengthAt(t, j);
      CopyNext(a, json, j, o, t, before);
      j, o := j + 1, o + 1;
      if closing {
        CopiedText(a, o, before, t, json, j);
        return;
      }
      if pair {
        CopyNext(a, json, j, o, t, before);
        j, o := j + 1, o + 1;
      }
    }
    StringLengthAt(t, j);
    CopiedText(a, o, before, t, json, j);
  }

  lemma CopiedNone(a: array<byte>, into: nat, t: seq<byte>, json: nat)
    requires into <= a.Length && json <= |t|
    ensures Copied(a, into, a[..into], t, json, json)
  {
  }

  lemma CopiedText(a: array<byte>, o: nat, before: seq<byte>, t: seq<byte>, json: nat, j: nat)
    requires Copied(a, o, before, t, json, j)
    ensures o <= a.Length && json <= j <= |t| && a[..o] == before + t[json..j]
  {
  }

  /**
   cJSON_Minify. Nothing is read that was already overwritten, nothing is written beyond the
   terminating NUL, and what is left is the minified text, terminated.
   */
  method MinifyBuffer(a: array<byte>, ghost t: seq<byte>)
    requires Unread(a, t, 0)
    modifies a
    ensures a[..|Min(t)|] == Min(t) && a[|Min(t)|] == 0
    ensures forall k :: |t| < k < a.Length ==> a[k] == old(a[k])
  {
    hide Min, StringLength, SkipLine, SkipBlock;
    var json, into := 0, 0;
    assert t[0..] == t && [] + Min(t) == Min(t);
    while a[json] != 0
      invariant into <= json <= |t| && Unread(a, t, json)
      invariant a[..into] + Min(t[json..]) == Min(t)
      invariant forall k :: |t| <= k < a.Length ==> a[k] == old(a[k])
      decreases |t| - json
    {
      json, into := Turn(a, json, into, t);
    }
    NothingLeft();
    assert a[..into] + [] == a[..into];
    assert t[json..] == [];
    a[into] := 0;
  }

  /** One turn of the loop. */
  method Turn(a: array<byte>, json: nat, into: nat, ghost t: seq<byte>) returns (j: nat, o: nat)
    requires into <= json < |t| && Unread(a, t, json)
    modifies a
    ensures json < j <= |t| && into <= o <= j && Unread(a, t, j)
    ensures a[..o] + Min(t[j..]) == old(a[..into]) + Min(t[json..])
    ensures forall k :: |t| <= k < a.Length ==> a[k] == old(a[k])
  {
    hide Min, StringLength, SkipLine, SkipBlock;
    j, o := json, into;
    MinTurn(t, json);
    match a[json]
    case 32 | 9 | 13 | 10 =>
      j := json + 1;
    case 47 =>
      if a[json + 1] == SLASH {
        j := SkipOnelineComment(a, json, t);
      } else if a[json + 1] == STAR {
        j := SkipMultilineComment(a, json, t);
      } else {
        j := json + 1;
      }
    case 34 =>
      j, o := MinifyString(a, json, into, t);
      Assoc(old(a[..into]), t[json..j], Min(t[j..]));
    case _ =>
      Copy(a, json, into, t);
      j, o := json + 1, into + 1;
      Assoc(old(a[..into]), [t[json]], Min(t[j..]));
  }

  lemma MinTurn(t: seq<byte>, i: nat)
    requires i < |t|
    ensures Blank(t[i]) ==> Min(t[i..]) == Min(t[i + 1..])
    ensures t[i] == SLASH ==>
      Min(t[i..]) == if i + 1 < |t| && t[i + 1] == SLASH then Min(SkipLine(t[i + 2..]))
                     else if i + 1 < |t| && t[i + 1] == STAR then Min(SkipBlock(t[i + 2..]))
                     else Min(t[i + 1..])
    ensures t[i] == QUOTE ==>
      var j := i + 1 + StringLength(t[i + 1..]);
      j <= |t| && Min(t[i..]) == t[i..j] + Min(t[j..])
    ensures Ordinary(t[i]) ==> Min(t[i..]) == [t[i]] + Min(t[i + 1..])
  {
    hide StringLength, SkipLine, SkipBlock;
    var s := t[i..];
    assert s[0] == t[i] && s[1..] == t[i + 1..];
    if |s| > 1 {
      assert s[1] == t[i + 1] && s[2..] == t[i + 2..];
    }
    if t[i] == QUOTE {
      var n := 1 + StringLength(s[1..]);
      assert s[..n] == t[i..i + n] && s[n..] == t[i + n..];
    }
  }
}
