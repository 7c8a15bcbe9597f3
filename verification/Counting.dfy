/** Counting the places of a sequence at which something holds. */
module Counting {

  /** How many of the marks are set. */
  function Number(m: seq<bool>): (n: nat) {
    |set i | 0 <= i < |m| && m[i]|
  }

  lemma NumberNone()
    ensures Number([]) == 0
  {
    var m: seq<bool> := [];
    assert (set i | 0 <= i < |m| && m[i]) == {};
  }

  lemma NumberMore(m: seq<bool>, b: bool)
    ensures Number(m + [b]) == Number(m) + if b then 1 else 0
  {
    var v := m + [b];
    var s, t := set i | 0 <= i < |m| && m[i], set i | 0 <= i < |v| && v[i];
    assert t == if b then s + {|m|} else s;
  }

  lemma {:induction false} NumberSome(m: seq<bool>)
    ensures Number(m) > 0 <==> exists i :: 0 <= i < |m| && m[i]
  {
    hide Number;
    if m == [] {
      NumberNone();
    } else {
      var n := |m| - 1;
      NumberSome(m[..n]);
      NumberMore(m[..n], m[n]);
      assert m == m[..n] + [m[n]];
    }
  }

  /** Two kinds of places that exclude each other make up everything exactly when each place is of one of them. */
  lemma {:induction false} NumberAll(m: seq<bool>, k: seq<bool>)
    requires |m| == |k| && forall i :: 0 <= i < |m| ==> !(m[i] && k[i])
    ensures Number(m) + Number(k) <= |m|
    ensures Number(m) + Number(k) == |m| <==> forall i :: 0 <= i < |m| ==> m[i] || k[i]
  {
    hide Number;
    if m == [] {
      NumberNone();
    } else {
      var n := |m| - 1;
      NumberAll(m[..n], k[..n]);
      NumberMore(m[..n], m[n]);
      NumberMore(k[..n], k[n]);
      assert m == m[..n] + [m[n]] && k == k[..n] + [k[n]];
    }
  }
}
