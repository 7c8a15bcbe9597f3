/** Splitting runs of used pages into buddy blocks, and counting the blocks of each order. */
module Fragment {
  import opened Bitmap

  const MAX_ORDER := 11

  /** fls64(x) - 1: the highest set bit of a nonzero word. */
  function HighestBit(x: nat): (k: nat)
    requires x > 0
  {
    if x == 1 then 0 else 1 + HighestBit(x / 2)
  }

  /** x | (1UL << k). */
  function SetBit(x: nat, k: nat): (y: nat)
    ensures y > 0
  {
    if k == 0 then x + 1 - x % 2 else 2 * SetBit(x / 2, k - 1) + x % 2
  }

  /** `p` is a multiple of 2^o. */
  predicate Aligned(p: nat, o: nat) {
    o == 0 || (p % 2 == 0 && Aligned(p / 2, o - 1))
  }

  lemma {:induction false} MultipleIsAligned(o: nat, q: nat)
    ensures Aligned(Pow2(o) * q, o)
  {
    if o > 0 {
      assert Pow2(o) * q == 2 * (Pow2(o - 1) * q);
      MultipleIsAligned(o - 1, q);
    }
  }

  lemma {:induction false} AlignedIsMultiple(p: nat, o: nat) returns (q: nat)
    requires Aligned(p, o)
    ensures p == Pow2(o) * q
  {
    if o == 0 {
      return p;
    }
    q := AlignedIsMultiple(p / 2, o - 1);
    assert Pow2(o) * q == 2 * (Pow2(o - 1) * q);
  }

  lemma {:induction false} MulAtLeast(k: nat, d: nat)
    requires d >= 1
    ensures k * d >= k
  {
    if d > 1 {
      MulAtLeast(k, d - 1);
      assert k * d == k * (d - 1) + k;
    }
  }

  lemma Distribute(k: int, a: int, b: int)
    ensures k * (a - b) == k * a - k * b
  {
  }

  lemma DivideOnce(k: nat, a: int, r: int, b: int, s: int)
    requires k * a + r == k * b + s && 0 <= r < k && 0 <= s < k
    ensures r == s
  {
    Distribute(k, a, b);
    Distribute(k, b, a);
    if a > b {
      MulAtLeast(k, a - b);
    } else if a < b {
      MulAtLeast(k, b - a);
    }
  }

  lemma RemainderOf(k: nat, q: nat)
    requires k > 0
    ensures (k * q) % k == 0
  {
    var p := k * q;
    assert p == k * (p / k) + p % k;
    DivideOnce(k, p / k, p % k, q, 0);
  }

  /** Being aligned is being divisible by the block size. */
  lemma AlignedIsDivisible(p: nat, o: nat)
    ensures Aligned(p, o) <==> p % Pow2(o) == 0
  {
    hide Aligned, Pow2;
    if Aligned(p, o) {
      var q := AlignedIsMultiple(p, o);
      RemainderOf(Pow2(o), q);
    }
    if p % Pow2(o) == 0 {
      Dividend(p, Pow2(o));
      MultipleIsAligned(o, p / Pow2(o));
    }
  }

  lemma Dividend(p: nat, k: nat)
    requires k > 0 && p % k == 0
    ensures p == k * (p / k)
  {
  }

  lemma {:induction false} AlignedLower(p: nat, o: nat, lower: nat)
    requires Aligned(p, o) && lower <= o
    ensures Aligned(p, lower)
  {
    if lower > 0 {
      AlignedLower(p / 2, o - 1, lower - 1);
    }
  }

  lemma {:induction false} AlignedPow2(n: nat, o: nat)
    requires o <= n
    ensures Aligned(Pow2(n), o)
  {
    if o > 0 {
      AlignedPow2(n - 1, o - 1);
    }
  }

  lemma {:induction false} AlignedSum(p: nat, q: nat, o: nat)
    requires Aligned(p, o)
    ensures Aligned(q, o) <==> Aligned(p + q, o)
  {
    if o > 0 {
      AlignedSum(p / 2, q / 2, o - 1);
      if q % 2 == 0 {
        assert (p + q) / 2 == p / 2 + q / 2;
      }
    }
  }

  lemma {:induction false} AlignedAtLeast(p: nat, o: nat)
    requires Aligned(p, o) && p > 0
    ensures p >= Pow2(o)
  {
    if o > 0 {
      AlignedAtLeast(p / 2, o - 1);
    }
  }

  lemma {:induction false} HighestBitBounds(x: nat)
    requires x > 0
    ensures Pow2(HighestBit(x)) <= x < 2 * Pow2(HighestBit(x))
  {
    if x > 1 {
      HighestBitBounds(x / 2);
    }
  }

  lemma {:induction false} Pow2Monotone(a: nat, b: nat)
    requires a <= b
    ensures Pow2(a) <= Pow2(b)
  {
    if a < b {
      Pow2Monotone(a, b - 1);
    }
  }

  lemma {:induction false} LowestOfBorder(x: nat, k: nat, o: nat)
    ensures o <= LowestBit(SetBit(x, k)) <==> o <= k && Aligned(x, o)
  {
    if k == 0 {
      assert SetBit(x, k) % 2 == 1;
    } else if x % 2 == 0 {
      LowestOfBorder(x / 2, k - 1, if o > 0 then o - 1 else 0);
      assert SetBit(x, k) / 2 == SetBit(x / 2, k - 1);
    }
  }

  /** A block of order `o` can stand at the start of the run [first, first + len). */
  predicate Fits(first: nat, len: nat, o: nat) {
    o < MAX_ORDER && first % Pow2(o) == 0 && Pow2(o) <= len
  }

  /** The order the loop picks: the smaller of the two bit positions. */
  function Order(first: nat, len: nat): (o: nat)
    requires len > 0
  {
    var max := LowestBit(SetBit(first, MAX_ORDER - 1));
    var min := HighestBit(len);
    if max < min then max else min
  }

  /** The loop's choice is the largest block that can stand there. */
  lemma OrderIsLargest(first: nat, len: nat, o: nat)
    requires len > 0
    ensures o <= Order(first, len) <==> Fits(first, len, o)
  {
    hide Pow2, Aligned, LowestBit, SetBit, HighestBit;
    LowestOfBorder(first, MAX_ORDER - 1, o);
    AlignedIsDivisible(first, o);
    HighestBitBounds(len);
    if o <= HighestBit(len) {
      Pow2Monotone(o, HighestBit(len));
    } else {
      Pow2Monotone(HighestBit(len) + 1, o);
      Pow2Step(HighestBit(len));
    }
  }

  lemma Pow2Step(n: nat)
    ensures Pow2(n + 1) == 2 * Pow2(n)
  {
  }

  /** The blocks chosen for the run [first, first + len), lowest first. */
  function Greedy(first: nat, len: nat): (blocks: seq<nat>)
    decreases len
  {
    if len == 0 then [] else
    var o := Order(first, len);
    OrderIsLargest(first, len, o);
    [o] + Greedy(first + Pow2(o), len - Pow2(o))
  }

  /** Aligned blocks of order at most 10 that fill [first, first + len) without gap or overlap. */
  predicate Tiles(first: nat, len: nat, blocks: seq<nat>)
    decreases |blocks|
  {
    if blocks == [] then len == 0 else
    Fits(first, len, blocks[0]) && Tiles(first + Pow2(blocks[0]), len - Pow2(blocks[0]), blocks[1..])
  }

  lemma {:induction false} GreedyTiles(first: nat, len: nat)
    ensures Tiles(first, len, Greedy(first, len))
    decreases len
  {
    hide Order, Pow2, Fits;
    if len > 0 {
      var o := Order(first, len);
      OrderIsLargest(first, len, o);
      GreedyShape(first, len);
      FitsAt(first, len, o);
      GreedyTiles(first + Pow2(o), len - Pow2(o));
      assert Greedy(first, len)[1..] == Greedy(first + Pow2(o), len - Pow2(o));
    }
  }

  lemma FitsAt(first: nat, len: nat, o: nat)
    requires Fits(first, len, o)
    ensures o < MAX_ORDER && Aligned(first, o) && 0 < Pow2(o) <= len
  {
    hide Pow2, Aligned;
    AlignedIsDivisible(first, o);
  }

  lemma GreedyShape(first: nat, len: nat)
    requires len > 0
    ensures Pow2(Order(first, len)) <= len
    ensures Greedy(first, len)
         == [Order(first, len)] + Greedy(first + Pow2(Order(first, len)), len - Pow2(Order(first, len)))
  {
    hide Order, Pow2, Fits;
    OrderIsLargest(first, len, Order(first, len));
    FitsAt(first, len, Order(first, len));
  }

  /** A block at `off` inside a larger aligned block does not stick out of it. */
  lemma Nested(first: nat, off: nat, len: nat, o: nat, g: nat)
    requires Aligned(first, g) && 0 < off < Pow2(g)
    requires Fits(first + off, len, o)
    ensures off + Pow2(o) <= Pow2(g)
  {
    hide Pow2, Aligned, Fits;
    FitsAt(first + off, len, o);
    if o >= g {
      AlignedLower(first + off, o, g);
      AlignedSum(first, off, g);
      AlignedAtLeast(off, g);
    } else {
      AlignedLower(first, g, o);
      AlignedSum(first, off, o);
      AlignedPow2(g, o);
      AlignedSum(off, Pow2(g) - off, o);
      AlignedAtLeast(Pow2(g) - off, o);
    }
  }

  /** Any tiling that has begun inside an aligned block fills that block exactly. */
  lemma {:induction false} Cut(first: nat, off: nat, len: nat, blocks: seq<nat>, g: nat) returns (m: nat)
    requires Aligned(first, g) && 0 < off <= Pow2(g) <= off + len
    requires Tiles(first + off, len, blocks)
    ensures m <= |blocks|
    ensures Tiles(first + Pow2(g), len - (Pow2(g) - off), blocks[m..])
    decreases |blocks|
  {
    hide Pow2, Aligned, Fits;
    if off == Pow2(g) {
      assert blocks[0..] == blocks;
      return 0;
    }
    Nested(first, off, len, blocks[0], g);
    FitsAt(first + off, len, blocks[0]);
    m := Cut(first, off + Pow2(blocks[0]), len - Pow2(blocks[0]), blocks[1..], g);
    assert blocks[1..][m..] == blocks[m + 1..];
    m := m + 1;
  }

  /** No tiling of a run is shorter than the greedy one, and no other is as short. */
  lemma {:induction false} GreedyIsOptimal(first: nat, len: nat, blocks: seq<nat>)
    requires Tiles(first, len, blocks)
    ensures |Greedy(first, len)| <= |blocks|
    ensures |Greedy(first, len)| == |blocks| ==> Greedy(first, len) == blocks
    decreases len
  {
    hide Pow2, Aligned, Fits, Order;
    if len > 0 {
      var g, b := Order(first, len), blocks[0];
      OrderIsLargest(first, len, g);
      OrderIsLargest(first, len, b);
      FitsAt(first, len, g);
      FitsAt(first, len, b);
      Pow2Monotone(b, g);
      GreedyShape(first, len);
      var m := Cut(first, Pow2(b), len - Pow2(b), blocks[1..], g);
      assert blocks[1..][m..] == blocks[m + 1..];
      GreedyIsOptimal(first + Pow2(g), len - Pow2(g), blocks[m + 1..]);
      if |Greedy(first, len)| == |blocks| {
        assert blocks == [b] + blocks[1..];
        SameSize(first, Pow2(b), len - Pow2(b), blocks[1..], g, b);
      }
    }
  }

  /** If the rest of a tiling also starts at the end of the larger block, the block was that one. */
  lemma SameSize(first: nat, off: nat, len: nat, rest: seq<nat>, g: nat, b: nat)
    requires off == Pow2(b) && off <= Pow2(g) <= off + len
    requires Tiles(first + off, len, rest) && Tiles(first + Pow2(g), len - (Pow2(g) - off), rest)
    ensures b == g
  {
    hide Pow2, Fits;
    TilesLength(first + off, len, rest);
    TilesLength(first + Pow2(g), len - (Pow2(g) - off), rest);
    if b < g {
      Pow2Monotone(b + 1, g);
      Pow2Step(b);
    } else if g < b {
      Pow2Monotone(g + 1, b);
      Pow2Step(g);
    }
  }

  /** The pages in a list of blocks. */
  function Pages(blocks: seq<nat>): (n: nat) {
    if blocks == [] then 0 else Pow2(blocks[0]) + Pages(blocks[1..])
  }

  lemma {:induction false} TilesLength(first: nat, len: nat, blocks: seq<nat>)
    requires Tiles(first, len, blocks)
    ensures Pages(blocks) == len
    decreases |blocks|
  {
    hide Pow2, Fits;
    if blocks != [] {
      FitsAt(first, len, blocks[0]);
      TilesLength(first + Pow2(blocks[0]), len - Pow2(blocks[0]), blocks[1..]);
    }
  }
}
