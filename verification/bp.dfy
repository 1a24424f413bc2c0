/** The leave-one-out tree of the belief-propagation decoder
    (src/decoder_bp.c, `extrinsic`): given `size` values as the leaves of a
    binary tree, one pass up and one pass down leave at every leaf `op` over
    all the OTHER leaves. The decoder runs it with multiplication for the
    check nodes and with addition for the variable nodes.

    The tree is modelled level by level over any commutative monoid: level k
    of the flat array, tree[2^k ..], is one sequence. */
module ExtrinsicTree {
  import opened Macros

  // ---------------------------------------------------------------------------
  // Commutative monoids and folds
  // ---------------------------------------------------------------------------

  /** The laws at given points, so that a proof names each use. */
  ghost predicate AssocAt<T>(op: (T, T) -> T, a: T, b: T, c: T)
  {
    op(op(a, b), c) == op(a, op(b, c))
  }

  ghost predicate CommAt<T>(op: (T, T) -> T, a: T, b: T)
  {
    op(a, b) == op(b, a)
  }

  ghost predicate UnitAt<T>(op: (T, T) -> T, unit: T, a: T)
  {
    op(unit, a) == a
  }

  /** What the leave-one-out needs of `op`: associative, commutative, with a unit. */
  ghost predicate CommutativeMonoid<T(!new)>(op: (T, T) -> T, unit: T)
  {
    (forall a, b, c :: AssocAt(op, a, b, c))
    && (forall a, b :: CommAt(op, a, b))
    && (forall a :: UnitAt(op, unit, a))
  }

  lemma Assoc<T(!new)>(op: (T, T) -> T, unit: T, a: T, b: T, c: T)
    requires CommutativeMonoid(op, unit)
    ensures op(op(a, b), c) == op(a, op(b, c))
  {
    assert AssocAt(op, a, b, c);
  }

  lemma Comm<T(!new)>(op: (T, T) -> T, unit: T, a: T, b: T)
    requires CommutativeMonoid(op, unit)
    ensures op(a, b) == op(b, a)
  {
    assert CommAt(op, a, b);
  }

  lemma Unit<T(!new)>(op: (T, T) -> T, unit: T, a: T)
    requires CommutativeMonoid(op, unit)
    ensures op(unit, a) == a && op(a, unit) == a
  {
    assert UnitAt(op, unit, a);
    assert CommAt(op, a, unit);
  }

  /** The two operations of the decoder, add and mult (lines 84-86), on exact reals. */
  function Add(a: real, b: real): real { a + b }

  function Mul(a: real, b: real): real { a * b }

  lemma AddIsMonoid()
    ensures CommutativeMonoid(Add, 0.0)
  {
  }

  lemma MulIsMonoid()
    ensures CommutativeMonoid(Mul, 1.0)
  {
    forall a: real, b: real, c: real
      ensures AssocAt(Mul, a, b, c)
    {
      assert (a * b) * c == a * (b * c);
    }
  }

  /** op over a whole sequence, unit for the empty one. */
  function Fold<T>(op: (T, T) -> T, unit: T, s: seq<T>): T
    decreases |s|
  {
    if |s| == 0 then unit else op(s[0], Fold(op, unit, s[1..]))
  }

  function Without<T>(s: seq<T>, i: nat): (r: seq<T>)
    requires i < |s|
    ensures |r| == |s| - 1
    ensures forall p :: 0 <= p < i ==> r[p] == s[p]
    ensures forall p :: i <= p < |r| ==> r[p] == s[p + 1]
  {
    s[..i] + s[i + 1..]
  }

  /** The brute-force leave-one-out: entry i is op over every entry but the i-th. */
  function Others<T>(op: (T, T) -> T, unit: T, s: seq<T>): (r: seq<T>)
    ensures |r| == |s|
  {
    seq(|s|, i requires 0 <= i < |s| => Fold(op, unit, Without(s, i)))
  }

  lemma {:induction false} FoldAppend<T(!new)>(op: (T, T) -> T, unit: T, a: seq<T>, b: seq<T>)
    requires CommutativeMonoid(op, unit)
    ensures Fold(op, unit, a + b) == op(Fold(op, unit, a), Fold(op, unit, b))
    decreases |a|
  {
    if |a| > 0 {
      assert (a + b)[1..] == a[1..] + b;
      FoldAppend(op, unit, a[1..], b);
      Assoc(op, unit, a[0], Fold(op, unit, a[1..]), Fold(op, unit, b));
    } else {
      assert a + b == b;
      Unit(op, unit, Fold(op, unit, b));
    }
  }

  /** Moving a value past a pair: op(x, op(a, b)) == op(a, op(x, b)). */
  lemma Rotate<T(!new)>(op: (T, T) -> T, unit: T, x: T, a: T, b: T)
    requires CommutativeMonoid(op, unit)
    ensures op(x, op(a, b)) == op(a, op(x, b))
  {
    calc {
      op(x, op(a, b));
      { Assoc(op, unit, x, a, b); }
      op(op(x, a), b);
      { Comm(op, unit, x, a); }
      op(op(a, x), b);
      { Assoc(op, unit, a, x, b); }
      op(a, op(x, b));
    }
  }

  // ---------------------------------------------------------------------------
  // One level up, one level down
  // ---------------------------------------------------------------------------

  /** One level of the bottom-up pass, lines 99-110: node i of the level above
      is op of children 2i and 2i + 1, and when the count is odd the last child
      is carried up alone. */
  function Up<T>(op: (T, T) -> T, s: seq<T>): (r: seq<T>)
    ensures |r| == (|s| + 1) / 2
  {
    seq((|s| + 1) / 2, i requires 0 <= i < (|s| + 1) / 2 =>
      if 2 * i + 1 < |s| then op(s[2 * i], s[2 * i + 1]) else s[2 * i])
  }

  /** One level of the top-down pass, lines 113-126: the SWAP of the two
      children followed by op with their parent gives child 2i the value
      op(child 2i + 1, parent) and child 2i + 1 the value op(child 2i, parent);
      a carried child takes its parent's value. */
  function Down<T>(op: (T, T) -> T, s: seq<T>, above: seq<T>): (r: seq<T>)
    requires |above| == (|s| + 1) / 2
    ensures |r| == |s|
  {
    seq(|s|, i requires 0 <= i < |s| =>
      if i % 2 == 1 then op(s[i - 1], above[i / 2])
      else if i + 1 < |s| then op(s[i + 1], above[i / 2])
      else above[i / 2])
  }

  /** Cutting a level at an even position cuts the level above at half of it. */
  lemma UpSplit<T>(op: (T, T) -> T, s: seq<T>, p: nat)
    requires 2 * p <= |s|
    ensures Up(op, s)[..p] == Up(op, s[..2 * p])
    ensures Up(op, s)[p..] == Up(op, s[2 * p..])
  {
    var u := Up(op, s);
    assert forall q :: 0 <= q < p ==> u[..p][q] == Up(op, s[..2 * p])[q];
    assert forall q :: 0 <= q < |u| - p ==> u[p..][q] == Up(op, s[2 * p..])[q];
  }

  /** A level holds the same op-total as the level below it. */
  lemma {:induction false} FoldUp<T(!new)>(op: (T, T) -> T, unit: T, s: seq<T>)
    requires CommutativeMonoid(op, unit)
    ensures Fold(op, unit, Up(op, s)) == Fold(op, unit, s)
    decreases |s|
  {
    if |s| >= 2 {
      var u := Up(op, s);
      UpSplit(op, s, 1);
      FoldUp(op, unit, s[2..]);
      assert s[1..][1..] == s[2..];
      calc {
        Fold(op, unit, u);
        op(op(s[0], s[1]), Fold(op, unit, u[1..]));
        op(op(s[0], s[1]), Fold(op, unit, s[2..]));
        { Assoc(op, unit, s[0], s[1], Fold(op, unit, s[2..])); }
        op(s[0], op(s[1], Fold(op, unit, s[2..])));
        Fold(op, unit, s);
      }
    } else if |s| == 1 {
      assert Up(op, s) == s;
    }
  }

  /** op over a single value is that value. */
  lemma FoldSingle<T(!new)>(op: (T, T) -> T, unit: T, x: T)
    requires CommutativeMonoid(op, unit)
    ensures Fold(op, unit, [x]) == x
  {
    assert [x][1..] == [];
    Unit(op, unit, x);
  }

  /** Node p of the level above, left out: op over the leaves before its
      children and the leaves after them. */
  lemma AboveValue<T(!new)>(op: (T, T) -> T, unit: T, s: seq<T>, p: nat)
    requires CommutativeMonoid(op, unit) && 2 * p < |s|
    ensures var e := if 2 * p + 2 <= |s| then 2 * p + 2 else |s|;
      Others(op, unit, Up(op, s))[p] == op(Fold(op, unit, s[..2 * p]), Fold(op, unit, s[e..]))
  {
    var u := Up(op, s);
    var e := if 2 * p + 2 <= |s| then 2 * p + 2 else |s|;
    UpSplit(op, s, p);
    FoldUp(op, unit, s[..2 * p]);
    FoldAppend(op, unit, u[..p], u[p + 1..]);
    if 2 * p + 2 <= |s| {
      UpSplit(op, s, p + 1);
      FoldUp(op, unit, s[2 * p + 2..]);
    } else {
      assert u[p + 1..] == [] && s[e..] == [];
    }
  }

  /** The left child of a pair receives op(right child, parent). */
  lemma DownLeft<T(!new)>(op: (T, T) -> T, unit: T, s: seq<T>, p: nat)
    requires CommutativeMonoid(op, unit) && 2 * p + 1 < |s|
    ensures op(s[2 * p + 1], Others(op, unit, Up(op, s))[p]) == Fold(op, unit, Without(s, 2 * p))
  {
    AboveValue(op, unit, s, p);
    var A, B := Fold(op, unit, s[..2 * p]), Fold(op, unit, s[2 * p + 2..]);
    assert s[2 * p + 1..][1..] == s[2 * p + 2..];
    FoldAppend(op, unit, s[..2 * p], s[2 * p + 1..]);
    assert Fold(op, unit, Without(s, 2 * p)) == op(A, op(s[2 * p + 1], B));
    Rotate(op, unit, s[2 * p + 1], A, B);
  }

  /** The right child of a pair receives op(left child, parent). */
  lemma DownRight<T(!new)>(op: (T, T) -> T, unit: T, s: seq<T>, p: nat)
    requires CommutativeMonoid(op, unit) && 2 * p + 1 < |s|
    ensures op(s[2 * p], Others(op, unit, Up(op, s))[p]) == Fold(op, unit, Without(s, 2 * p + 1))
  {
    AboveValue(op, unit, s, p);
    var A, B := Fold(op, unit, s[..2 * p]), Fold(op, unit, s[2 * p + 2..]);
    var x0 := s[2 * p];
    assert s[..2 * p + 1] == s[..2 * p] + [x0];
    FoldAppend(op, unit, s[..2 * p], [x0]);
    FoldSingle(op, unit, x0);
    FoldAppend(op, unit, s[..2 * p + 1], s[2 * p + 2..]);
    assert Fold(op, unit, Without(s, 2 * p + 1)) == op(op(A, x0), B);
    Assoc(op, unit, A, x0, B);
    Rotate(op, unit, x0, A, B);
  }

  /** A carried child receives its parent's value. */
  lemma DownCarried<T(!new)>(op: (T, T) -> T, unit: T, s: seq<T>, p: nat)
    requires CommutativeMonoid(op, unit) && 2 * p + 1 == |s|
    ensures Others(op, unit, Up(op, s))[p] == Fold(op, unit, Without(s, 2 * p))
  {
    AboveValue(op, unit, s, p);
    assert s[|s|..] == [];
    assert Without(s, 2 * p) == s[..2 * p];
    Unit(op, unit, Fold(op, unit, s[..2 * p]));
  }

  /** The pass down turns leave-one-out values of the level above into
      leave-one-out values of this level. */
  lemma DownAt<T(!new)>(op: (T, T) -> T, unit: T, s: seq<T>, i: nat)
    requires CommutativeMonoid(op, unit) && i < |s|
    ensures Down(op, s, Others(op, unit, Up(op, s)))[i] == Fold(op, unit, Without(s, i))
  {
    var p := i / 2;
    if i % 2 == 1 {
      DownRight(op, unit, s, p);
    } else if i + 1 < |s| {
      DownLeft(op, unit, s, p);
    } else {
      DownCarried(op, unit, s, p);
    }
  }

  lemma DownLeavesOneOut<T(!new)>(op: (T, T) -> T, unit: T, s: seq<T>)
    requires CommutativeMonoid(op, unit)
    ensures Down(op, s, Others(op, unit, Up(op, s))) == Others(op, unit, s)
  {
    forall i | 0 <= i < |s|
      ensures Down(op, s, Others(op, unit, Up(op, s)))[i] == Others(op, unit, s)[i]
    {
      DownAt(op, unit, s, i);
    }
  }

  // ---------------------------------------------------------------------------
  // The whole tree
  // ---------------------------------------------------------------------------

  /** Number of nodes d levels above a level of m nodes: sizes[k] + carries[k]
      of lines 97-103, each level holding half the one below, rounded up. */
  function LevelCount(m: nat, d: nat): nat
  {
    if d == 0 then m else LevelCount((m + 1) / 2, d - 1)
  }

  /** extrinsic over leaves s with d levels above them: up the tree, the SWAP
      of the two nodes of level 1 (line 112), and back down. */
  function Extrinsic<T>(op: (T, T) -> T, s: seq<T>, d: nat): (r: seq<T>)
    requires LevelCount(|s|, d) == 2
    ensures |r| == |s|
    decreases d
  {
    if d == 0 then Swap(s, 0, 1)
    else Down(op, s, Extrinsic(op, Up(op, s), d - 1))
  }

  /** Whether n is a power of two. */
  predicate IsPow2(n: nat)
  {
    n == 1 || (n > 1 && n % 2 == 0 && IsPow2(n / 2))
  }

  /** extrinsic(tree, size, op): the leaves sit at level lsize = LOG2(size) and
      the pass up stops at level 1. The SWAP at line 112 takes level 1 to hold
      two nodes, which needs a size that is not a power of two; LOG2 is the bit
      length only below 512. */
  function ExtrinsicOf<T>(op: (T, T) -> T, s: seq<T>): (r: seq<T>)
    requires 2 <= |s| < 512 && !IsPow2(|s|)
    ensures |r| == |s|
  {
    TopLevelHoldsTwo(|s|);
    Extrinsic(op, s, Log2(|s|) - 1)
  }

  /** After the two passes every leaf holds op over the other leaves. */
  lemma {:induction false} ExtrinsicLeavesOneOut<T(!new)>(op: (T, T) -> T, unit: T, s: seq<T>, d: nat)
    requires CommutativeMonoid(op, unit) && LevelCount(|s|, d) == 2
    ensures Extrinsic(op, s, d) == Others(op, unit, s)
    decreases d
  {
    if d == 0 {
      assert Without(s, 0) == [s[1]] && Without(s, 1) == [s[0]];
      FoldSingle(op, unit, s[0]);
      FoldSingle(op, unit, s[1]);
    } else {
      ExtrinsicLeavesOneOut(op, unit, Up(op, s), d - 1);
      DownLeavesOneOut(op, unit, s);
    }
  }

  /** extrinsic matches the brute-force reference on every size it accepts. */
  lemma ExtrinsicOfLeavesOneOut<T(!new)>(op: (T, T) -> T, unit: T, s: seq<T>)
    requires CommutativeMonoid(op, unit) && 2 <= |s| < 512 && !IsPow2(|s|)
    ensures ExtrinsicOf(op, s) == Others(op, unit, s)
  {
    TopLevelHoldsTwo(|s|);
    ExtrinsicLeavesOneOut(op, unit, s, Log2(|s|) - 1);
  }

  /** With add (line 84), leaf i ends up as the total minus its own value. */
  lemma ExtrinsicSum(s: seq<real>, i: nat)
    requires 2 <= |s| < 512 && !IsPow2(|s|) && i < |s|
    ensures ExtrinsicOf(Add, s)[i] == Fold(Add, 0.0, s) - s[i]
  {
    AddIsMonoid();
    ExtrinsicOfLeavesOneOut(Add, 0.0, s);
    FoldWithout(s, i);
  }

  /** With mult (line 85), leaf i ends up as the product of the other leaves. */
  lemma ExtrinsicProduct(s: seq<real>, i: nat)
    requires 2 <= |s| < 512 && !IsPow2(|s|) && i < |s|
    ensures ExtrinsicOf(Mul, s)[i] == Fold(Mul, 1.0, Without(s, i))
  {
    MulIsMonoid();
    ExtrinsicOfLeavesOneOut(Mul, 1.0, s);
  }

  /** Adding up all but entry i is the total minus entry i. */
  lemma FoldWithout(s: seq<real>, i: nat)
    requires i < |s|
    ensures Fold(Add, 0.0, Without(s, i)) == Fold(Add, 0.0, s) - s[i]
  {
    AddIsMonoid();
    var pre, post := s[..i], s[i + 1..];
    assert s == pre + s[i..];
    assert s[i..][1..] == post;
    FoldAppend(Add, 0.0, pre, s[i..]);
    FoldAppend(Add, 0.0, pre, post);
    assert Fold(Add, 0.0, s[i..]) == s[i] + Fold(Add, 0.0, post);
  }

  // ---------------------------------------------------------------------------
  // Level counts
  // ---------------------------------------------------------------------------

  lemma {:induction false} Pow2IsPow2(b: nat)
    ensures IsPow2(Pow2(b))
  {
    if b > 0 {
      Pow2IsPow2(b - 1);
      assert Pow2(b) / 2 == Pow2(b - 1);
    }
  }

  lemma {:induction false} LevelCountTwo(m: nat, d: nat)
    requires Pow2(d) < m <= Pow2(d + 1)
    ensures LevelCount(m, d) == 2
    decreases d
  {
    if d > 0 {
      LevelCountTwo((m + 1) / 2, d - 1);
    }
  }

  lemma {:induction false} LevelCountOfPow2(d: nat)
    ensures LevelCount(Pow2(d), d) == 1
    decreases d
  {
    if d > 0 {
      assert (Pow2(d) + 1) / 2 == Pow2(d - 1);
      LevelCountOfPow2(d - 1);
    }
  }

  /** Level 1 holds two nodes exactly when size is not a power of two; for a
      power of two it holds one, and the SWAP at line 112 reads a stale tree[3]. */
  lemma TopLevelHoldsTwo(size: nat)
    requires 2 <= size < 512
    ensures LevelCount(size, Log2(size) - 1) == 2 <==> !IsPow2(size)
    ensures IsPow2(size) ==> LevelCount(size, Log2(size) - 1) == 1
  {
    Log2IsBitLength(size);
    var d := Log2(size) - 1;
    if size == Pow2(d) {
      Pow2IsPow2(d);
      LevelCountOfPow2(d);
    } else {
      BetweenPowers(size, d);
      LevelCountTwo(size, d);
    }
  }

  /** Level lsize - e of a tree with leaves at level lsize fits in its window
      tree[2^k .. 2^(k+1)), so the levels never overlap (lines 104-105, 116-117). */
  lemma {:induction false} LevelInWindow(m: nat, b: nat, e: nat)
    requires m <= Pow2(b) && e <= b
    ensures LevelCount(m, e) <= Pow2(b - e)
    decreases e
  {
    if e > 0 {
      LevelInWindow((m + 1) / 2, b - 1, e - 1);
    }
  }

  // ---------------------------------------------------------------------------
  // The tree array
  // ---------------------------------------------------------------------------

  /** The tree of struct decoder_bp (include/types.h:114): 1 << LOG2(INDEX * BLOCK_LENGTH) entries. */
  function TreeEntries(L: nat): nat
  {
    Pow2(Log2(2 * L))
  }

  /** Where the leaves of extrinsic(tree, size) start, 1 << LOG2(size); lines
      130-132 put messages_v and messages_c there. */
  function LeafStart(size: nat): nat
  {
    Pow2(Log2(size))
  }

  /** As written, the 2w check-node leaves run past the end of the tree once
      w >= 128, whatever the block length: both LOG2 values are stuck at 9. */
  lemma TreeTooSmall(w: nat, L: nat)
    requires 128 <= w <= 255 && 128 <= L
    ensures TreeEntries(L) == 512 && LeafStart(2 * w) == 512
    ensures LeafStart(2 * w) + 2 * w > TreeEntries(L)
  {
    assert Pow2(9) == 512 by {
      assert Pow2(0) == 1 && Pow2(1) == 2 && Pow2(2) == 4 && Pow2(3) == 8 && Pow2(4) == 16;
      assert Pow2(5) == 32 && Pow2(6) == 64 && Pow2(7) == 128 && Pow2(8) == 256;
    }
  }

  /** A tree sized for its largest use, 2 << LOG2(INDEX * BLOCK_WEIGHT) entries. */
  function TreeEntriesFixed(w: nat): nat
  {
    2 * Pow2(Log2(2 * w))
  }

  /** With that size, the leaves of both calls (2w check messages, w variable
      messages) lie inside the tree. */
  lemma TreeFits(w: nat)
    requires 1 <= w <= 255
    ensures LeafStart(2 * w) + 2 * w <= TreeEntriesFixed(w)
    ensures LeafStart(w) + w <= TreeEntriesFixed(w)
  {
    Log2IsBitLength(w);
    Log2IsBitLength(2 * w);
    Log2Monotone(w, 2 * w);
    Pow2Monotone(Log2(w), Log2(2 * w));
  }

  lemma {:induction false} BetweenPowers(m: nat, d: nat)
    requires Pow2(d) < m < Pow2(d + 1)
    ensures !IsPow2(m)
    decreases d
  {
    if d > 0 && m % 2 == 0 {
      BetweenPowers(m / 2, d - 1);
    }
  }

}
