/** The general list helpers of the repository: folds, sums and products,
    transposition of a list of lists, zipping, counting, de-duplication and the
    greatest common divisor. The linear-algebra layer is built on `Sum`,
    `Transpose` and `ZipWith`. */
module Lists {

  function Min(a: int, b: int): int {
    if a <= b then a else b
  }

  // ---------------------------------------------------------------------------
  // fold, sum, product
  // ---------------------------------------------------------------------------

  /** Left fold: the accumulator starts at `init` and takes in the elements from
      first to last. */
  function Fold<A, B>(xs: seq<A>, f: (B, A) -> B, init: B): B
    decreases |xs|
  {
    if |xs| == 0 then init else Fold(xs[1..], f, f(init, xs[0]))
  }

  /** The fold runs left to right: the last element is combined last. */
  lemma {:induction false} FoldSnoc<A, B>(xs: seq<A>, x: A, f: (B, A) -> B, init: B)
    ensures Fold(xs + [x], f, init) == f(Fold(xs, f, init), x)
    decreases |xs|
  {
    if |xs| == 0 {
      assert xs + [x] == [x];
      assert Fold([x], f, init) == Fold([x][1..], f, f(init, x));
    } else {
      assert (xs + [x])[0] == xs[0];
      assert (xs + [x])[1..] == xs[1..] + [x];
      FoldSnoc(xs[1..], x, f, f(init, xs[0]));
    }
  }

  /** Folding the two halves of a list in turn is folding the whole list. */
  lemma {:induction false} FoldAppend<A, B>(xs: seq<A>, ys: seq<A>, f: (B, A) -> B, init: B)
    ensures Fold(xs + ys, f, init) == Fold(ys, f, Fold(xs, f, init))
    decreases |xs|
  {
    if |xs| == 0 {
      assert xs + ys == ys;
    } else {
      assert (xs + ys)[0] == xs[0];
      assert (xs + ys)[1..] == xs[1..] + ys;
      FoldAppend(xs[1..], ys, f, f(init, xs[0]));
    }
  }

  /** The reducer of `sum`: the element is added to the accumulator. */
  function AddTo(acc: int, x: int): int {
    x + acc
  }

  /** The reducer of `product`: the element multiplies the accumulator. */
  function MultiplyInto(acc: int, x: int): int {
    x * acc
  }

  function Sum(nums: seq<int>): int {
    Fold(nums, AddTo, 0)
  }

  function Product(nums: seq<int>): int {
    Fold(nums, MultiplyInto, 1)
  }

  /** A sum started from `acc` is `acc` plus the sum started from zero. */
  lemma {:induction false} FoldAddFrom(nums: seq<int>, acc: int)
    ensures Fold(nums, AddTo, acc) == acc + Sum(nums)
    decreases |nums|
  {
    if |nums| > 0 {
      FoldAddFrom(nums[1..], acc + nums[0]);
      FoldAddFrom(nums[1..], nums[0]);
    }
  }

  /** A product started from `acc` is `acc` times the product started from one. */
  lemma {:induction false} FoldMultiplyFrom(nums: seq<int>, acc: int)
    ensures Fold(nums, MultiplyInto, acc) == acc * Product(nums)
    decreases |nums|
  {
    if |nums| > 0 {
      FoldMultiplyFrom(nums[1..], nums[0] * acc);
      FoldMultiplyFrom(nums[1..], nums[0]);
      assert Product(nums) == nums[0] * Product(nums[1..]);
      calc {
        Fold(nums, MultiplyInto, acc);
        (nums[0] * acc) * Product(nums[1..]);
        acc * (nums[0] * Product(nums[1..]));
      }
    }
  }

  /** The empty sum is 0 and the first element is added to the sum of the rest. */
  lemma SumCons(x: int, nums: seq<int>)
    ensures Sum([]) == 0
    ensures Sum([x] + nums) == x + Sum(nums)
  {
    assert ([x] + nums)[1..] == nums;
    FoldAddFrom(nums, x);
  }

  /** The empty product is 1 and the first element multiplies the product of the rest. */
  lemma ProductCons(x: int, nums: seq<int>)
    ensures Product([]) == 1
    ensures Product([x] + nums) == x * Product(nums)
  {
    assert ([x] + nums)[1..] == nums;
    FoldMultiplyFrom(nums, x);
  }

  /** The sum of a concatenation is the sum of the sums. */
  lemma SumAppend(xs: seq<int>, ys: seq<int>)
    ensures Sum(xs + ys) == Sum(xs) + Sum(ys)
  {
    FoldAppend(xs, ys, AddTo, 0);
    FoldAddFrom(ys, Sum(xs));
  }

  /** The product of a concatenation is the product of the products. */
  lemma ProductAppend(xs: seq<int>, ys: seq<int>)
    ensures Product(xs + ys) == Product(xs) * Product(ys)
  {
    FoldAppend(xs, ys, MultiplyInto, 1);
    FoldMultiplyFrom(ys, Product(xs));
  }

  /** A sum whose terms all vanish except possibly the one at `j` is that term. */
  lemma {:induction false} SumSingleTerm(nums: seq<int>, j: nat)
    requires j < |nums|
    requires forall i :: 0 <= i < |nums| && i != j ==> nums[i] == 0
    ensures Sum(nums) == nums[j]
    decreases |nums|
  {
    assert nums == [nums[0]] + nums[1..];
    SumCons(nums[0], nums[1..]);
    if j == 0 {
      SumZero(nums[1..]);
    } else {
      SumSingleTerm(nums[1..], j - 1);
    }
  }

  /** A sum of zeros is zero. */
  lemma {:induction false} SumZero(nums: seq<int>)
    requires forall i :: 0 <= i < |nums| ==> nums[i] == 0
    ensures Sum(nums) == 0
    decreases |nums|
  {
    if |nums| > 0 {
      assert nums == [nums[0]] + nums[1..];
      SumCons(nums[0], nums[1..]);
      SumZero(nums[1..]);
    }
  }

  // ---------------------------------------------------------------------------
  // transpose
  // ---------------------------------------------------------------------------

  /** Every row is at least as long as the first one, so every entry the
      transposition reads exists. */
  predicate CoversFirstRow<T>(xss: seq<seq<T>>) {
    |xss| > 0 ==> forall x :: 0 <= x < |xss| ==> |xss[0]| <= |xss[x]|
  }

  /** All rows have the same length. */
  predicate IsRectangular<T>(xss: seq<seq<T>>) {
    forall x :: 0 <= x < |xss| ==> |xss[x]| == |xss[0]|
  }

  /** Row `i` of the result collects entry `i` of every row, in row order. */
  function Transpose<T>(xss: seq<seq<T>>): (r: seq<seq<T>>)
    requires CoversFirstRow(xss)
    ensures |xss| == 0 ==> r == []
    ensures |xss| > 0 ==> |r| == |xss[0]|
    ensures forall i :: 0 <= i < |r| ==> |r[i]| == |xss|
    ensures forall i, x :: 0 <= i < |r| && 0 <= x < |xss| ==> r[i][x] == xss[x][i]
  {
    if |xss| == 0 then []
    else
      seq(|xss[0]|, i requires 0 <= i < |xss[0]| =>
        seq(|xss|, x requires 0 <= x < |xss| => xss[x][i]))
  }

  /** Transposing twice gives back a rectangular list of lists, as long as it
      has at least one row and one column. */
  lemma TransposeInvolution<T>(xss: seq<seq<T>>)
    requires IsRectangular(xss)
    requires |xss| > 0 && |xss[0]| > 0
    ensures Transpose(Transpose(xss)) == xss
  {
    var t := Transpose(xss);
    var tt := Transpose(t);
    assert |tt| == |xss|;
    forall x | 0 <= x < |xss|
      ensures tt[x] == xss[x]
    {
      assert |tt[x]| == |xss[x]|;
      forall i | 0 <= i < |xss[x]|
        ensures tt[x][i] == xss[x][i]
      {
        assert tt[x][i] == t[i][x];
      }
    }
  }

  /** A list of empty rows loses its row count when transposed twice: the first
      transposition has no rows. */
  lemma TransposeOfEmptyRows<T>(xss: seq<seq<T>>)
    requires |xss| > 0 && |xss[0]| == 0
    requires CoversFirstRow(xss)
    ensures Transpose(xss) == []
    ensures Transpose(Transpose(xss)) == []
  {
  }

  // ---------------------------------------------------------------------------
  // zip, zipWith
  // ---------------------------------------------------------------------------

  /** Pairs up the elements at equal positions; the longer list's tail is dropped. */
  function Zip<A, B>(xs: seq<A>, ys: seq<B>): (r: seq<(A, B)>)
    ensures |r| == Min(|xs|, |ys|)
    ensures forall i :: 0 <= i < |r| ==> r[i] == (xs[i], ys[i])
    decreases |xs|
  {
    if |xs| == 0 || |ys| == 0 then [] else [(xs[0], ys[0])] + Zip(xs[1..], ys[1..])
  }

  /** Combines the elements at equal positions with `f`; the longer list's tail
      is dropped. */
  function ZipWith<A, B, C>(xs: seq<A>, ys: seq<B>, f: (A, B) -> C): (r: seq<C>)
    ensures |r| == Min(|xs|, |ys|)
    ensures forall i :: 0 <= i < |r| ==> r[i] == f(xs[i], ys[i])
    decreases |xs|
  {
    if |xs| == 0 || |ys| == 0 then [] else [f(xs[0], ys[0])] + ZipWith(xs[1..], ys[1..], f)
  }

  /** `zipWith` is `zip` followed by applying `f` to every pair. */
  lemma ZipWithIsZipThenApply<A, B, C>(xs: seq<A>, ys: seq<B>, f: (A, B) -> C)
    ensures ZipWith(xs, ys, f) == seq(|Zip(xs, ys)|, i requires 0 <= i < |Zip(xs, ys)| => f(Zip(xs, ys)[i].0, Zip(xs, ys)[i].1))
  {
  }

  /** Zipping with a commutative operation does not depend on the argument order. */
  lemma ZipWithCommutes<A, C>(xs: seq<A>, ys: seq<A>, f: (A, A) -> C)
    requires forall a, b :: f(a, b) == f(b, a)
    ensures ZipWith(xs, ys, f) == ZipWith(ys, xs, f)
  {
  }

  // ---------------------------------------------------------------------------
  // count
  // ---------------------------------------------------------------------------

  /** The positions of the elements that satisfy `p`. */
  ghost function Matching<T>(xs: seq<T>, p: T -> bool): set<int> {
    set i | 0 <= i < |xs| && p(xs[i])
  }

  method Count<T>(xs: seq<T>, p: T -> bool) returns (n: nat)
    ensures n == |Matching(xs, p)|
    ensures n <= |xs|
  {
    n := 0;
    var k := 0;
    while k < |xs|
      invariant 0 <= k <= |xs|
      invariant n == |set i | 0 <= i < k && p(xs[i])|
      invariant n <= k
    {
      ghost var before := set i | 0 <= i < k && p(xs[i]);
      assert k !in before;
      if p(xs[k]) {
        n := n + 1;
        assert (set i | 0 <= i < k + 1 && p(xs[i])) == before + {k};
      } else {
        assert (set i | 0 <= i < k + 1 && p(xs[i])) == before;
      }
      k := k + 1;
    }
    assert xs[..k] == xs;
  }

  // ---------------------------------------------------------------------------
  // distinct
  // ---------------------------------------------------------------------------

  /** The position of the first occurrence of `x`. */
  function FirstIndex<A(==)>(xs: seq<A>, x: A): (i: nat)
    requires x in xs
    ensures i < |xs| && xs[i] == x && x !in xs[..i]
  {
    if xs[0] == x then 0
    else
      var j := FirstIndex(xs[1..], x);
      assert xs[..j + 1] == [xs[0]] + xs[1..][..j];
      j + 1
  }

  /** An element not seen before position `k` has its first occurrence at `k`. */
  lemma FirstOccurrence<A>(xs: seq<A>, k: nat)
    requires k < |xs| && xs[k] !in xs[..k]
    ensures FirstIndex(xs, xs[k]) == k
  {
  }

  /** Keeps the first occurrence of every element, in the order of first
      occurrence (the iteration order of an insertion-ordered set). */
  method Distinct<A(==)>(xs: seq<A>) returns (r: seq<A>)
    ensures forall i, j :: 0 <= i < j < |r| ==> r[i] != r[j]
    ensures forall x :: x in r <==> x in xs
    ensures forall i, j :: 0 <= i < j < |r| ==> FirstIndex(xs, r[i]) < FirstIndex(xs, r[j])
  {
    r := [];
    var k := 0;
    while k < |xs|
      invariant 0 <= k <= |xs|
      invariant forall i, j :: 0 <= i < j < |r| ==> r[i] != r[j]
      invariant forall x :: x in r <==> x in xs[..k]
      invariant forall i :: 0 <= i < |r| ==> r[i] in xs && FirstIndex(xs, r[i]) < k
      invariant forall i, j :: 0 <= i < j < |r| ==> FirstIndex(xs, r[i]) < FirstIndex(xs, r[j])
    {
      assert xs[..k + 1] == xs[..k] + [xs[k]];
      if xs[k] !in r {
        FirstOccurrence(xs, k);
        r := r + [xs[k]];
      }
      k := k + 1;
    }
    assert xs[..k] == xs;
  }

  // ---------------------------------------------------------------------------
  // gcd
  // ---------------------------------------------------------------------------

  ghost predicate Divides(d: nat, n: nat) {
    exists k: nat :: d * k == n
  }

  lemma DividesZero(d: nat)
    ensures Divides(d, 0)
  {
    assert d * 0 == 0;
  }

  lemma DividesSelf(n: nat)
    ensures Divides(n, n)
  {
    assert n * 1 == n;
  }

  /** A common divisor of `y` and `x % y` divides `x`. */
  lemma DividesFromRemainder(d: nat, x: nat, y: nat)
    requires y > 0 && Divides(d, y) && Divides(d, x % y)
    ensures Divides(d, x)
  {
    var a: nat :| d * a == y;
    var b: nat :| d * b == x % y;
    var q: nat := x / y;
    assert x == q * y + x % y;
    assert q * y == d * (q * a) by {
      assert q * (d * a) == d * (q * a);
    }
    assert d * (q * a + b) == x;
  }

  /** A common divisor of `x` and `y` divides `x % y`. */
  lemma DividesRemainder(d: nat, x: nat, y: nat)
    requires y > 0 && Divides(d, x) && Divides(d, y)
    ensures Divides(d, x % y)
  {
    var a: nat :| d * a == x;
    var b: nat :| d * b == y;
    var q: nat := x / y;
    assert d > 0;
    assert x % y == x - q * y;
    assert q * y == d * (q * b) by {
      assert q * (d * b) == d * (q * b);
    }
    var k := a - q * b;
    assert d * k == x % y;
  }

  /** Euclid's algorithm on non-negative integers: the result divides both
      arguments and every common divisor divides it. */
  function Gcd(x: nat, y: nat): (r: nat)
    ensures Divides(r, x) && Divides(r, y)
    ensures forall d: nat :: Divides(d, x) && Divides(d, y) ==> Divides(d, r)
    decreases y
  {
    if y == 0 then
      DividesSelf(x);
      DividesZero(x);
      x
    else
      var r := Gcd(y, x % y);
      DividesFromRemainder(r, x, y);
      GcdStep(x, y);
      r
  }

  /** The common divisors of `x` and `y` are those of `y` and `x % y`. */
  lemma GcdStep(x: nat, y: nat)
    requires y > 0
    ensures forall d: nat :: Divides(d, x) && Divides(d, y) ==> Divides(d, x % y)
  {
    forall d: nat | Divides(d, x) && Divides(d, y)
      ensures Divides(d, x % y)
    {
      DividesRemainder(d, x, y);
    }
  }

}
