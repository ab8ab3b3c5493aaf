/** Integer vectors: componentwise addition and scaling, and the dot product.
    The order of a vector is its number of components. Operations on two
    vectors of different orders work on the common prefix, as `zipWith` does. */
module Vectors {
  import opened Lists

  datatype Vector = Vector(components: seq<int>)

  function Order(v: Vector): nat {
    |v.components|
  }

  /** The components as a list (`getComponents` returns a copy). */
  function Components(v: Vector): (r: seq<int>)
    ensures |r| == Order(v)
    ensures Vector(r) == v
  {
    v.components
  }

  function Add(x: int, y: int): int {
    x + y
  }

  function Multiply(x: int, y: int): int {
    x * y
  }

  /** Componentwise sum, as long as the shorter vector. */
  function Plus(v: Vector, w: Vector): (r: Vector)
    ensures Order(r) == Min(Order(v), Order(w))
    ensures forall i :: 0 <= i < Order(r) ==> r.components[i] == v.components[i] + w.components[i]
  {
    Vector(ZipWith(v.components, w.components, Add))
  }

  /** Every component multiplied by `scalar`. */
  function Scale(v: Vector, scalar: int): (r: Vector)
    ensures Order(r) == Order(v)
    ensures forall i :: 0 <= i < Order(r) ==> r.components[i] == v.components[i] * scalar
  {
    Vector(seq(|v.components|, i requires 0 <= i < |v.components| => v.components[i] * scalar))
  }

  /** The sum of the products of the components at equal positions. */
  function DotProduct(v: Vector, w: Vector): int {
    Sum(ZipWith(v.components, w.components, Multiply))
  }

  /** The unit vector of the given order with its one at position `j`. */
  function Unit(order: nat, j: nat): (r: Vector)
    ensures Order(r) == order
    ensures forall i :: 0 <= i < order ==> r.components[i] == if i == j then 1 else 0
  {
    Vector(seq(order, i => if i == j then 1 else 0))
  }

  /** Vector addition commutes. */
  lemma PlusCommutes(v: Vector, w: Vector)
    ensures Plus(v, w) == Plus(w, v)
  {
    ZipWithCommutes(v.components, w.components, Add);
  }

  /** The dot product unfolds from the first components: their product plus the
      dot product of the rest; it is zero when either vector is empty. */
  lemma DotProductCons(a: int, v: seq<int>, b: int, w: seq<int>)
    ensures DotProduct(Vector([]), Vector(w)) == 0
    ensures DotProduct(Vector(v), Vector([])) == 0
    ensures DotProduct(Vector([a] + v), Vector([b] + w)) == a * b + DotProduct(Vector(v), Vector(w))
  {
    var zs := ZipWith([a] + v, [b] + w, Multiply);
    assert ([a] + v)[1..] == v;
    assert ([b] + w)[1..] == w;
    assert zs == [a * b] + ZipWith(v, w, Multiply);
    SumCons(a * b, ZipWith(v, w, Multiply));
  }

  /** The dot product is symmetric. */
  lemma DotProductCommutes(v: Vector, w: Vector)
    ensures DotProduct(v, w) == DotProduct(w, v)
  {
    assert forall a, b :: Multiply(a, b) == Multiply(b, a);
    ZipWithCommutes(v.components, w.components, Multiply);
  }

  /** Scaling one argument scales the dot product. */
  lemma {:induction false} DotProductScale(v: Vector, w: Vector, c: int)
    ensures DotProduct(Scale(v, c), w) == c * DotProduct(v, w)
    decreases |v.components|
  {
    if |v.components| == 0 || |w.components| == 0 {
      DotProductCons(0, [], 0, w.components);
      DotProductCons(0, v.components, 0, []);
      assert Scale(v, c).components == [] || w.components == [];
    } else {
      var a, vs := v.components[0], v.components[1..];
      var b, ws := w.components[0], w.components[1..];
      assert v.components == [a] + vs;
      assert w.components == [b] + ws;
      assert Scale(v, c).components == [a * c] + Scale(Vector(vs), c).components;
      DotProductCons(a * c, Scale(Vector(vs), c).components, b, ws);
      DotProductCons(a, vs, b, ws);
      DotProductScale(Vector(vs), Vector(ws), c);
      ScaleFirstTerm(a, b, c, DotProduct(Vector(vs), Vector(ws)));
    }
  }

  /** The arithmetic step of `DotProductScale`: the scaled first product plus the
      scaled rest is the scaled whole. */
  lemma ScaleFirstTerm(a: int, b: int, c: int, rest: int)
    ensures a * c * b + c * rest == c * (a * b + rest)
  {
  }

  /** The dot product distributes over vector addition, for vectors of one order. */
  lemma {:induction false} DotProductPlus(u: Vector, v: Vector, w: Vector)
    requires Order(u) == Order(v) == Order(w)
    ensures DotProduct(Plus(u, v), w) == DotProduct(u, w) + DotProduct(v, w)
    decreases |u.components|
  {
    if |u.components| == 0 {
      DotProductCons(0, [], 0, w.components);
      assert Plus(u, v).components == [];
    } else {
      var a, us := u.components[0], u.components[1..];
      var b, vs := v.components[0], v.components[1..];
      var c, ws := w.components[0], w.components[1..];
      assert u.components == [a] + us;
      assert v.components == [b] + vs;
      assert w.components == [c] + ws;
      assert Plus(u, v).components == [a + b] + Plus(Vector(us), Vector(vs)).components;
      DotProductCons(a + b, Plus(Vector(us), Vector(vs)).components, c, ws);
      DotProductCons(a, us, c, ws);
      DotProductCons(b, vs, c, ws);
      DotProductPlus(Vector(us), Vector(vs), Vector(ws));
      assert (a + b) * c == a * c + b * c;
    }
  }

  /** The dot product with a unit vector picks out one component. */
  lemma DotProductUnit(v: Vector, j: nat)
    requires j < Order(v)
    ensures DotProduct(v, Unit(Order(v), j)) == v.components[j]
    ensures DotProduct(Unit(Order(v), j), v) == v.components[j]
  {
    var e := Unit(Order(v), j);
    var products := ZipWith(v.components, e.components, Multiply);
    assert forall i :: 0 <= i < |products| && i != j ==> products[i] == 0;
    SumSingleTerm(products, j);
    DotProductCommutes(v, e);
  }

}
