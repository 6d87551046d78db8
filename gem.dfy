/** The part of the GEM expression language that the factorisation core sees:
    indices with extents, expression nodes with their free indices, the
    `Failure` marker, monomials, and an integer meaning for expressions that
    stands in for the numbers the generated code computes. */
module Gem {
  import opened Seqs

  /** A loop index with a fixed extent. */
  datatype Index = Index(id: nat, extent: nat)

  /** Expression nodes. `Leaf` is any sub-expression the core treats as
      opaque (a tabulated basis function, a coefficient, an indexed
      `Failure`, ...) together with its free indices and whether a `Failure`
      node lies somewhere inside it; the other constructors are the nodes
      the core builds, plus the multiplicative identity `one` and the
      `Failure` marker. */
  datatype Expr =
    | Leaf(id: nat, free: seq<Index>, failing: bool)
    | Sum(terms: seq<Expr>)
    | Product(factors: seq<Expr>)
    | IndexSum(body: Expr, indices: seq<Index>)
    | One
    | Failure

  /** Free indices of a node, each once: a leaf has its own, a sum or
      product those of its operands, an index sum those of its body minus
      the summed indices. */
  function FreeIndices(e: Expr): (r: seq<Index>)
    ensures NoDup(r)
  {
    match e
    case Leaf(_, free, _) => DedupMembers(free); Dedup(free)
    case Sum(ts) =>
      var c := Concat(seq(|ts|, i requires 0 <= i < |ts| => FreeIndices(ts[i])));
      DedupMembers(c); Dedup(c)
    case Product(fs) =>
      var c := Concat(seq(|fs|, i requires 0 <= i < |fs| => FreeIndices(fs[i])));
      DedupMembers(c); Dedup(c)
    case IndexSum(b, idx) => DropProperties(FreeIndices(b), AsSet(idx)); Drop(FreeIndices(b), AsSet(idx))
    case One => []
    case Failure => []
  }

  /** The node has a free index among `args`. */
  predicate MeetsIndices(e: Expr, args: set<Index>)
  {
    exists i :: i in FreeIndices(e) && i in args
  }

  /** `make_sum`: a single operand stands for itself. */
  function MakeSum(es: seq<Expr>): Expr
  {
    if |es| == 1 then es[0] else Sum(es)
  }

  /** `make_product`: a single factor stands for itself. */
  function MakeProduct(es: seq<Expr>): Expr
  {
    if |es| == 1 then es[0] else Product(es)
  }

  /** Some node of the DAG is a `Failure`, including one inside an opaque
      leaf. */
  predicate ContainsFailure(e: Expr)
  {
    match e
    case Failure => true
    case Leaf(_, _, failing) => failing
    case One => false
    case Sum(ts) => exists i :: 0 <= i < |ts| && ContainsFailure(ts[i])
    case Product(fs) => exists i :: 0 <= i < |fs| && ContainsFailure(fs[i])
    case IndexSum(b, _) => ContainsFailure(b)
  }

  /** A term of a sum: the product of its atomics and `rest`, summed over
      `sumIndices`. */
  datatype Monomial = Monomial(sumIndices: seq<Index>, atomics: seq<Expr>, rest: Expr)

  /** The product node of one monomial, as `monomial_sum_to_expression`
      builds it. */
  function MonomialProduct(m: Monomial): Expr
  {
    MakeProduct(m.atomics + [m.rest])
  }

  // ---------------------------------------------------------------------
  // Meaning of expressions over the integers (a commutative ring).

  /** The values of the indices bound so far. */
  type Assignment = map<Index, int>

  /** The value of each leaf under an index assignment. */
  type Valuation = (nat, Assignment) -> int

  function Bind(rho: Assignment, i: Index, k: int): Assignment
  {
    rho[i := k]
  }

  ghost function Eval(e: Expr, v: Valuation, rho: Assignment): int
    decreases e, 0, 0
  {
    match e
    case Leaf(id, _, _) => v(id, rho)
    case Sum(ts) => SumInts(seq(|ts|, i requires 0 <= i < |ts| => Eval(ts[i], v, rho)))
    case Product(fs) => ProdInts(seq(|fs|, i requires 0 <= i < |fs| => Eval(fs[i], v, rho)))
    case IndexSum(b, idx) => SumOver(b, idx, v, rho)
    case One => 1
    case Failure => 0
  }

  /** The sum of `b` over every value of the indices `idx` within their extents. */
  ghost function SumOver(b: Expr, idx: seq<Index>, v: Valuation, rho: Assignment): int
    decreases b, 1, |idx|
  {
    if idx == [] then Eval(b, v, rho)
    else SumInts(seq(idx[0].extent, k requires 0 <= k < idx[0].extent =>
                   SumOver(b, idx[1..], v, Bind(rho, idx[0], k))))
  }

  ghost function EvalAll(es: seq<Expr>, v: Valuation, rho: Assignment): (r: seq<int>)
    ensures |r| == |es| && forall i :: 0 <= i < |es| ==> r[i] == Eval(es[i], v, rho)
  {
    seq(|es|, i requires 0 <= i < |es| => Eval(es[i], v, rho))
  }

  /** Value of a monomial, not counting its summation. */
  ghost function MonoVal(m: Monomial, v: Valuation, rho: Assignment): int
  {
    ProdInts(EvalAll(m.atomics, v, rho)) * Eval(m.rest, v, rho)
  }

  /** Value of a list of monomials, not counting their summations. */
  ghost function PolyVal(xs: seq<Monomial>, v: Valuation, rho: Assignment): int
  {
    if xs == [] then 0 else MonoVal(xs[0], v, rho) + PolyVal(xs[1..], v, rho)
  }

  lemma EvalAllAppend(a: seq<Expr>, b: seq<Expr>, v: Valuation, rho: Assignment)
    ensures EvalAll(a + b, v, rho) == EvalAll(a, v, rho) + EvalAll(b, v, rho)
  {
  }

  lemma EvalSum(ts: seq<Expr>, v: Valuation, rho: Assignment)
    ensures Eval(Sum(ts), v, rho) == SumInts(EvalAll(ts, v, rho))
  {
    assert EvalAll(ts, v, rho) == seq(|ts|, i requires 0 <= i < |ts| => Eval(ts[i], v, rho));
  }

  lemma EvalProduct(fs: seq<Expr>, v: Valuation, rho: Assignment)
    ensures Eval(Product(fs), v, rho) == ProdInts(EvalAll(fs, v, rho))
  {
    assert EvalAll(fs, v, rho) == seq(|fs|, i requires 0 <= i < |fs| => Eval(fs[i], v, rho));
  }

  /** `make_sum` denotes the sum of its operands. */
  lemma EvalMakeSum(es: seq<Expr>, v: Valuation, rho: Assignment)
    ensures Eval(MakeSum(es), v, rho) == SumInts(EvalAll(es, v, rho))
  {
    EvalSum(es, v, rho);
    if |es| == 1 {
      assert SumInts(EvalAll(es, v, rho)) == Eval(es[0], v, rho) + SumInts([]);
    }
  }

  /** `make_product` denotes the product of its factors. */
  lemma EvalMakeProduct(es: seq<Expr>, v: Valuation, rho: Assignment)
    ensures Eval(MakeProduct(es), v, rho) == ProdInts(EvalAll(es, v, rho))
  {
    EvalProduct(es, v, rho);
    if |es| == 1 {
      assert ProdInts(EvalAll(es, v, rho)) == Eval(es[0], v, rho) * ProdInts([]);
    }
  }

  /** The product node of a monomial denotes the monomial's value. */
  lemma EvalMonomialProduct(m: Monomial, v: Valuation, rho: Assignment)
    ensures Eval(MonomialProduct(m), v, rho) == MonoVal(m, v, rho)
  {
    EvalMakeProduct(m.atomics + [m.rest], v, rho);
    EvalAllAppend(m.atomics, [m.rest], v, rho);
    ProdIntsAppend(EvalAll(m.atomics, v, rho), EvalAll([m.rest], v, rho));
    assert ProdInts(EvalAll([m.rest], v, rho)) == Eval(m.rest, v, rho) * ProdInts([]);
  }

  lemma {:induction false} PolyValAppend(a: seq<Monomial>, b: seq<Monomial>, v: Valuation, rho: Assignment)
    ensures PolyVal(a + b, v, rho) == PolyVal(a, v, rho) + PolyVal(b, v, rho)
  {
    if a == [] {
      assert a + b == b;
    } else {
      assert (a + b)[0] == a[0];
      assert (a + b)[1..] == a[1..] + b;
      PolyValAppend(a[1..], b, v, rho);
    }
  }

  /** Two bodies that agree under every assignment have the same index sum. */
  lemma {:induction false} SumOverCongruent(b1: Expr, b2: Expr, idx: seq<Index>, v: Valuation, rho: Assignment)
    requires forall r: Assignment :: Eval(b1, v, r) == Eval(b2, v, r)
    ensures SumOver(b1, idx, v, rho) == SumOver(b2, idx, v, rho)
    decreases |idx|
  {
    if idx != [] {
      var n := idx[0].extent;
      forall k | 0 <= k < n
        ensures SumOver(b1, idx[1..], v, Bind(rho, idx[0], k)) == SumOver(b2, idx[1..], v, Bind(rho, idx[0], k))
      {
        SumOverCongruent(b1, b2, idx[1..], v, Bind(rho, idx[0], k));
      }
      var s1 := seq(idx[0].extent, k requires 0 <= k < idx[0].extent => SumOver(b1, idx[1..], v, Bind(rho, idx[0], k)));
      var s2 := seq(idx[0].extent, k requires 0 <= k < idx[0].extent => SumOver(b2, idx[1..], v, Bind(rho, idx[0], k)));
      assert SumOver(b1, idx, v, rho) == SumInts(s1);
      assert SumOver(b2, idx, v, rho) == SumInts(s2);
      assert s1 == s2;
    }
  }

  /** One step of an index sum, for any function giving the inner sums. */
  lemma SumOverUnfold(b: Expr, idx: seq<Index>, v: Valuation, rho: Assignment, f: int -> int)
    requires idx != []
    requires forall k :: 0 <= k < idx[0].extent ==> f(k) == SumOver(b, idx[1..], v, Bind(rho, idx[0], k))
    ensures SumOver(b, idx, v, rho) == SumInts(seq(idx[0].extent, f))
  {
    var s := seq(idx[0].extent, k requires 0 <= k < idx[0].extent =>
               SumOver(b, idx[1..], v, Bind(rho, idx[0], k)));
    assert SumOver(b, idx, v, rho) == SumInts(s);
    assert s == seq(idx[0].extent, f);
  }

  /** The index sum of a body that is pointwise the sum of two bodies is
      the sum of their index sums. */
  lemma {:induction false} SumOverAdd(b: Expr, b1: Expr, b2: Expr, idx: seq<Index>, v: Valuation, rho: Assignment)
    requires forall r: Assignment :: Eval(b, v, r) == Eval(b1, v, r) + Eval(b2, v, r)
    ensures SumOver(b, idx, v, rho) == SumOver(b1, idx, v, rho) + SumOver(b2, idx, v, rho)
    decreases |idx|
  {
    if idx != [] {
      var n := idx[0].extent;
      var f := (k: int) => SumOver(b, idx[1..], v, Bind(rho, idx[0], k));
      var f1 := (k: int) => SumOver(b1, idx[1..], v, Bind(rho, idx[0], k));
      var f2 := (k: int) => SumOver(b2, idx[1..], v, Bind(rho, idx[0], k));
      forall k | 0 <= k < n ensures f(k) == f1(k) + f2(k) {
        SumOverAdd(b, b1, b2, idx[1..], v, Bind(rho, idx[0], k));
      }
      SumIntsAdd(f1, f2, f, n);
      SumOverUnfold(b, idx, v, rho, f);
      SumOverUnfold(b1, idx, v, rho, f1);
      SumOverUnfold(b2, idx, v, rho, f2);
    }
  }

  /** Summing over an index list equals summing over the same list with any
      one index moved to the front. */
  lemma {:induction false} SumOverToFront(b: Expr, s: seq<Index>, i: nat, v: Valuation, rho: Assignment)
    requires NoDup(s) && i < |s|
    ensures SumOver(b, s, v, rho) == SumOver(b, [s[i]] + (s[..i] + s[i + 1..]), v, rho)
    decreases i
  {
    if i > 0 {
      var y, t, x := s[0], s[1..], s[i];
      NoDupTail(s);
      assert t[i - 1] == x && x != y;
      var t' := t[..i - 1] + t[i..];
      assert s[..i] + s[i + 1..] == [y] + t';
      var f := (k: int) => SumOver(b, [x] + t', v, Bind(rho, y, k));
      forall k | 0 <= k < y.extent ensures f(k) == SumOver(b, s[1..], v, Bind(rho, s[0], k)) {
        SumOverToFront(b, t, i - 1, v, Bind(rho, y, k));
      }
      SumOverUnfold(b, s, v, rho, f);
      assert ([y] + ([x] + t'))[1..] == [x] + t';
      SumOverUnfold(b, [y] + ([x] + t'), v, rho, f);
      SwapFront(b, x, y, t', v, rho);
    } else {
      assert s[..0] + s[1..] == s[1..];
      assert [s[0]] + s[1..] == s;
    }
  }

  /** Two distinct leading indices can be exchanged. */
  lemma SwapFront(b: Expr, x: Index, y: Index, t: seq<Index>, v: Valuation, rho: Assignment)
    requires x != y
    ensures SumOver(b, [y] + ([x] + t), v, rho) == SumOver(b, [x] + ([y] + t), v, rho)
  {
    var a := (k: int) => (l: int) => SumOver(b, t, v, Bind(Bind(rho, y, k), x, l));
    var rows := (k: int) => SumOver(b, [x] + t, v, Bind(rho, y, k));
    var cols := (l: int) => SumOver(b, [y] + t, v, Bind(rho, x, l));
    assert ([x] + t)[1..] == t;
    assert ([y] + t)[1..] == t;
    forall k | 0 <= k < y.extent ensures rows(k) == SumInts(seq(x.extent, a(k))) {
      SumOverUnfold(b, [x] + t, v, Bind(rho, y, k), a(k));
    }
    forall l | 0 <= l < x.extent ensures cols(l) == SumInts(seq(y.extent, (k: int) => a(k)(l))) {
      forall k | 0 <= k < y.extent ensures Bind(Bind(rho, x, l), y, k) == Bind(Bind(rho, y, k), x, l) {
      }
      SumOverUnfold(b, [y] + t, v, Bind(rho, x, l), (k: int) => a(k)(l));
    }
    SumIntsSwap(a, y.extent, x.extent, rows, cols);
    assert ([y] + ([x] + t))[1..] == [x] + t;
    assert ([x] + ([y] + t))[1..] == [y] + t;
    SumOverUnfold(b, [y] + ([x] + t), v, rho, rows);
    SumOverUnfold(b, [x] + ([y] + t), v, rho, cols);
  }

  /** An index sum depends only on the set of its indices, when they are
      distinct. */
  lemma {:induction false} SumOverPermutation(b: Expr, s1: seq<Index>, s2: seq<Index>, v: Valuation, rho: Assignment)
    requires NoDup(s1) && NoDup(s2) && AsSet(s1) == AsSet(s2)
    ensures SumOver(b, s1, v, rho) == SumOver(b, s2, v, rho)
    decreases |s2|
  {
    if s2 == [] {
      AsSetEmpty(s1);
    } else {
      var x := s2[0];
      assert x in AsSet(s1);
      var i := FirstIndex(s1, x);
      var r1 := s1[..i] + s1[i + 1..];
      SumOverToFront(b, s1, i, v, rho);
      NoDupCut(s1, i);
      NoDupTail(s2);
      var f := (k: int) => SumOver(b, s2[1..], v, Bind(rho, x, k));
      forall k | 0 <= k < x.extent ensures f(k) == SumOver(b, r1, v, Bind(rho, x, k)) {
        SumOverPermutation(b, r1, s2[1..], v, Bind(rho, x, k));
      }
      assert ([x] + r1)[1..] == r1;
      SumOverUnfold(b, [x] + r1, v, rho, f);
      SumOverUnfold(b, s2, v, rho, f);
    }
  }
}
