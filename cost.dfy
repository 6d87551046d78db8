/** The cost model of the atomic search: `index_extent` of a factor and the
    lexicographic `(count, -sum of extents)` cost of a candidate solution. */
module Cost {
  import opened Seqs
  import opened Gem

  /** Product of the extents of a list of indices (`numpy.prod`, which is
      1 for the empty list). */
  function ProdExtents(xs: seq<Index>): nat
  {
    if xs == [] then 1 else xs[0].extent * ProdExtents(xs[1..])
  }

  /** `index_extent`: product of the extents of those free indices of the
      factor that are argument indices. It vanishes exactly when one of
      those indices has extent 0. */
  function IndexExtent(e: Expr, args: set<Index>): (r: nat)
    ensures r == 0 <==> exists i :: i in FreeIndices(e) && i in args && i.extent == 0
  {
    KeepProperties(FreeIndices(e), args);
    ProdExtentsZero(Keep(FreeIndices(e), args));
    ProdExtents(Keep(FreeIndices(e), args))
  }

  lemma {:induction false} ProdExtentsZero(xs: seq<Index>)
    ensures ProdExtents(xs) == 0 <==> exists i :: i in xs && i.extent == 0
  {
    if xs != [] {
      ProdExtentsZero(xs[1..]);
      assert forall i :: i in xs <==> i == xs[0] || i in xs[1..];
    }
  }

  lemma {:induction false} ProdExtentsOfKeepNone(s: seq<Index>, args: set<Index>)
    requires forall i :: i in s ==> i !in args
    ensures ProdExtents(Keep(s, args)) == 1
  {
    if s != [] {
      assert s[0] in s;
      forall i | i in s[1..] ensures i !in args {
        assert i in s;
      }
      ProdExtentsOfKeepNone(s[1..], args);
    }
  }

  lemma {:induction false} ProdExtentsPositive(s: seq<Index>)
    requires forall i :: i in s ==> i.extent >= 1
    ensures ProdExtents(s) >= 1
  {
    if s != [] {
      assert s[0] in s;
      forall i | i in s[1..] ensures i.extent >= 1 {
        assert i in s;
      }
      ProdExtentsPositive(s[1..]);
      MulAtLeastOne(s[0].extent, ProdExtents(s[1..]));
    }
  }

  lemma MulAtLeastOne(a: nat, b: nat)
    requires a >= 1 && b >= 1
    ensures a * b >= 1
  {
  }

  lemma {:induction false} ProdExtentsKeepSplit(s: seq<Index>, a: set<Index>, b: set<Index>)
    requires a !! b
    ensures ProdExtents(Keep(s, a + b)) == ProdExtents(Keep(s, a)) * ProdExtents(Keep(s, b))
  {
    if s != [] {
      ProdExtentsKeepSplit(s[1..], a, b);
      var x := s[0].extent;
      var pa := ProdExtents(Keep(s[1..], a));
      var pb := ProdExtents(Keep(s[1..], b));
      if s[0] in a {
        assert s[0] !in b;
        assert Keep(s, a + b) == [s[0]] + Keep(s[1..], a + b);
        assert Keep(s, a) == [s[0]] + Keep(s[1..], a);
        assert Keep(s, b) == Keep(s[1..], b);
        MulAssoc(x, pa, pb);
      } else if s[0] in b {
        assert Keep(s, a + b) == [s[0]] + Keep(s[1..], a + b);
        assert Keep(s, a) == Keep(s[1..], a);
        assert Keep(s, b) == [s[0]] + Keep(s[1..], b);
        MulSwap(x, pa, pb);
      } else {
        assert Keep(s, a + b) == Keep(s[1..], a + b);
        assert Keep(s, a) == Keep(s[1..], a);
        assert Keep(s, b) == Keep(s[1..], b);
      }
    }
  }

  /** A factor with no argument index among its free indices has index extent 1. */
  lemma IndexExtentNoArguments(e: Expr, args: set<Index>)
    requires !MeetsIndices(e, args)
    ensures IndexExtent(e, args) == 1
  {
    ProdExtentsOfKeepNone(FreeIndices(e), args);
  }

  /** With positive extents the index extent is positive. */
  lemma IndexExtentPositive(e: Expr, args: set<Index>)
    requires forall i :: i in FreeIndices(e) && i in args ==> i.extent >= 1
    ensures IndexExtent(e, args) >= 1
  {
    KeepProperties(FreeIndices(e), args);
    ProdExtentsPositive(Keep(FreeIndices(e), args));
  }

  /** When every free index is an argument index, the index extent is the
      product of all free extents. */
  lemma IndexExtentAllArguments(e: Expr, args: set<Index>)
    requires forall i :: i in FreeIndices(e) ==> i in args
    ensures IndexExtent(e, args) == ProdExtents(FreeIndices(e))
  {
    KeepAll(FreeIndices(e), args);
  }

  /** The index extent is multiplicative over disjoint sets of argument indices. */
  lemma IndexExtentSplit(e: Expr, a: set<Index>, b: set<Index>)
    requires a !! b
    ensures IndexExtent(e, a + b) == IndexExtent(e, a) * IndexExtent(e, b)
  {
    ProdExtentsKeepSplit(FreeIndices(e), a, b);
  }

  // ---------------------------------------------------------------------
  // Cost of a candidate solution.

  /** Sum of the index extents of the members of `s`, taken over the
      candidate list `u` (every solution is drawn from `u`, which has no
      duplicates). */
  function ExtentSum(u: seq<Expr>, args: set<Index>, s: set<Expr>): nat
  {
    if u == [] then 0
    else (if u[0] in s then IndexExtent(u[0], args) else 0) + ExtentSum(u[1..], args, s)
  }

  /** `sum(map(index_extent, solution))`: the sum over the set itself, in
      no particular order. */
  ghost function SetExtent(s: set<Expr>, args: set<Index>): nat
    decreases |s|
  {
    if s == {} then 0
    else
      var a :| a in s;
      IndexExtent(a, args) + SetExtent(s - {a}, args)
  }

  /** Summing over the candidate list restricted to the set is summing over
      the set. */
  lemma {:induction false} ExtentSumIsSetSum(u: seq<Expr>, args: set<Index>, s: set<Expr>)
    ensures NoDup(u) && s <= AsSet(u) ==> ExtentSum(u, args, s) == SetExtent(s, args)
    decreases |s|
  {
    if NoDup(u) && s <= AsSet(u) {
      if s == {} {
        ExtentSumEmpty(u, args);
      } else {
        var a :| a in s && SetExtent(s, args) == IndexExtent(a, args) + SetExtent(s - {a}, args);
        ExtentSumIsSetSum(u, args, s - {a});
        ExtentSumAdd(u, args, s - {a}, a);
        assert (s - {a}) + {a} == s;
      }
    }
  }

  /** `cost(solution) = (len(solution), -extent)`. */
  datatype CostPair = CostPair(count: nat, negExtent: int)

  /** With the solution drawn from the duplicate-free candidates `u`, this
      is the source's `(len(solution), -sum of index_extent over solution)`. */
  function CostOf(u: seq<Expr>, args: set<Index>, s: set<Expr>): (r: CostPair)
    ensures NoDup(u) && s <= AsSet(u) ==> r == CostPair(|s|, -(SetExtent(s, args) as int))
  {
    ExtentSumIsSetSum(u, args, s);
    CostPair(|s|, -(ExtentSum(u, args, s) as int))
  }

  /** Python's tuple `<`. */
  predicate Less(c: CostPair, d: CostPair)
  {
    c.count < d.count || (c.count == d.count && c.negExtent < d.negExtent)
  }

  /** `cost(s) < cost(t)`. */
  predicate CostLess(u: seq<Expr>, args: set<Index>, s: set<Expr>, t: set<Expr>)
  {
    Less(CostOf(u, args, s), CostOf(u, args, t))
  }

  /** `cost(s) <= cost(t)`. */
  predicate CostLeq(u: seq<Expr>, args: set<Index>, s: set<Expr>, t: set<Expr>)
  {
    !CostLess(u, args, t, s)
  }

  /** The cost order is a strict order in which incomparable means equal cost. */
  lemma LessIsStrictTotal(c: CostPair, d: CostPair, e: CostPair)
    ensures !Less(c, c)
    ensures Less(c, d) && Less(d, e) ==> Less(c, e)
    ensures !Less(c, d) && !Less(d, c) ==> c == d
  {
  }

  /** A strictly smaller solution is strictly cheaper, whatever its extents. */
  lemma SmallerIsCheaper(u: seq<Expr>, args: set<Index>, s: set<Expr>, t: set<Expr>)
    requires |s| < |t|
    ensures CostLess(u, args, s, t)
  {
  }

  /** Adding a candidate not yet in the solution adds its index extent. */
  lemma {:induction false} ExtentSumAdd(u: seq<Expr>, args: set<Index>, s: set<Expr>, a: Expr)
    requires NoDup(u) && a in u && a !in s
    ensures ExtentSum(u, args, s + {a}) == ExtentSum(u, args, s) + IndexExtent(a, args)
  {
    if u[0] == a {
      assert a !in u[1..] by {
        forall j | 0 <= j < |u[1..]| ensures u[1..][j] != a {
          assert u[1..][j] == u[j + 1];
        }
      }
      ExtentSumNotIn(u[1..], args, s, a);
    } else {
      assert a in u[1..] by {
        var j :| 0 <= j < |u| && u[j] == a;
        assert u[1..][j - 1] == a;
      }
      assert NoDup(u[1..]) by {
        forall i, j | 0 <= i < j < |u[1..]| ensures u[1..][i] != u[1..][j] {
          assert u[1..][i] == u[i + 1] && u[1..][j] == u[j + 1];
        }
      }
      ExtentSumAdd(u[1..], args, s, a);
    }
  }

  lemma {:induction false} ExtentSumNotIn(u: seq<Expr>, args: set<Index>, s: set<Expr>, a: Expr)
    requires a !in u
    ensures ExtentSum(u, args, s + {a}) == ExtentSum(u, args, s)
  {
    if u != [] {
      assert u[0] != a;
      assert a !in u[1..] by {
        forall j | 0 <= j < |u[1..]| ensures u[1..][j] != a {
          assert u[1..][j] == u[j + 1];
        }
      }
      ExtentSumNotIn(u[1..], args, s, a);
    }
  }

  lemma {:induction false} ExtentSumEmpty(u: seq<Expr>, args: set<Index>)
    ensures ExtentSum(u, args, {}) == 0
  {
    if u != [] {
      ExtentSumEmpty(u[1..], args);
    }
  }
}
