/** `find_optimal_atomics` as the source writes it: two mutable sets updated
    by backtracking, a `while` loop that skips hit monomials, a `for` loop
    over the atomics of the first unhit one, and an iteration counter whose
    exhaustion aborts the whole recursion. */
module SearchImpl {
  import opened Seqs
  import opened Gem
  import opened Cost
  import opened Search

  class AtomicSearch {
    const monomials: seq<Monomial>
    /** The distinct atomics, in first-seen order. */
    const atomics: seq<Expr>
    const argumentIndices: set<Index>
    var solution: set<Expr>
    /** `optimal_solution`. */
    var optimal: set<Expr>
    /** Steps left on the iteration counter. */
    var budget: nat
    /** `StopIteration` has been raised. */
    var stopped: bool

    function State(): SearchState
      reads this
    {
      SearchState(solution, optimal, budget, stopped)
    }

    /** Empty partial solution; every atomic as the initial best. */
    constructor(ms: seq<Monomial>, u: seq<Expr>, args: set<Index>, maxIt: nat)
      ensures monomials == ms && atomics == u && argumentIndices == args
      ensures State() == SearchState({}, AsSet(u), maxIt, false)
    {
      monomials := ms;
      atomics := u;
      argumentIndices := args;
      solution := {};
      optimal := AsSet(u);
      budget := maxIt;
      stopped := false;
    }

    /** `solve(idx)`: returns normally, or with `stopped` set when the
        counter ran out. */
    method Solve(idx0: nat)
      requires idx0 <= |monomials| && !stopped
      modifies this
      ensures State() == Search.Solve(monomials, atomics, argumentIndices, idx0, old(State()))
      decreases |monomials| - idx0, 1
    {
      var idx := idx0;
      while idx < |monomials| && solution * AsSet(monomials[idx].atomics) != {}
        invariant idx0 <= idx <= |monomials|
        invariant State() == old(State())
        invariant Skip(monomials, solution, idx) == Skip(monomials, solution, idx0)
        decreases |monomials| - idx
      {
        HitsIntersection(solution, monomials[idx]);
        idx := idx + 1;
      }
      if idx < |monomials| {
        HitsIntersection(solution, monomials[idx]);
        if |solution| < |optimal| {
          TryAtomics(idx, monomials[idx].atomics);
        }
      } else {
        Complete();
      }
    }

    /** The `for` loop of `solve(idx)` over the atomics `cands` of the first
        monomial the partial solution misses. */
    method TryAtomics(idx: nat, cands: seq<Expr>)
      requires idx < |monomials| && !stopped
      modifies this
      ensures State() == Branch(monomials, atomics, argumentIndices, idx, cands, old(State()))
      decreases |monomials| - idx, 0
    {
      for k := 0 to |cands|
        invariant !stopped
        invariant Branch(monomials, atomics, argumentIndices, idx, cands[k..], State())
               == Branch(monomials, atomics, argumentIndices, idx, cands, old(State()))
      {
        var a := cands[k];
        assert cands[k..][0] == a && cands[k..][1..] == cands[k + 1..];
        solution := solution + {a};
        Solve(idx + 1);
        if stopped {
          return;
        }
        solution := solution - {a};
      }
    }

    /** The complete-solution branch of `solve`: keep the solution if it is
        strictly cheaper, then `next(it)`. */
    method Complete()
      requires !stopped
      modifies this
      ensures State() == Search.Leaf(atomics, argumentIndices, old(State()))
    {
      if CostLess(atomics, argumentIndices, solution, optimal) {
        optimal := solution;
      }
      if budget == 0 {
        stopped := true;
        return;
      }
      budget := budget - 1;
    }
  }

  /** `find_optimal_atomics(monomials, argument_indices)`. */
  method FindOptimalAtomics(ms: seq<Monomial>, args: set<Index>) returns (r: SearchResult)
    ensures r == OptimalAtomics(ms, args)
    ensures NoDup(r.atomics) && Subsequence(r.atomics, Candidates(ms))
    ensures (forall i :: 0 <= i < |ms| ==> ms[i].atomics != []) ==>
      forall i :: 0 <= i < |ms| ==> exists a :: a in ms[i].atomics && a in r.atomics
    ensures !r.exhausted ==> forall h :: HitsAll(h, ms) ==> CostLeq(Candidates(ms), args, AsSet(r.atomics), h)
  {
    var u := Candidates(ms);
    var search := new AtomicSearch(ms, u, args, MaxIterations);
    search.Solve(0);
    r := SearchResult(Keep(u, search.optimal), search.stopped);
    OptimalAtomicsOrdered(ms, args, MaxIterations);
    if forall i :: 0 <= i < |ms| ==> ms[i].atomics != [] {
      OptimalAtomicsHitting(ms, args, MaxIterations);
    }
    if !r.exhausted {
      forall h | HitsAll(h, ms) ensures CostLeq(Candidates(ms), args, AsSet(r.atomics), h) {
        OptimalAtomicsMinimal(ms, args, MaxIterations, h);
      }
    }
  }
}
