/** `find_optimal_atomics` as a specification: the backtracking
    branch-and-bound search for a cheapest set of atomics that hits every
    monomial, written as functions over an explicit search state, and the
    facts about it: validity of the result, optimality when the search runs
    to completion, the effect of the 4096-step budget and the no-solution
    case. */
module Search {
  import opened Seqs
  import opened Gem
  import opened Cost

  /** `max_it = 1 << 12`. */
  const MaxIterations: nat := 4096

  /** The mutable state of the search: the partial `solution`, the best
      complete solution so far (`optimal_solution`), the steps left on the
      iteration counter, and whether `StopIteration` has been raised. */
  datatype SearchState = SearchState(solution: set<Expr>, best: set<Expr>, budget: nat, stopped: bool)

  /** The returned atomics, and whether the budget ran out (the case the
      source reports with a warning). */
  datatype SearchResult = SearchResult(atomics: seq<Expr>, exhausted: bool)

  function AtomicsOf(ms: seq<Monomial>): (r: seq<seq<Expr>>)
    ensures |r| == |ms| && forall i :: 0 <= i < |ms| ==> r[i] == ms[i].atomics
  {
    seq(|ms|, i requires 0 <= i < |ms| => ms[i].atomics)
  }

  /** The distinct atomics of all monomials in first-seen order. */
  function Candidates(ms: seq<Monomial>): seq<Expr>
  {
    Dedup(Concat(AtomicsOf(ms)))
  }

  /** `solution.intersection(monomial.atomics)` is non-empty. */
  predicate Hits(sol: set<Expr>, m: Monomial)
  {
    exists a :: a in m.atomics && a in sol
  }

  /** `Hits` is the source's test `solution.intersection(monomial.atomics)`. */
  lemma HitsIntersection(sol: set<Expr>, m: Monomial)
    ensures Hits(sol, m) <==> sol * AsSet(m.atomics) != {}
  {
    if Hits(sol, m) {
      var a :| a in m.atomics && a in sol;
      assert a in sol * AsSet(m.atomics);
    }
    if sol * AsSet(m.atomics) != {} {
      var a :| a in sol * AsSet(m.atomics);
      assert a in m.atomics && a in sol;
    }
  }

  predicate HitsAll(sol: set<Expr>, ms: seq<Monomial>)
  {
    forall i :: 0 <= i < |ms| ==> Hits(sol, ms[i])
  }

  predicate HitsBefore(sol: set<Expr>, ms: seq<Monomial>, n: nat)
    requires n <= |ms|
  {
    forall i :: 0 <= i < n ==> Hits(sol, ms[i])
  }

  /** Every atomic of every monomial is a candidate. */
  predicate Within(ms: seq<Monomial>, u: seq<Expr>)
  {
    forall i, a :: 0 <= i < |ms| && a in ms[i].atomics ==> a in u
  }

  /** The `while` loop of `solve`: skip the monomials the partial solution
      already hits. */
  function Skip(ms: seq<Monomial>, sol: set<Expr>, idx: nat): (j: nat)
    requires idx <= |ms|
    ensures idx <= j <= |ms|
    ensures forall k :: idx <= k < j ==> Hits(sol, ms[k])
    ensures j < |ms| ==> !Hits(sol, ms[j])
    decreases |ms| - idx
  {
    if idx < |ms| && Hits(sol, ms[idx]) then Skip(ms, sol, idx + 1) else idx
  }

  /** `solve(idx)`. */
  function Solve(ms: seq<Monomial>, u: seq<Expr>, args: set<Index>, idx: nat, st: SearchState): (r: SearchState)
    requires idx <= |ms| && !st.stopped
    ensures r.budget <= st.budget && (r.stopped ==> r.budget == 0)
    decreases |ms| - idx + 1, 0
  {
    var j := Skip(ms, st.solution, idx);
    if j == |ms| then Leaf(u, args, st)
    else if |st.solution| < |st.best| then Branch(ms, u, args, j, ms[j].atomics, st)
    else st
  }

  /** The `for` loop of `solve` over the remaining atomics `cands` of
      monomial `j`: add one, recurse, take it out again; `StopIteration`
      propagates out of the loop. */
  function Branch(ms: seq<Monomial>, u: seq<Expr>, args: set<Index>, j: nat, cands: seq<Expr>, st: SearchState): (r: SearchState)
    requires j < |ms| && !st.stopped
    ensures r.budget <= st.budget && (r.stopped ==> r.budget == 0)
    decreases |ms| - j, |cands|
  {
    if cands == [] then st
    else
      var a := cands[0];
      var child := Solve(ms, u, args, j + 1, st.(solution := st.solution + {a}));
      if child.stopped then child
      else Branch(ms, u, args, j, cands[1..], child.(solution := child.solution - {a}))
  }

  /** A complete solution: keep it if strictly cheaper, then advance the
      counter, stopping when it is spent. */
  function Leaf(u: seq<Expr>, args: set<Index>, st: SearchState): (r: SearchState)
    ensures r.solution == st.solution
    ensures r.best == st.best || r.best == st.solution
    ensures r.best != st.best ==> CostLess(u, args, st.solution, st.best)
    ensures CostLeq(u, args, r.best, st.best) && CostLeq(u, args, r.best, st.solution)
    ensures r.stopped <==> st.budget == 0
    ensures !r.stopped ==> r.budget == st.budget - 1
  {
    var best := if CostLess(u, args, st.solution, st.best) then st.solution else st.best;
    if st.budget == 0 then SearchState(st.solution, best, 0, true)
    else SearchState(st.solution, best, st.budget - 1, false)
  }

  /** The state `solve(0)` starts from: empty solution, all atomics as the
      pessimal feasible solution. */
  function Start(ms: seq<Monomial>, budget: nat): SearchState
  {
    SearchState({}, AsSet(Candidates(ms)), budget, false)
  }

  function Run(ms: seq<Monomial>, args: set<Index>, budget: nat): SearchState
  {
    Solve(ms, Candidates(ms), args, 0, Start(ms, budget))
  }

  /** The search with a given budget; the result lists the chosen atomics in
      first-seen order. */
  function OptimalAtomicsWithin(ms: seq<Monomial>, args: set<Index>, budget: nat): SearchResult
  {
    var st := Run(ms, args, budget);
    SearchResult(Keep(Candidates(ms), st.best), st.stopped)
  }

  /** `find_optimal_atomics`. */
  function OptimalAtomics(ms: seq<Monomial>, args: set<Index>): SearchResult
  {
    OptimalAtomicsWithin(ms, args, MaxIterations)
  }

  // ---------------------------------------------------------------------
  // Basic facts.

  lemma CandidatesMembers(ms: seq<Monomial>)
    ensures NoDup(Candidates(ms))
    ensures Within(ms, Candidates(ms))
    ensures forall a :: a in Candidates(ms) ==> exists i :: 0 <= i < |ms| && a in ms[i].atomics
  {
    var ss := AtomicsOf(ms);
    ConcatMembers(ss);
    DedupMembers(Concat(ss));
    forall i, a | 0 <= i < |ms| && a in ms[i].atomics ensures a in Candidates(ms) {
      assert a in ss[i];
    }
    forall a | a in Candidates(ms) ensures exists i :: 0 <= i < |ms| && a in ms[i].atomics {
      var i :| 0 <= i < |ss| && a in ss[i];
    }
  }

  /** The candidates come in the order in which they first occur among the
      monomials' atomics (`OrderedDict.fromkeys`). */
  lemma CandidatesOrder(ms: seq<Monomial>)
    ensures forall a :: a in Candidates(ms) ==> a in Concat(AtomicsOf(ms))
    ensures forall i, j :: 0 <= i < j < |Candidates(ms)| ==>
      FirstIndex(Concat(AtomicsOf(ms)), Candidates(ms)[i]) < FirstIndex(Concat(AtomicsOf(ms)), Candidates(ms)[j])
  {
    DedupFirstSeen(Concat(AtomicsOf(ms)));
  }

  lemma HitsMonotone(sol: set<Expr>, sol': set<Expr>, ms: seq<Monomial>, n: nat)
    requires n <= |ms| && sol <= sol' && HitsBefore(sol, ms, n)
    ensures HitsBefore(sol', ms, n)
  {
    forall i | 0 <= i < n ensures Hits(sol', ms[i]) {
      var a :| a in ms[i].atomics && a in sol;
    }
  }

  lemma ProperSubsetSmaller(s: set<Expr>, t: set<Expr>, a: Expr)
    requires s <= t && a in t && a !in s
    ensures |s| < |t|
  {
    var d := t - s;
    assert a in d;
    assert t == s + d;
    assert s !! d;
  }

  /** The best solution either stays, or is replaced by a strictly cheaper
      hitting set of candidates. */
  predicate Improves(ms: seq<Monomial>, u: seq<Expr>, args: set<Index>, old_best: set<Expr>, new_best: set<Expr>)
  {
    new_best == old_best || (CostLess(u, args, new_best, old_best) && HitsAll(new_best, ms) && new_best <= AsSet(u))
  }

  lemma ImprovesTransitive(ms: seq<Monomial>, u: seq<Expr>, args: set<Index>, b0: set<Expr>, b1: set<Expr>, b2: set<Expr>)
    requires Improves(ms, u, args, b0, b1) && Improves(ms, u, args, b1, b2)
    ensures Improves(ms, u, args, b0, b2)
  {
    LessIsStrictTotal(CostOf(u, args, b2), CostOf(u, args, b1), CostOf(u, args, b0));
  }

  /** What one call of `solve` or of its loop does to the state. */
  predicate Progress(ms: seq<Monomial>, u: seq<Expr>, args: set<Index>, st: SearchState, r: SearchState)
  {
    && r.budget <= st.budget
    && (r.stopped ==> r.budget == 0)
    && (!r.stopped ==> r.solution == st.solution)
    && Improves(ms, u, args, st.best, r.best)
  }

  lemma {:induction false} SolveFrame(ms: seq<Monomial>, u: seq<Expr>, args: set<Index>, idx: nat, st: SearchState)
    requires idx <= |ms| && !st.stopped
    requires Within(ms, u) && st.solution <= AsSet(u) && HitsBefore(st.solution, ms, idx)
    ensures Progress(ms, u, args, st, Solve(ms, u, args, idx, st))
    decreases |ms| - idx + 1, 0
  {
    var j := Skip(ms, st.solution, idx);
    if j == |ms| {
      assert HitsAll(st.solution, ms) by {
        forall i | 0 <= i < |ms| ensures Hits(st.solution, ms[i]) {
          if i >= idx {
            assert idx <= i < j;
          }
        }
      }
    } else if |st.solution| < |st.best| {
      BranchFrame(ms, u, args, j, ms[j].atomics, st);
    }
  }

  lemma {:induction false} BranchFrame(ms: seq<Monomial>, u: seq<Expr>, args: set<Index>, j: nat, cands: seq<Expr>, st: SearchState)
    requires j < |ms| && !st.stopped
    requires Within(ms, u) && st.solution <= AsSet(u)
    requires HitsBefore(st.solution, ms, j) && !Hits(st.solution, ms[j])
    requires forall a :: a in cands ==> a in ms[j].atomics
    ensures Progress(ms, u, args, st, Branch(ms, u, args, j, cands, st))
    decreases |ms| - j, |cands|
  {
    if cands != [] {
      var a := cands[0];
      assert a in cands;
      assert a !in st.solution;
      var s1 := st.(solution := st.solution + {a});
      HitsMonotone(st.solution, s1.solution, ms, j);
      SolveFrame(ms, u, args, j + 1, s1);
      var child := Solve(ms, u, args, j + 1, s1);
      if !child.stopped {
        var s2 := child.(solution := child.solution - {a});
        assert s2.solution == st.solution;
        forall x | x in cands[1..] ensures x in ms[j].atomics {
          assert x in cands;
        }
        BranchFrame(ms, u, args, j, cands[1..], s2);
        ImprovesTransitive(ms, u, args, st.best, child.best, Branch(ms, u, args, j, cands[1..], s2).best);
      }
    }
  }

  // ---------------------------------------------------------------------
  // Optimality of a search that was not interrupted.

  lemma {:induction false} SolveOptimal(ms: seq<Monomial>, u: seq<Expr>, args: set<Index>, idx: nat, st: SearchState, h: set<Expr>)
    requires idx <= |ms| && !st.stopped
    requires Within(ms, u) && st.solution <= AsSet(u) && HitsBefore(st.solution, ms, idx)
    requires st.solution <= h && HitsAll(h, ms)
    ensures !Solve(ms, u, args, idx, st).stopped ==> CostLeq(u, args, Solve(ms, u, args, idx, st).best, h)
    decreases |ms| - idx + 1, 0
  {
    var j := Skip(ms, st.solution, idx);
    if j == |ms| {
      if h != st.solution {
        var a :| a in h && a !in st.solution;
        ProperSubsetSmaller(st.solution, h, a);
        SmallerIsCheaper(u, args, st.solution, h);
      }
    } else {
      assert Hits(h, ms[j]);
      var a :| a in ms[j].atomics && a in h;
      assert a !in st.solution;
      ProperSubsetSmaller(st.solution, h, a);
      if |st.solution| < |st.best| {
        BranchOptimal(ms, u, args, j, ms[j].atomics, st, h);
      }
    }
  }

  lemma {:induction false} BranchOptimal(ms: seq<Monomial>, u: seq<Expr>, args: set<Index>, j: nat, cands: seq<Expr>, st: SearchState, h: set<Expr>)
    requires j < |ms| && !st.stopped
    requires Within(ms, u) && st.solution <= AsSet(u)
    requires HitsBefore(st.solution, ms, j) && !Hits(st.solution, ms[j])
    requires forall a :: a in cands ==> a in ms[j].atomics
    requires st.solution <= h && HitsAll(h, ms)
    requires exists a :: a in cands && a in h
    ensures !Branch(ms, u, args, j, cands, st).stopped ==> CostLeq(u, args, Branch(ms, u, args, j, cands, st).best, h)
    decreases |ms| - j, |cands|
  {
    var a := cands[0];
    assert a in cands;
    assert a !in st.solution;
    var s1 := st.(solution := st.solution + {a});
    HitsMonotone(st.solution, s1.solution, ms, j);
    SolveFrame(ms, u, args, j + 1, s1);
    var child := Solve(ms, u, args, j + 1, s1);
    if !child.stopped {
      var s2 := child.(solution := child.solution - {a});
      assert s2.solution == st.solution;
      forall x | x in cands[1..] ensures x in ms[j].atomics {
        assert x in cands;
      }
      var r := Branch(ms, u, args, j, cands[1..], s2);
      if a in h {
        SolveOptimal(ms, u, args, j + 1, s1, h);
        BranchFrame(ms, u, args, j, cands[1..], s2);
        if !r.stopped {
          LessIsStrictTotal(CostOf(u, args, r.best), CostOf(u, args, child.best), CostOf(u, args, h));
          LessIsStrictTotal(CostOf(u, args, h), CostOf(u, args, r.best), CostOf(u, args, child.best));
        }
      } else {
        var b :| b in cands && b in h;
        assert b in cands[1..];
        BranchOptimal(ms, u, args, j, cands[1..], s2, h);
      }
    }
  }

  // ---------------------------------------------------------------------
  // The budget only truncates the search.

  lemma {:induction false} SolveBudget(ms: seq<Monomial>, u: seq<Expr>, args: set<Index>, idx: nat, st: SearchState, d: nat)
    requires idx <= |ms| && !st.stopped
    ensures var r := Solve(ms, u, args, idx, st);
      !r.stopped ==> Solve(ms, u, args, idx, st.(budget := st.budget + d)) == r.(budget := r.budget + d)
    decreases |ms| - idx + 1, 0
  {
    var j := Skip(ms, st.solution, idx);
    if j < |ms| && |st.solution| < |st.best| {
      BranchBudget(ms, u, args, j, ms[j].atomics, st, d);
    }
  }

  lemma {:induction false} BranchBudget(ms: seq<Monomial>, u: seq<Expr>, args: set<Index>, j: nat, cands: seq<Expr>, st: SearchState, d: nat)
    requires j < |ms| && !st.stopped
    ensures var r := Branch(ms, u, args, j, cands, st);
      !r.stopped ==> Branch(ms, u, args, j, cands, st.(budget := st.budget + d)) == r.(budget := r.budget + d)
    decreases |ms| - j, |cands|
  {
    if cands != [] {
      var a := cands[0];
      var s1 := st.(solution := st.solution + {a});
      SolveBudget(ms, u, args, j + 1, s1, d);
      var child := Solve(ms, u, args, j + 1, s1);
      if !child.stopped {
        var s2 := child.(solution := child.solution - {a});
        assert st.(budget := st.budget + d).(solution := st.solution + {a}) == s1.(budget := s1.budget + d);
        BranchBudget(ms, u, args, j, cands[1..], s2, d);
      }
    }
  }

  // ---------------------------------------------------------------------
  // A monomial without atomics: no complete solution exists.

  lemma {:induction false} SolveNoLeaf(ms: seq<Monomial>, u: seq<Expr>, args: set<Index>, idx: nat, st: SearchState, k: nat)
    requires idx <= k < |ms| && ms[k].atomics == [] && !st.stopped
    ensures Solve(ms, u, args, idx, st) == st
    decreases |ms| - idx + 1, 0
  {
    assert !Hits(st.solution, ms[k]);
    var j := Skip(ms, st.solution, idx);
    if j < |ms| && |st.solution| < |st.best| {
      BranchNoLeaf(ms, u, args, j, ms[j].atomics, st, k);
    }
  }

  lemma {:induction false} BranchNoLeaf(ms: seq<Monomial>, u: seq<Expr>, args: set<Index>, j: nat, cands: seq<Expr>, st: SearchState, k: nat)
    requires j <= k < |ms| && ms[k].atomics == [] && !st.stopped
    requires !Hits(st.solution, ms[j]) && forall a :: a in cands ==> a in ms[j].atomics
    ensures Branch(ms, u, args, j, cands, st) == st
    decreases |ms| - j, |cands|
  {
    if cands != [] {
      var a := cands[0];
      assert a in cands;
      assert j < k;
      var s1 := st.(solution := st.solution + {a});
      SolveNoLeaf(ms, u, args, j + 1, s1, k);
      assert s1.(solution := s1.solution - {a}) == st;
      forall x | x in cands[1..] ensures x in ms[j].atomics {
        assert x in cands;
      }
      BranchNoLeaf(ms, u, args, j, cands[1..], st, k);
    }
  }

  // ---------------------------------------------------------------------
  // The result of `find_optimal_atomics`.

  lemma RunProgress(ms: seq<Monomial>, args: set<Index>, budget: nat)
    ensures Progress(ms, Candidates(ms), args, Start(ms, budget), Run(ms, args, budget))
    ensures Run(ms, args, budget).best <= AsSet(Candidates(ms))
  {
    CandidatesMembers(ms);
    SolveFrame(ms, Candidates(ms), args, 0, Start(ms, budget));
  }

  lemma ResultIsBest(ms: seq<Monomial>, args: set<Index>, budget: nat)
    ensures AsSet(OptimalAtomicsWithin(ms, args, budget).atomics) == Run(ms, args, budget).best
  {
    RunProgress(ms, args, budget);
    KeepProperties(Candidates(ms), Run(ms, args, budget).best);
  }

  /** The atomics returned are distinct and appear in first-seen order. */
  lemma OptimalAtomicsOrdered(ms: seq<Monomial>, args: set<Index>, budget: nat)
    ensures NoDup(OptimalAtomicsWithin(ms, args, budget).atomics)
    ensures Subsequence(OptimalAtomicsWithin(ms, args, budget).atomics, Candidates(ms))
  {
    CandidatesMembers(ms);
    KeepProperties(Candidates(ms), Run(ms, args, budget).best);
  }

  /** When every monomial has an atomic, the result hits every monomial,
      whether or not the budget ran out. */
  lemma OptimalAtomicsHitting(ms: seq<Monomial>, args: set<Index>, budget: nat)
    requires forall i :: 0 <= i < |ms| ==> ms[i].atomics != []
    ensures forall i :: 0 <= i < |ms| ==> exists a :: a in ms[i].atomics && a in OptimalAtomicsWithin(ms, args, budget).atomics
  {
    RunProgress(ms, args, budget);
    ResultIsBest(ms, args, budget);
    CandidatesMembers(ms);
    var r := OptimalAtomicsWithin(ms, args, budget);
    var best := Run(ms, args, budget).best;
    forall i | 0 <= i < |ms| ensures exists a :: a in ms[i].atomics && a in r.atomics {
      if best == AsSet(Candidates(ms)) {
        var a := ms[i].atomics[0];
        assert a in ms[i].atomics;
        assert a in best;
      } else {
        assert Hits(best, ms[i]);
        var a :| a in ms[i].atomics && a in best;
      }
    }
  }

  /** A search that was not interrupted returns a hitting set of least cost:
      no hitting set of candidate atomics has fewer atomics, or as many
      atomics and a larger sum of index extents. */
  lemma OptimalAtomicsMinimal(ms: seq<Monomial>, args: set<Index>, budget: nat, h: set<Expr>)
    requires !OptimalAtomicsWithin(ms, args, budget).exhausted
    requires HitsAll(h, ms)
    ensures CostLeq(Candidates(ms), args, AsSet(OptimalAtomicsWithin(ms, args, budget).atomics), h)
  {
    ResultIsBest(ms, args, budget);
    CandidatesMembers(ms);
    SolveOptimal(ms, Candidates(ms), args, 0, Start(ms, budget), h);
  }

  /** The result is all candidates, or a strictly cheaper hitting set: a
      solution of equal cost never replaces one found earlier. */
  lemma OptimalAtomicsImprovesOnAll(ms: seq<Monomial>, args: set<Index>, budget: nat)
    ensures var r := AsSet(OptimalAtomicsWithin(ms, args, budget).atomics);
      r == AsSet(Candidates(ms)) || (CostLess(Candidates(ms), args, r, AsSet(Candidates(ms))) && HitsAll(r, ms))
  {
    RunProgress(ms, args, budget);
    ResultIsBest(ms, args, budget);
  }

  /** A larger budget does not change the result of a search that finished
      within the smaller one. */
  lemma OptimalAtomicsBudget(ms: seq<Monomial>, args: set<Index>, budget: nat, budget': nat)
    requires budget <= budget' && !OptimalAtomicsWithin(ms, args, budget).exhausted
    ensures OptimalAtomicsWithin(ms, args, budget') == OptimalAtomicsWithin(ms, args, budget)
  {
    SolveBudget(ms, Candidates(ms), args, 0, Start(ms, budget), budget' - budget);
    assert Start(ms, budget).(budget := budget + (budget' - budget)) == Start(ms, budget');
  }

  /** If some monomial has no atomics, no complete solution exists and the
      search returns every candidate without spending its budget. */
  lemma OptimalAtomicsNoSolution(ms: seq<Monomial>, args: set<Index>, budget: nat, k: nat)
    requires k < |ms| && ms[k].atomics == []
    ensures OptimalAtomicsWithin(ms, args, budget) == SearchResult(Candidates(ms), false)
  {
    SolveNoLeaf(ms, Candidates(ms), args, 0, Start(ms, budget), k);
    KeepAll(Candidates(ms), AsSet(Candidates(ms)));
  }
}
