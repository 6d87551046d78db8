/** When the factorisation succeeds and how it fails: if every monomial of
    a sum carries the same number of atomics (an assumption of these lemmas,
    not something the code checks), the sum is always factorised; a monomial
    without atomics among monomials with atomics trips the `group_key`
    assertion. */
module Outcome {
  import opened Wrappers
  import opened Seqs
  import opened Groups
  import opened Gem
  import opened Search
  import opened Factorise

  /** Every monomial has exactly `n` atomics. */
  predicate Arity(ms: seq<Monomial>, n: nat)
  {
    forall i :: 0 <= i < |ms| ==> |ms[i].atomics| == n
  }

  /** All monomials have the same number of atomics. */
  predicate UniformArity(ms: seq<Monomial>)
  {
    forall i, j :: 0 <= i < |ms| && 0 <= j < |ms| ==> |ms[i].atomics| == |ms[j].atomics|
  }

  /** Monomials without atomics offer no candidates, so the search returns none. */
  lemma NoAtomicsNoCandidates(ms: seq<Monomial>, args: set<Index>)
    requires Arity(ms, 0)
    ensures Candidates(ms) == []
    ensures OptimalAtomics(ms, args).atomics == []
  {
    CandidatesMembers(ms);
    NoMembersEmpty(Candidates(ms));
  }

  /** A search result that hits every monomial gives each one a group key. */
  lemma HittingCovers(ms: seq<Monomial>, oas: seq<Expr>)
    requires forall i :: 0 <= i < |ms| ==> exists a :: a in ms[i].atomics && a in oas
    ensures CoverKeys(ms, oas).Ok?
  {
    forall i | 0 <= i < |ms| ensures FirstCovering(oas, ms[i]).Some? {
      var a :| a in ms[i].atomics && a in oas;
    }
  }

  /** When `factorise_atomics` regroups, it returns one monomial per group,
      in the order the group keys are first seen; each keeps the sum indices
      and starts with its group's key, which is one of the chosen atomics. */
  lemma FactoriseAtomicsShape(ms: seq<Monomial>, oas: seq<Expr>, args: set<Index>)
    requires oas != [] && |ms| > 1 && FactoriseAtomics(ms, oas, args).Ok?
    ensures CoverKeys(ms, oas).Ok?
    ensures var keys := Dedup(CoverKeys(ms, oas).value);
            var r := FactoriseAtomics(ms, oas, args).value;
            NoDup(keys) && |r| == |keys| &&
            forall i :: 0 <= i < |r| ==>
              r[i].sumIndices == ms[0].sumIndices && r[i].atomics[0] == keys[i] && keys[i] in oas
  {
    var ks := CoverKeys(ms, oas).value;
    CoverGroupsOk(ms, oas, ks);
    DedupMembers(ks);
    assert FactoriseAtomics(ms, oas, args) == FactoriseGroups(GroupBy(ms, ks), ms[0].sumIndices, args);
    forall k | k in ks ensures k in oas {
      var j :| 0 <= j < |ks| && ks[j] == k;
      assert FirstCovering(oas, ms[j]) == Some(k);
    }
  }

  /** A group of one monomial is rebuilt as that monomial with its key moved
      to the front: same atomics as a multiset, same `rest`. */
  lemma SingletonGroup(g: Group<Expr, Monomial>, si: seq<Index>, args: set<Index>)
    requires GroupOk(g) && |g.members| == 1
    ensures FactoriseGroup(g, si, args).Ok?
    ensures var m := FactoriseGroup(g, si, args).value;
            m.sumIndices == si && m.rest == g.members[0].rest && m.atomics[0] == g.key &&
            multiset(m.atomics) == multiset(g.members[0].atomics)
  {
    var sub := StripAll(g.members, g.key);
    assert SameSumIndices(sub);
    assert OptimiseMonomials(sub, args) == Ok(sub);
    var s0 := sub[0];
    assert multiset([g.key] + s0.atomics) == multiset{g.key} + multiset(s0.atomics);
  }

  /** `optimise_monomials` succeeds on monomials with one sum-index set and
      `n` atomics each. */
  lemma {:induction false} OkOptimiseMonomials(ms: seq<Monomial>, args: set<Index>, n: nat)
    requires SameSumIndices(ms) && Arity(ms, n)
    ensures OptimiseMonomials(ms, args).Ok?
    decreases n, 1, 0
  {
    var oas := OptimalAtomics(ms, args).atomics;
    if n == 0 {
      NoAtomicsNoCandidates(ms, args);
    } else if |ms| > 1 {
      OptimalAtomicsHitting(ms, args, MaxIterations);
      HittingCovers(ms, oas);
      var ks := CoverKeys(ms, oas).value;
      CoverGroupsOk(ms, oas, ks);
      GroupByMembers(ms, ks);
      var gs := GroupBy(ms, ks);
      forall i, m | 0 <= i < |gs| && m in gs[i].members ensures |m.atomics| == n {
        var j :| 0 <= j < |ms| && ms[j] == m && ks[j] == gs[i].key;
      }
      OkFactoriseGroups(gs, ms[0].sumIndices, args, n);
    }
  }

  /** The groups of `factorise_atomics` each lose one atomic per member, so
      their sub-monomials have `n - 1` atomics each and no sum indices. */
  lemma {:induction false} OkFactoriseGroups(gs: seq<Group<Expr, Monomial>>, si: seq<Index>, args: set<Index>, n: nat)
    requires n > 0
    requires forall i :: 0 <= i < |gs| ==> GroupOk(gs[i])
    requires forall i, m :: 0 <= i < |gs| && m in gs[i].members ==> |m.atomics| == n
    ensures FactoriseGroups(gs, si, args).Ok?
    decreases n, 0, |gs|
  {
    if gs != [] {
      var g := gs[0];
      var sub := StripAll(g.members, g.key);
      forall i | 0 <= i < |sub| ensures |sub[i].atomics| == n - 1 {
        assert g.members[i] in g.members;
        assert |multiset(sub[i].atomics)| + 1 == |multiset(g.members[i].atomics)|;
      }
      OkOptimiseMonomials(sub, args, n - 1);
      forall i, m | 0 <= i < |gs[1..]| && m in gs[1..][i].members ensures |m.atomics| == n {
        assert gs[1..][i] == gs[i + 1];
      }
      OkFactoriseGroups(gs[1..], si, args, n);
    }
  }

  /** `optimise_monomial_sum` succeeds when every monomial has the same
      number of atomics, whatever their sum indices. */
  lemma OkOptimiseMonomialSum(ms: seq<Monomial>, args: set<Index>)
    requires UniformArity(ms)
    ensures OptimiseMonomialSum(ms, args).Ok?
  {
    var ks := KeysOf(ms, SumKey);
    var gs := BySumIndices(ms);
    GroupByMembers(ms, ks);
    BySumIndicesNonEmpty(ms);
    forall i | 0 <= i < |gs| ensures OptimiseMonomials(gs[i].members, args).Ok? {
      var members := gs[i].members;
      assert members[0] in members;
      var j0 :| 0 <= j0 < |ms| && ms[j0] == members[0] && ks[j0] == gs[i].key;
      forall a | 0 <= a < |members| ensures |members[a].atomics| == |ms[j0].atomics| {
        assert members[a] in members;
        var j :| 0 <= j < |ms| && ms[j] == members[a] && ks[j] == gs[i].key;
      }
      assert SameSumIndices(members) by {
        forall a, b | 0 <= a < |members| && 0 <= b < |members|
          ensures SumKey(members[a]) == SumKey(members[b])
        {
          assert members[a] in members && members[b] in members;
        }
      }
      OkOptimiseMonomials(members, args, |ms[j0].atomics|);
    }
  }

  /** A monomial without atomics next to one with atomics: the search finds
      no hitting set and keeps all candidates, none of which the bare
      monomial contains, so `group_key` reaches its assertion. */
  lemma UncoveredOptimiseMonomials(ms: seq<Monomial>, args: set<Index>, k: nat, j: nat)
    requires SameSumIndices(ms)
    requires k < |ms| && ms[k].atomics == []
    requires j < |ms| && ms[j].atomics != []
    ensures OptimiseMonomials(ms, args) == Err(UncoveredMonomial)
  {
    OptimalAtomicsNoSolution(ms, args, MaxIterations, k);
    CandidatesMembers(ms);
    var oas := OptimalAtomics(ms, args).atomics;
    assert ms[j].atomics[0] in oas;
    assert FirstCovering(oas, ms[k]).None?;
    assert CoverKeys(ms, oas).Err?;
  }

  /** Every monomial sum of uniform arity is optimised, so the whole list is. */
  lemma OkOptimiseSums(sums: seq<seq<Monomial>>, args: set<Index>)
    requires forall i :: 0 <= i < |sums| ==> UniformArity(sums[i])
    ensures OptimiseSums(sums, args).Ok?
  {
    forall i | 0 <= i < |sums| ensures OptimiseMonomialSum(sums[i], args).Ok? {
      OkOptimiseMonomialSum(sums[i], args);
    }
  }

  /** `optimise_expressions` returns one expression per monomial sum when
      every sum has uniform arity, and its input when a `Failure` is present. */
  lemma OkOptimiseExpressions(exprs: seq<Expr>, sums: seq<seq<Monomial>>, args: set<Index>)
    requires forall i :: 0 <= i < |sums| ==> UniformArity(sums[i])
    ensures OptimiseExpressions(exprs, sums, args).Ok?
    ensures !AnyFailure(exprs) ==> |OptimiseExpressions(exprs, sums, args).value| == |sums|
    ensures AnyFailure(exprs) ==> OptimiseExpressions(exprs, sums, args).value == exprs
  {
    OkOptimiseSums(sums, args);
  }

  /** A `Failure` under an indexing node, buried in an opaque leaf, still
      makes `optimise_expressions` return its input untouched. */
  lemma IndexedFailureSkips(e: Expr, args: set<Index>)
    requires e == Product([Leaf(0, [Index(0, 2)], true), One])
    ensures OptimiseExpressions([e], [[]], args) == Ok([e])
  {
    assert ContainsFailure(e.factors[0]);
    assert [e][0] == e;
  }
}
