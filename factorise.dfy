/** Argument factorisation: `factorise_atomics`, `optimise_monomials`,
    `optimise_monomial_sum`, `monomial_sum_to_expression` and the driver
    `optimise_expressions`. Two of the source's three `assert` statements
    become `Err` results; the third, that grouping drops no monomial, is
    proved (`GroupByPartition`, `GroupAtomsPartition`). */
module Factorise {
  import opened Wrappers
  import opened Seqs
  import opened Groups
  import opened Gem
  import opened Search

  /** The source's assertion failures: monomials with different sum-index
      sets given to `optimise_monomials`, and a monomial containing none of
      the chosen atomics in `factorise_atomics`. */
  datatype Error = MixedSumIndices | UncoveredMonomial

  /** `frozenset(m.sum_indices)`. */
  function SumKey(m: Monomial): set<Index>
  {
    AsSet(m.sumIndices)
  }

  predicate SameSumIndices(ms: seq<Monomial>)
  {
    forall i, j :: 0 <= i < |ms| && 0 <= j < |ms| ==> SumKey(ms[i]) == SumKey(ms[j])
  }

  function TotalAtomics(ms: seq<Monomial>): nat
  {
    if ms == [] then 0 else |ms[0].atomics| + TotalAtomics(ms[1..])
  }

  /** Total number of atomics over all members of all groups. */
  function GroupAtoms(gs: seq<Group<Expr, Monomial>>): nat
  {
    if gs == [] then 0 else TotalAtomics(gs[0].members) + GroupAtoms(gs[1..])
  }

  // ---------------------------------------------------------------------
  // Grouping by the first chosen atomic.

  /** `group_key`: the first of `oas` that the monomial contains. */
  function FirstCovering(oas: seq<Expr>, m: Monomial): (r: Option<Expr>)
    ensures r.Some? ==> exists i :: 0 <= i < |oas| && oas[i] == r.value && r.value in m.atomics &&
                          forall j :: 0 <= j < i ==> oas[j] !in m.atomics
    ensures r.None? ==> forall a :: a in oas ==> a !in m.atomics
  {
    if oas == [] then None
    else if oas[0] in m.atomics then Some(oas[0])
    else
      var r := FirstCovering(oas[1..], m);
      if r.Some? then
        var i :| 0 <= i < |oas[1..]| && oas[1..][i] == r.value && r.value in m.atomics &&
                 forall j :: 0 <= j < i ==> oas[1..][j] !in m.atomics;
        assert forall j :: 0 <= j < i + 1 ==> oas[j] !in m.atomics by {
          forall j | 0 <= j < i + 1 ensures oas[j] !in m.atomics {
            if j > 0 {
              assert oas[j] == oas[1..][j - 1];
            }
          }
        }
        assert oas[i + 1] == r.value;
        r
      else
        assert forall a :: a in oas ==> a == oas[0] || a in oas[1..];
        r
  }

  /** The group key of every monomial, or the assertion failure of the first
      monomial that contains none of `oas`. */
  function CoverKeys(ms: seq<Monomial>, oas: seq<Expr>): (r: Result<seq<Expr>, Error>)
    ensures r.Ok? ==> |r.value| == |ms| && forall i :: 0 <= i < |ms| ==> FirstCovering(oas, ms[i]) == Some(r.value[i])
    ensures r.Err? ==> r.error == UncoveredMonomial && exists i :: 0 <= i < |ms| && FirstCovering(oas, ms[i]).None?
    ensures (exists i :: 0 <= i < |ms| && FirstCovering(oas, ms[i]).None?) ==> r.Err?
  {
    if ms == [] then Ok([])
    else
      match FirstCovering(oas, ms[0])
      case None => Err(UncoveredMonomial)
      case Some(k) =>
        var rest := CoverKeys(ms[1..], oas);
        if rest.Err? then
          var i :| 0 <= i < |ms[1..]| && FirstCovering(oas, ms[1..][i]).None?;
          assert ms[i + 1] == ms[1..][i];
          Err(rest.error)
        else
          var r := [k] + rest.value;
          assert forall i :: 0 < i < |ms| ==> ms[i] == ms[1..][i - 1] && r[i] == rest.value[i - 1];
          Ok(r)
  }

  /** Every member of the group contains the group's key. */
  predicate GroupOk(g: Group<Expr, Monomial>)
  {
    |g.members| > 0 && forall m :: m in g.members ==> g.key in m.atomics
  }

  // ---------------------------------------------------------------------
  // Removing the common factor.

  /** `list.remove`: drop the first occurrence of `x`, keeping the other
      elements in their order. */
  function RemoveFirst(s: seq<Expr>, x: Expr): (r: seq<Expr>)
    requires x in s
    ensures |r| == |s| - 1
    ensures multiset(r) + multiset{x} == multiset(s)
    ensures exists i :: 0 <= i < |s| && s[i] == x && x !in s[..i] && r == s[..i] + s[i + 1..]
  {
    var i := FirstIndex(s, x);
    assert s == s[..i] + [x] + s[i + 1..];
    s[..i] + s[i + 1..]
  }

  /** The sub-monomial of a group member: no sum indices, the first
      occurrence of the key removed and the other atomics kept in order. */
  function Strip(m: Monomial, k: Expr): (r: Monomial)
    requires k in m.atomics
    ensures r.sumIndices == [] && r.rest == m.rest
    ensures multiset(r.atomics) + multiset{k} == multiset(m.atomics)
    ensures exists i :: (0 <= i < |m.atomics| && m.atomics[i] == k && k !in m.atomics[..i] &&
                         r.atomics == m.atomics[..i] + m.atomics[i + 1..])
  {
    Monomial([], RemoveFirst(m.atomics, k), m.rest)
  }

  function StripAll(ms: seq<Monomial>, k: Expr): (r: seq<Monomial>)
    requires forall m :: m in ms ==> k in m.atomics
    ensures |r| == |ms| && forall i :: 0 <= i < |ms| ==> r[i] == Strip(ms[i], k)
  {
    seq(|ms|, i requires 0 <= i < |ms| => Strip(ms[i], k))
  }

  // ---------------------------------------------------------------------
  // Building expressions.

  /** `make_product(monomial.atomics + (monomial.rest,))` for each monomial. */
  function Products(ms: seq<Monomial>): (r: seq<Expr>)
    ensures |r| == |ms| && forall i :: 0 <= i < |ms| ==> r[i] == MonomialProduct(ms[i])
  {
    seq(|ms|, i requires 0 <= i < |ms| => MonomialProduct(ms[i]))
  }

  /** One `IndexSum` for a group of monomials with the same sum-index set,
      over the sum indices of its first monomial. */
  function GroupIndexSum(g: Group<set<Index>, Monomial>): Expr
    requires |g.members| > 0
  {
    IndexSum(MakeSum(Products(g.members)), g.members[0].sumIndices)
  }

  function IndexSums(gs: seq<Group<set<Index>, Monomial>>): (r: seq<Expr>)
    requires forall i :: 0 <= i < |gs| ==> |gs[i].members| > 0
    ensures |r| == |gs| && forall i :: 0 <= i < |gs| ==> r[i] == GroupIndexSum(gs[i])
  {
    seq(|gs|, i requires 0 <= i < |gs| => GroupIndexSum(gs[i]))
  }

  /** Monomials grouped by their sum-index set. */
  function BySumIndices(ms: seq<Monomial>): seq<Group<set<Index>, Monomial>>
  {
    GroupBy(ms, KeysOf(ms, SumKey))
  }

  lemma BySumIndicesNonEmpty(ms: seq<Monomial>)
    ensures forall i :: 0 <= i < |BySumIndices(ms)| ==> |BySumIndices(ms)[i].members| > 0
    ensures forall i, m :: 0 <= i < |BySumIndices(ms)| && m in BySumIndices(ms)[i].members ==> SumKey(m) == BySumIndices(ms)[i].key
  {
    var ks := KeysOf(ms, SumKey);
    GroupByMembers(ms, ks);
    forall i, m | 0 <= i < |BySumIndices(ms)| && m in BySumIndices(ms)[i].members
      ensures SumKey(m) == BySumIndices(ms)[i].key
    {
      var j :| 0 <= j < |ms| && ms[j] == m && ks[j] == BySumIndices(ms)[i].key;
    }
  }

  /** Each sum-index group has a single sum-index set. */
  lemma BySumIndicesUniform(ms: seq<Monomial>)
    ensures forall i :: 0 <= i < |BySumIndices(ms)| ==> SameSumIndices(BySumIndices(ms)[i].members)
  {
    var gs := BySumIndices(ms);
    BySumIndicesNonEmpty(ms);
    forall i | 0 <= i < |gs| ensures SameSumIndices(gs[i].members) {
      forall a, b | 0 <= a < |gs[i].members| && 0 <= b < |gs[i].members|
        ensures SumKey(gs[i].members[a]) == SumKey(gs[i].members[b])
      {
        assert gs[i].members[a] in gs[i].members && gs[i].members[b] in gs[i].members;
      }
    }
  }

  /** `monomial_sum_to_expression`: one `IndexSum` per distinct sum-index
      set, in first-seen order, each summing over exactly that set; a single
      group is not wrapped in a sum. */
  function MonomialSumToExpression(ms: seq<Monomial>): (r: Expr)
    ensures var gs := BySumIndices(ms);
      |gs| == 1 ==> r.IndexSum? && AsSet(r.indices) == gs[0].key
    ensures var gs := BySumIndices(ms);
      |gs| != 1 ==> (r.Sum? && |r.terms| == |gs| &&
        forall i :: 0 <= i < |gs| ==> r.terms[i].IndexSum? && AsSet(r.terms[i].indices) == gs[i].key)
  {
    BySumIndicesNonEmpty(ms);
    var gs := BySumIndices(ms);
    assert forall i :: 0 <= i < |gs| ==> AsSet(IndexSums(gs)[i].indices) == gs[i].key by {
      forall i | 0 <= i < |gs| ensures AsSet(IndexSums(gs)[i].indices) == gs[i].key {
        assert gs[i].members[0] in gs[i].members;
        assert SumKey(gs[i].members[0]) == gs[i].key;
      }
    }
    MakeSum(IndexSums(gs))
  }

  // ---------------------------------------------------------------------
  // Factorisation.

  /** The monomial built for one group from the re-optimised sub-monomials. */
  function Rebuild(oa: Expr, sub: seq<Monomial>, si: seq<Index>, args: set<Index>): (r: Monomial)
    ensures r.sumIndices == si && |r.atomics| > 0 && r.atomics[0] == oa
  {
    if |sub| == 1 then Monomial(si, [oa] + sub[0].atomics, sub[0].rest)
    else
      var node := MonomialSumToExpression(sub);
      if MeetsIndices(node, args) then Monomial(si, [oa, node], One)
      else Monomial(si, [oa], node)
  }

  lemma {:induction false} TotalAtomicsStrip(ms: seq<Monomial>, k: Expr)
    requires forall m :: m in ms ==> k in m.atomics
    ensures TotalAtomics(StripAll(ms, k)) + |ms| == TotalAtomics(ms)
  {
    if ms != [] {
      assert ms[0] in ms;
      forall m | m in ms[1..] ensures k in m.atomics {
        assert m in ms;
      }
      TotalAtomicsStrip(ms[1..], k);
      assert StripAll(ms, k)[1..] == StripAll(ms[1..], k);
      assert |multiset(Strip(ms[0], k).atomics)| + 1 == |multiset(ms[0].atomics)|;
    }
  }

  lemma {:induction false} TotalAtomicsIsSum(ms: seq<Monomial>)
    ensures TotalAtomics(ms) == SumW(ms, (m: Monomial) => |m.atomics|)
  {
    if ms != [] {
      TotalAtomicsIsSum(ms[1..]);
    }
  }

  lemma {:induction false} GroupAtomsIsSum(gs: seq<Group<Expr, Monomial>>)
    ensures GroupAtoms(gs) == Groups.SumGroups(gs, (m: Monomial) => |m.atomics|)
  {
    if gs != [] {
      TotalAtomicsIsSum(gs[0].members);
      GroupAtomsIsSum(gs[1..]);
    }
  }

  /** Grouping keeps every atomic (no monomial is dropped). */
  lemma GroupAtomsPartition(ms: seq<Monomial>, ks: seq<Expr>)
    requires |ms| == |ks|
    ensures GroupAtoms(GroupBy(ms, ks)) == TotalAtomics(ms)
  {
    DedupMembers(ks);
    SumGroupsPartition(ms, ks, Dedup(ks), (m: Monomial) => |m.atomics|);
    GroupAtomsIsSum(GroupBy(ms, ks));
    TotalAtomicsIsSum(ms);
  }

  /** The groups formed from the covering keys are non-empty and every member
      contains its group's key. */
  lemma CoverGroupsOk(ms: seq<Monomial>, oas: seq<Expr>, ks: seq<Expr>)
    requires CoverKeys(ms, oas) == Ok(ks)
    ensures forall i :: 0 <= i < |GroupBy(ms, ks)| ==> GroupOk(GroupBy(ms, ks)[i])
  {
    GroupByMembers(ms, ks);
    var gs := GroupBy(ms, ks);
    forall i | 0 <= i < |gs| ensures GroupOk(gs[i]) {
      forall m | m in gs[i].members ensures gs[i].key in m.atomics {
        var j :| 0 <= j < |ms| && ms[j] == m && ks[j] == gs[i].key;
        assert FirstCovering(oas, ms[j]) == Some(ks[j]);
      }
    }
  }

  /** `optimise_monomials`. */
  function OptimiseMonomials(ms: seq<Monomial>, args: set<Index>): (r: Result<seq<Monomial>, Error>)
    ensures r == Err(MixedSumIndices) <==> !SameSumIndices(ms)
    ensures r.Ok? ==> (|r.value| == 0 <==> |ms| == 0)
    ensures r.Ok? && |ms| > 0 ==> r.value[0].sumIndices == ms[0].sumIndices &&
                                  forall i :: 0 <= i < |r.value| ==> SumKey(r.value[i]) == SumKey(ms[0])
    decreases TotalAtomics(ms), 3, 0
  {
    if !SameSumIndices(ms) then Err(MixedSumIndices)
    else FactoriseAtomics(ms, OptimalAtomics(ms, args).atomics, args)
  }

  /** `factorise_atomics`. */
  function FactoriseAtomics(ms: seq<Monomial>, oas: seq<Expr>, args: set<Index>): (r: Result<seq<Monomial>, Error>)
    ensures (oas == [] || |ms| <= 1) ==> r == Ok(ms)
    ensures r.Err? ==> r.error == UncoveredMonomial
    ensures r.Ok? ==> (|r.value| == 0 <==> |ms| == 0)
    ensures r.Ok? && r.value != ms ==> forall i :: 0 <= i < |r.value| ==> r.value[i].sumIndices == ms[0].sumIndices
    decreases TotalAtomics(ms), 2, 0
  {
    if oas == [] || |ms| <= 1 then Ok(ms)
    else
      var ks :- CoverKeys(ms, oas);
      CoverGroupsOk(ms, oas, ks);
      GroupAtomsPartition(ms, ks);
      GroupByPartition(ms, ks);
      FactoriseGroups(GroupBy(ms, ks), ms[0].sumIndices, args)
  }

  /** The loop of `factorise_atomics` over the groups. */
  function FactoriseGroups(gs: seq<Group<Expr, Monomial>>, si: seq<Index>, args: set<Index>): (r: Result<seq<Monomial>, Error>)
    requires forall i :: 0 <= i < |gs| ==> GroupOk(gs[i])
    ensures r.Err? ==> r.error == UncoveredMonomial
    ensures r.Ok? ==> |r.value| == |gs|
    ensures r.Ok? ==> forall i :: 0 <= i < |gs| ==>
      r.value[i].sumIndices == si && |r.value[i].atomics| > 0 && r.value[i].atomics[0] == gs[i].key
    decreases GroupAtoms(gs), 1, |gs|
  {
    if gs == [] then Ok([])
    else
      var m :- FactoriseGroup(gs[0], si, args);
      var rest :- FactoriseGroups(gs[1..], si, args);
      Ok([m] + rest)
  }

  /** One group: strip the key, re-optimise, rebuild. */
  function FactoriseGroup(g: Group<Expr, Monomial>, si: seq<Index>, args: set<Index>): (r: Result<Monomial, Error>)
    requires GroupOk(g)
    ensures r.Err? ==> r.error == UncoveredMonomial
    decreases TotalAtomics(g.members), 0, 0
  {
    var sub := StripAll(g.members, g.key);
    TotalAtomicsStrip(g.members, g.key);
    var opt :- OptimiseMonomials(sub, args);
    Ok(Rebuild(g.key, opt, si, args))
  }

  // ---------------------------------------------------------------------
  // Drivers.

  /** The loop of `optimise_monomial_sum`: optimise each sum-index group and
      concatenate. */
  function OptimiseGroups(gs: seq<Group<set<Index>, Monomial>>, args: set<Index>): (r: Result<seq<Monomial>, Error>)
    ensures r.Ok? <==> forall i :: 0 <= i < |gs| ==> OptimiseMonomials(gs[i].members, args).Ok?
    ensures (forall i :: 0 <= i < |gs| ==> SameSumIndices(gs[i].members)) && r.Err? ==> r.error == UncoveredMonomial
  {
    if gs == [] then Ok([])
    else
      assert forall i :: 0 < i < |gs| ==> gs[i] == gs[1..][i - 1];
      var a :- OptimiseMonomials(gs[0].members, args);
      var b :- OptimiseGroups(gs[1..], args);
      Ok(a + b)
  }

  /** `optimise_monomial_sum`: it fails only when every group it passes to
      `optimise_monomials` has one sum-index set, so the mixed sum-index
      assertion never fires from here. */
  function OptimiseMonomialSum(ms: seq<Monomial>, args: set<Index>): (r: Result<Expr, Error>)
    ensures r.Err? ==> r.error == UncoveredMonomial
  {
    BySumIndicesUniform(ms);
    var nm :- OptimiseGroups(BySumIndices(ms), args);
    Ok(MonomialSumToExpression(nm))
  }

  /** The list comprehension of `optimise_expressions`: element `i` is the
      optimised monomial sum `i`. */
  function OptimiseSums(sums: seq<seq<Monomial>>, args: set<Index>): (r: Result<seq<Expr>, Error>)
    ensures r.Ok? <==> forall i :: 0 <= i < |sums| ==> OptimiseMonomialSum(sums[i], args).Ok?
    ensures r.Ok? ==> |r.value| == |sums|
    ensures r.Ok? ==> forall i :: 0 <= i < |sums| ==> OptimiseMonomialSum(sums[i], args) == Ok(r.value[i])
  {
    if sums == [] then Ok([])
    else
      assert forall i :: 0 < i < |sums| ==> sums[i] == sums[1..][i - 1];
      var e :- OptimiseMonomialSum(sums[0], args);
      var rest :- OptimiseSums(sums[1..], args);
      Ok([e] + rest)
  }

  predicate AnyFailure(exprs: seq<Expr>)
  {
    exists i :: 0 <= i < |exprs| && ContainsFailure(exprs[i])
  }

  /** `optimise_expressions`; `sums` stands for what `collect_monomials`
      returns for `exprs`. */
  function OptimiseExpressions(exprs: seq<Expr>, sums: seq<seq<Monomial>>, args: set<Index>): (r: Result<seq<Expr>, Error>)
    ensures AnyFailure(exprs) ==> r == Ok(exprs)
    ensures !AnyFailure(exprs) ==> r == OptimiseSums(sums, args)
  {
    if AnyFailure(exprs) then Ok(exprs) else OptimiseSums(sums, args)
  }
}
