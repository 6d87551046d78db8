/** Factorisation preserves the value of a monomial sum, read in any
    commutative ring (here the integers): pulling a common atomic out of a
    group multiplies it back in, and `optimise_monomial_sum` rebuilds the
    same index sums with bodies of equal value. */
module Value {
  import opened Wrappers
  import opened Seqs
  import opened Groups
  import opened Gem
  import opened Search
  import opened Factorise

  /** Value of the members of all groups, not counting their summations. */
  ghost function GroupPolyVal<K>(gs: seq<Group<K, Monomial>>, v: Valuation, rho: Assignment): int
  {
    if gs == [] then 0 else PolyVal(gs[0].members, v, rho) + GroupPolyVal(gs[1..], v, rho)
  }

  lemma {:induction false} PolyValIsSum(xs: seq<Monomial>, v: Valuation, rho: Assignment)
    ensures PolyVal(xs, v, rho) == SumW(xs, (m: Monomial) => MonoVal(m, v, rho))
  {
    if xs != [] {
      PolyValIsSum(xs[1..], v, rho);
    }
  }

  lemma {:induction false} GroupPolyValIsSum<K>(gs: seq<Group<K, Monomial>>, v: Valuation, rho: Assignment)
    ensures GroupPolyVal(gs, v, rho) == Groups.SumGroups(gs, (m: Monomial) => MonoVal(m, v, rho))
  {
    if gs != [] {
      PolyValIsSum(gs[0].members, v, rho);
      GroupPolyValIsSum(gs[1..], v, rho);
    }
  }

  /** Grouping neither loses nor duplicates value. */
  lemma GroupPolyValPartition<K>(ms: seq<Monomial>, ks: seq<K>, v: Valuation, rho: Assignment)
    requires |ms| == |ks|
    ensures GroupPolyVal(GroupBy(ms, ks), v, rho) == PolyVal(ms, v, rho)
  {
    DedupMembers(ks);
    SumGroupsPartition(ms, ks, Dedup(ks), (m: Monomial) => MonoVal(m, v, rho));
    GroupPolyValIsSum(GroupBy(ms, ks), v, rho);
    PolyValIsSum(ms, v, rho);
  }

  /** Evaluating a list with one element cut out. */
  lemma EvalAllCut(s: seq<Expr>, i: nat, v: Valuation, rho: Assignment)
    requires i < |s|
    ensures EvalAll(s[..i] + s[i + 1..], v, rho) == EvalAll(s, v, rho)[..i] + EvalAll(s, v, rho)[i + 1..]
  {
    var r := s[..i] + s[i + 1..];
    var e := EvalAll(s, v, rho);
    var e' := e[..i] + e[i + 1..];
    forall j | 0 <= j < |r| ensures EvalAll(r, v, rho)[j] == e'[j] {
      if j < i {
        assert r[j] == s[j] && e'[j] == e[j];
      } else {
        assert r[j] == s[j + 1] && e'[j] == e[j + 1];
      }
    }
  }

  /** Removing one occurrence of an atomic divides its value out of the product. */
  lemma ProdRemoveFirst(s: seq<Expr>, x: Expr, v: Valuation, rho: Assignment)
    requires x in s
    ensures ProdInts(EvalAll(s, v, rho)) == Eval(x, v, rho) * ProdInts(EvalAll(RemoveFirst(s, x), v, rho))
  {
    var i := FirstIndex(s, x);
    var e := EvalAll(s, v, rho);
    ProdIntsRemove(e, i);
    EvalAllCut(s, i, v, rho);
    assert RemoveFirst(s, x) == s[..i] + s[i + 1..];
    assert e[i] == Eval(x, v, rho);
  }

  lemma StripValue(m: Monomial, k: Expr, v: Valuation, rho: Assignment)
    requires k in m.atomics
    ensures MonoVal(m, v, rho) == Eval(k, v, rho) * MonoVal(Strip(m, k), v, rho)
  {
    ProdRemoveFirst(m.atomics, k, v, rho);
    var p := ProdInts(EvalAll(Strip(m, k).atomics, v, rho));
    var e := Eval(m.rest, v, rho);
    MulAssoc(Eval(k, v, rho), p, e);
  }

  /** The sub-monomials of a group times the common atomic are the group. */
  lemma {:induction false} StripAllValue(ms: seq<Monomial>, k: Expr, v: Valuation, rho: Assignment)
    requires forall m :: m in ms ==> k in m.atomics
    ensures PolyVal(ms, v, rho) == Eval(k, v, rho) * PolyVal(StripAll(ms, k), v, rho)
  {
    if ms != [] {
      assert ms[0] in ms;
      forall m | m in ms[1..] ensures k in m.atomics {
        assert m in ms;
      }
      StripAllValue(ms[1..], k, v, rho);
      StripValue(ms[0], k, v, rho);
      var sub := StripAll(ms, k);
      assert sub[1..] == StripAll(ms[1..], k);
      var x, h, t := Eval(k, v, rho), MonoVal(sub[0], v, rho), PolyVal(sub[1..], v, rho);
      assert PolyVal(sub, v, rho) == h + t;
      assert PolyVal(ms, v, rho) == x * h + x * t;
      MulDistrib(x, h, t);
    }
  }

  /** The products of the monomials add up to their value. */
  lemma {:induction false} ProductsValue(ms: seq<Monomial>, v: Valuation, rho: Assignment)
    ensures SumInts(EvalAll(Products(ms), v, rho)) == PolyVal(ms, v, rho)
  {
    if ms != [] {
      ProductsValue(ms[1..], v, rho);
      EvalMonomialProduct(ms[0], v, rho);
      assert Products(ms)[1..] == Products(ms[1..]);
      assert EvalAll(Products(ms), v, rho)[1..] == EvalAll(Products(ms[1..]), v, rho);
    }
  }

  /** `make_sum` of the products of a group denotes the group's value. */
  lemma GroupBodyValue(ms: seq<Monomial>, v: Valuation, rho: Assignment)
    ensures Eval(MakeSum(Products(ms)), v, rho) == PolyVal(ms, v, rho)
  {
    EvalMakeSum(Products(ms), v, rho);
    ProductsValue(ms, v, rho);
  }

  lemma SingleSumGroup(ms: seq<Monomial>)
    requires ms != [] && forall i :: 0 <= i < |ms| ==> ms[i].sumIndices == []
    ensures BySumIndices(ms) == [Group({}, ms)]
  {
    var ks := KeysOf(ms, SumKey);
    var empty: set<Index> := {};
    assert forall x :: x in ks ==> x == empty;
    DedupFromBlock(ks, empty, [], {});
    assert ks + [] == ks;
    assert Dedup(ks) == [empty];
    SelectAll(ms, ks, empty);
  }

  /** Monomials without sum indices form a single index sum over no indices. */
  lemma FlatShape(ms: seq<Monomial>, v: Valuation, rho: Assignment)
    requires ms != [] && forall i :: 0 <= i < |ms| ==> ms[i].sumIndices == []
    ensures Eval(MonomialSumToExpression(ms), v, rho) == Eval(MakeSum(Products(ms)), v, rho)
  {
    SingleSumGroup(ms);
  }

  /** Monomials without sum indices rebuild to an expression that denotes
      their value. */
  lemma FlatValue(ms: seq<Monomial>, v: Valuation, rho: Assignment)
    requires ms != [] && forall i :: 0 <= i < |ms| ==> ms[i].sumIndices == []
    ensures Eval(MonomialSumToExpression(ms), v, rho) == PolyVal(ms, v, rho)
  {
    FlatShape(ms, v, rho);
    GroupBodyValue(ms, v, rho);
  }

  lemma PrependValue(oa: Expr, s: Monomial, si: seq<Index>, v: Valuation, rho: Assignment)
    ensures MonoVal(Monomial(si, [oa] + s.atomics, s.rest), v, rho) == Eval(oa, v, rho) * MonoVal(s, v, rho)
  {
    var x := Eval(oa, v, rho);
    var p := ProdInts(EvalAll(s.atomics, v, rho));
    EvalAllAppend([oa], s.atomics, v, rho);
    ProdIntsAppend(EvalAll([oa], v, rho), EvalAll(s.atomics, v, rho));
    assert ProdInts(EvalAll([oa], v, rho)) == x * ProdInts([]);
    MulAssoc(x, p, Eval(s.rest, v, rho));
  }

  lemma NodeValue(oa: Expr, node: Expr, si: seq<Index>, v: Valuation, rho: Assignment)
    ensures MonoVal(Monomial(si, [oa, node], One), v, rho) == Eval(oa, v, rho) * Eval(node, v, rho)
    ensures MonoVal(Monomial(si, [oa], node), v, rho) == Eval(oa, v, rho) * Eval(node, v, rho)
  {
    var x, y := Eval(oa, v, rho), Eval(node, v, rho);
    assert EvalAll([oa, node], v, rho) == [x, y];
    assert [x, y][1..] == [y];
    assert ProdInts([x, y]) == x * ProdInts([y]);
    assert ProdInts([y]) == y * ProdInts([]);
    assert EvalAll([oa], v, rho) == [x];
    assert ProdInts([x]) == x * ProdInts([]);
  }

  /** The rebuilt monomial of a group is the common atomic times the value of
      the re-optimised sub-monomials. */
  lemma RebuildValue(oa: Expr, sub: seq<Monomial>, si: seq<Index>, args: set<Index>, v: Valuation, rho: Assignment)
    requires sub != [] && forall i :: 0 <= i < |sub| ==> sub[i].sumIndices == []
    ensures MonoVal(Rebuild(oa, sub, si, args), v, rho) == Eval(oa, v, rho) * PolyVal(sub, v, rho)
  {
    if |sub| == 1 {
      PrependValue(oa, sub[0], si, v, rho);
      assert PolyVal(sub, v, rho) == MonoVal(sub[0], v, rho) + PolyVal([], v, rho);
    } else {
      var node := MonomialSumToExpression(sub);
      FlatValue(sub, v, rho);
      NodeValue(oa, node, si, v, rho);
    }
  }

  /** An empty sum-index set means no sum indices. */
  lemma NoSumIndices(m: Monomial)
    ensures SumKey(m) == {} <==> m.sumIndices == []
  {
    assert m.sumIndices != [] ==> m.sumIndices[0] in SumKey(m);
  }

  // ---------------------------------------------------------------------
  // `monomial_sum_to_expression` against the term-by-term value.

  /** One monomial on its own: its product summed over its own sum indices. */
  ghost function TermValue(m: Monomial, v: Valuation, rho: Assignment): int
  {
    Eval(IndexSum(MonomialProduct(m), m.sumIndices), v, rho)
  }

  /** The value of a monomial sum read term by term, each term summed over
      its own sum indices in its own order. */
  ghost function SumValue(ms: seq<Monomial>, v: Valuation, rho: Assignment): int
  {
    SumW(ms, (m: Monomial) => TermValue(m, v, rho))
  }

  /** An index sum of a `make_sum` of products is the sum of the index sums
      of the products. */
  lemma {:induction false} IndexSumLinear(ms: seq<Monomial>, idx: seq<Index>, v: Valuation, rho: Assignment)
    ensures SumOver(MakeSum(Products(ms)), idx, v, rho) ==
            SumW(ms, (m: Monomial) => SumOver(MonomialProduct(m), idx, v, rho))
  {
    var body := MakeSum(Products(ms));
    if ms == [] {
      forall r: Assignment ensures Eval(body, v, r) == Eval(body, v, r) + Eval(body, v, r) {
        GroupBodyValue(ms, v, r);
      }
      SumOverAdd(body, body, body, idx, v, rho);
    } else {
      var head, tail := MonomialProduct(ms[0]), MakeSum(Products(ms[1..]));
      forall r: Assignment ensures Eval(body, v, r) == Eval(head, v, r) + Eval(tail, v, r) {
        GroupBodyValue(ms, v, r);
        GroupBodyValue(ms[1..], v, r);
        EvalMonomialProduct(ms[0], v, r);
      }
      SumOverAdd(body, head, tail, idx, v, rho);
      IndexSumLinear(ms[1..], idx, v, rho);
    }
  }

  /** The index sum of one sum-index group is the term-by-term value of its
      members: summing over the first member's index order is the same as
      each member summing over its own. */
  lemma GroupTermsValue(g: Group<set<Index>, Monomial>, v: Valuation, rho: Assignment)
    requires |g.members| > 0
    requires forall m :: m in g.members ==> SumKey(m) == g.key && NoDup(m.sumIndices)
    ensures Eval(GroupIndexSum(g), v, rho) == SumValue(g.members, v, rho)
  {
    var idx := g.members[0].sumIndices;
    assert g.members[0] in g.members;
    IndexSumLinear(g.members, idx, v, rho);
    forall m | m in g.members
      ensures SumOver(MonomialProduct(m), idx, v, rho) == TermValue(m, v, rho)
    {
      SumOverPermutation(MonomialProduct(m), idx, m.sumIndices, v, rho);
    }
    SumWCongruent(g.members, (m: Monomial) => SumOver(MonomialProduct(m), idx, v, rho),
                  (m: Monomial) => TermValue(m, v, rho));
  }

  lemma {:induction false} IndexSumsTermsValue(gs: seq<Group<set<Index>, Monomial>>, v: Valuation, rho: Assignment)
    requires forall i :: 0 <= i < |gs| ==> |gs[i].members| > 0
    requires forall i, m :: 0 <= i < |gs| && m in gs[i].members ==> SumKey(m) == gs[i].key && NoDup(m.sumIndices)
    ensures SumInts(EvalAll(IndexSums(gs), v, rho)) == Groups.SumGroups(gs, (m: Monomial) => TermValue(m, v, rho))
  {
    if gs != [] {
      GroupTermsValue(gs[0], v, rho);
      IndexSumsTermsValue(gs[1..], v, rho);
      assert IndexSums(gs)[1..] == IndexSums(gs[1..]);
      assert EvalAll(IndexSums(gs), v, rho)[1..] == EvalAll(IndexSums(gs[1..]), v, rho);
    }
  }

  /** `monomial_sum_to_expression` denotes the sum of the monomials' own
      index sums, provided no monomial repeats a sum index: grouping by the
      set of sum indices and summing each group over its first member's
      index order changes nothing. */
  lemma MonomialSumToExpressionValue(ms: seq<Monomial>, v: Valuation, rho: Assignment)
    requires forall i :: 0 <= i < |ms| ==> NoDup(ms[i].sumIndices)
    ensures Eval(MonomialSumToExpression(ms), v, rho) == SumValue(ms, v, rho)
  {
    var ks := KeysOf(ms, SumKey);
    var gs := BySumIndices(ms);
    BySumIndicesNonEmpty(ms);
    GroupByMembers(ms, ks);
    forall i, m | 0 <= i < |gs| && m in gs[i].members ensures NoDup(m.sumIndices) {
      var j :| 0 <= j < |ms| && ms[j] == m && ks[j] == gs[i].key;
    }
    IndexSumsTermsValue(gs, v, rho);
    EvalMakeSum(IndexSums(gs), v, rho);
    DedupMembers(ks);
    SumGroupsPartition(ms, ks, Dedup(ks), (m: Monomial) => TermValue(m, v, rho));
  }

  // ---------------------------------------------------------------------
  // Value preservation through the mutual recursion.

  /** `optimise_monomials` preserves the value of the monomials. */
  lemma {:induction false} OptimiseMonomialsValue(ms: seq<Monomial>, args: set<Index>, v: Valuation, rho: Assignment)
    ensures OptimiseMonomials(ms, args).Ok? ==> PolyVal(OptimiseMonomials(ms, args).value, v, rho) == PolyVal(ms, v, rho)
    decreases TotalAtomics(ms), 3, 0
  {
    if SameSumIndices(ms) {
      FactoriseAtomicsValue(ms, OptimalAtomics(ms, args).atomics, args, v, rho);
    }
  }

  /** `factorise_atomics` preserves the value of the monomials, whatever
      atomics it is given. */
  lemma {:induction false} FactoriseAtomicsValue(ms: seq<Monomial>, oas: seq<Expr>, args: set<Index>, v: Valuation, rho: Assignment)
    ensures FactoriseAtomics(ms, oas, args).Ok? ==> PolyVal(FactoriseAtomics(ms, oas, args).value, v, rho) == PolyVal(ms, v, rho)
    decreases TotalAtomics(ms), 2, 0
  {
    if !(oas == [] || |ms| <= 1) {
      var c := CoverKeys(ms, oas);
      if c.Ok? {
        var ks := c.value;
        CoverGroupsOk(ms, oas, ks);
        GroupAtomsPartition(ms, ks);
        var gs := GroupBy(ms, ks);
        assert FactoriseAtomics(ms, oas, args) == FactoriseGroups(gs, ms[0].sumIndices, args);
        FactoriseGroupsValue(gs, ms[0].sumIndices, args, v, rho);
        GroupPolyValPartition(ms, ks, v, rho);
      }
    }
  }

  lemma {:induction false} FactoriseGroupsValue(gs: seq<Group<Expr, Monomial>>, si: seq<Index>, args: set<Index>, v: Valuation, rho: Assignment)
    requires forall i :: 0 <= i < |gs| ==> GroupOk(gs[i])
    ensures FactoriseGroups(gs, si, args).Ok? ==> PolyVal(FactoriseGroups(gs, si, args).value, v, rho) == GroupPolyVal(gs, v, rho)
    decreases GroupAtoms(gs), 1, |gs|
  {
    if gs != [] {
      var r := FactoriseGroups(gs, si, args);
      if r.Ok? {
        var m := FactoriseGroup(gs[0], si, args).value;
        var rest := FactoriseGroups(gs[1..], si, args).value;
        assert r.value == [m] + rest;
        FactoriseGroupValue(gs[0], si, args, v, rho);
        FactoriseGroupsValue(gs[1..], si, args, v, rho);
        PolyValAppend([m], rest, v, rho);
        assert PolyVal([m], v, rho) == MonoVal(m, v, rho) + PolyVal([], v, rho);
      }
    }
  }

  lemma {:induction false} FactoriseGroupValue(g: Group<Expr, Monomial>, si: seq<Index>, args: set<Index>, v: Valuation, rho: Assignment)
    requires GroupOk(g)
    ensures FactoriseGroup(g, si, args).Ok? ==> MonoVal(FactoriseGroup(g, si, args).value, v, rho) == PolyVal(g.members, v, rho)
    decreases TotalAtomics(g.members), 0, 0
  {
    var sub := StripAll(g.members, g.key);
    TotalAtomicsStrip(g.members, g.key);
    var o := OptimiseMonomials(sub, args);
    if o.Ok? {
      OptimiseMonomialsValue(sub, args, v, rho);
      var opt := o.value;
      forall i | 0 <= i < |opt| ensures opt[i].sumIndices == [] {
        assert SumKey(sub[0]) == {};
        NoSumIndices(opt[i]);
      }
      RebuildValue(g.key, opt, si, args, v, rho);
      StripAllValue(g.members, g.key, v, rho);
    }
  }

  // ---------------------------------------------------------------------
  // The driver.

  /** The blocks `optimise_monomial_sum` concatenates, one per group. */
  function Blocks(gs: seq<Group<set<Index>, Monomial>>, args: set<Index>): seq<seq<Monomial>>
    requires forall i :: 0 <= i < |gs| ==> OptimiseMonomials(gs[i].members, args).Ok?
  {
    seq(|gs|, i requires 0 <= i < |gs| => OptimiseMonomials(gs[i].members, args).value)
  }

  lemma {:induction false} OptimiseGroupsBlocks(gs: seq<Group<set<Index>, Monomial>>, args: set<Index>)
    requires OptimiseGroups(gs, args).Ok?
    ensures forall i :: 0 <= i < |gs| ==> OptimiseMonomials(gs[i].members, args).Ok?
    ensures OptimiseGroups(gs, args).value == Concat(Blocks(gs, args))
  {
    if gs != [] {
      var r0 := OptimiseMonomials(gs[0].members, args);
      var rest := OptimiseGroups(gs[1..], args);
      assert r0.Ok? && rest.Ok? && OptimiseGroups(gs, args).value == r0.value + rest.value;
      OptimiseGroupsBlocks(gs[1..], args);
      forall i | 0 < i < |gs| ensures OptimiseMonomials(gs[i].members, args).Ok? {
        assert gs[i] == gs[1..][i - 1];
      }
      var bs := Blocks(gs, args);
      assert bs[0] == r0.value;
      assert bs[1..] == Blocks(gs[1..], args);
      assert Concat(bs) == bs[0] + Concat(bs[1..]);
    }
  }

  /** Optimising a group keeps it non-empty and keeps its sum-index key. */
  lemma BlockKeyed(members: seq<Monomial>, key: set<Index>, args: set<Index>)
    requires |members| > 0 && forall m :: m in members ==> SumKey(m) == key
    requires OptimiseMonomials(members, args).Ok?
    ensures |OptimiseMonomials(members, args).value| > 0
    ensures forall y :: y in OptimiseMonomials(members, args).value ==> SumKey(y) == key
  {
    var block := OptimiseMonomials(members, args).value;
    assert members[0] in members;
    forall y | y in block ensures SumKey(y) == key {
      var j :| 0 <= j < |block| && block[j] == y;
    }
  }

  /** Grouping the concatenated optimised groups by sum indices gives back
      those groups, in order. */
  lemma {:induction false} RegroupBlocks(ms: seq<Monomial>, args: set<Index>)
    requires OptimiseGroups(BySumIndices(ms), args).Ok?
    ensures forall i :: 0 <= i < |BySumIndices(ms)| ==> OptimiseMonomials(BySumIndices(ms)[i].members, args).Ok?
    ensures |BySumIndices(Concat(Blocks(BySumIndices(ms), args)))| == |BySumIndices(ms)|
    ensures forall i :: 0 <= i < |BySumIndices(ms)| ==>
      BySumIndices(Concat(Blocks(BySumIndices(ms), args)))[i] ==
      Group(BySumIndices(ms)[i].key, Blocks(BySumIndices(ms), args)[i])
  {
    var gs := BySumIndices(ms);
    var keys := Dedup(KeysOf(ms, SumKey));
    DedupMembers(KeysOf(ms, SumKey));
    BySumIndicesNonEmpty(ms);
    OptimiseGroupsBlocks(gs, args);
    var blocks := Blocks(gs, args);
    forall i | 0 <= i < |blocks|
      ensures |blocks[i]| > 0 && forall y :: y in blocks[i] ==> SumKey(y) == keys[i]
    {
      assert gs[i].key == keys[i];
      BlockKeyed(gs[i].members, keys[i], args);
    }
    GroupsOfBlocks(blocks, SumKey, keys, {});
  }

  /** An optimised group sums to the same value as the group it came from. */
  lemma GroupIndexSumValue(k1: set<Index>, k2: set<Index>, members: seq<Monomial>, args: set<Index>, v: Valuation, rho: Assignment)
    requires |members| > 0 && OptimiseMonomials(members, args).Ok?
    ensures |OptimiseMonomials(members, args).value| > 0
    ensures Eval(GroupIndexSum(Group(k1, OptimiseMonomials(members, args).value)), v, rho) ==
            Eval(GroupIndexSum(Group(k2, members)), v, rho)
  {
    var block := OptimiseMonomials(members, args).value;
    var b1 := MakeSum(Products(block));
    var b2 := MakeSum(Products(members));
    forall r: Assignment ensures Eval(b1, v, r) == Eval(b2, v, r) {
      GroupBodyValue(block, v, r);
      GroupBodyValue(members, v, r);
      OptimiseMonomialsValue(members, args, v, r);
    }
    SumOverCongruent(b1, b2, members[0].sumIndices, v, rho);
  }

  /** Index sums over groups whose members were each optimised add up to
      the same value as the index sums over the original groups. */
  lemma IndexSumsValue(gs: seq<Group<set<Index>, Monomial>>, gs': seq<Group<set<Index>, Monomial>>, args: set<Index>, v: Valuation, rho: Assignment)
    requires |gs'| == |gs|
    requires forall i :: 0 <= i < |gs| ==> |gs[i].members| > 0 && OptimiseMonomials(gs[i].members, args).Ok?
    requires forall i :: 0 <= i < |gs| ==> gs'[i] == Group(gs[i].key, OptimiseMonomials(gs[i].members, args).value)
    ensures forall i :: 0 <= i < |gs'| ==> |gs'[i].members| > 0
    ensures Eval(MakeSum(IndexSums(gs')), v, rho) == Eval(MakeSum(IndexSums(gs)), v, rho)
  {
    forall i | 0 <= i < |gs| ensures |gs'[i].members| > 0 {
      GroupIndexSumValue(gs[i].key, gs[i].key, gs[i].members, args, v, rho);
    }
    forall i | 0 <= i < |gs|
      ensures Eval(IndexSums(gs')[i], v, rho) == Eval(IndexSums(gs)[i], v, rho)
    {
      GroupIndexSumValue(gs[i].key, gs[i].key, gs[i].members, args, v, rho);
    }
    assert EvalAll(IndexSums(gs'), v, rho) == EvalAll(IndexSums(gs), v, rho);
    EvalMakeSum(IndexSums(gs'), v, rho);
    EvalMakeSum(IndexSums(gs), v, rho);
  }

  /** `optimise_monomial_sum` returns an expression of the same value as the
      plain rebuild of the monomial sum, under every assignment of the
      indices. */
  lemma OptimiseMonomialSumValue(ms: seq<Monomial>, args: set<Index>, v: Valuation, rho: Assignment)
    requires OptimiseMonomialSum(ms, args).Ok?
    ensures Eval(OptimiseMonomialSum(ms, args).value, v, rho) == Eval(MonomialSumToExpression(ms), v, rho)
  {
    var gs := BySumIndices(ms);
    BySumIndicesNonEmpty(ms);
    RegroupBlocks(ms, args);
    OptimiseGroupsBlocks(gs, args);
    var nm := Concat(Blocks(gs, args));
    assert OptimiseMonomialSum(ms, args).value == MonomialSumToExpression(nm);
    IndexSumsValue(gs, BySumIndices(nm), args, v, rho);
  }

  /** When no monomial repeats a sum index, the optimised monomial sum
      denotes the sum of the monomials' own index sums. */
  lemma OptimiseMonomialSumTermsValue(ms: seq<Monomial>, args: set<Index>, v: Valuation, rho: Assignment)
    requires OptimiseMonomialSum(ms, args).Ok?
    requires forall i :: 0 <= i < |ms| ==> NoDup(ms[i].sumIndices)
    ensures Eval(OptimiseMonomialSum(ms, args).value, v, rho) == SumValue(ms, v, rho)
  {
    OptimiseMonomialSumValue(ms, args, v, rho);
    MonomialSumToExpressionValue(ms, v, rho);
  }

  /** `optimise_expressions` preserves the value of every expression, given
      that each monomial sum denotes its expression (what `collect_monomials`
      provides). */
  lemma OptimiseExpressionsValue(exprs: seq<Expr>, sums: seq<seq<Monomial>>, args: set<Index>, v: Valuation, rho: Assignment)
    requires |sums| == |exprs|
    requires forall i, r: Assignment :: 0 <= i < |exprs| ==> Eval(MonomialSumToExpression(sums[i]), v, r) == Eval(exprs[i], v, r)
    requires OptimiseExpressions(exprs, sums, args).Ok?
    ensures |OptimiseExpressions(exprs, sums, args).value| == |exprs|
    ensures forall i :: 0 <= i < |exprs| ==> Eval(OptimiseExpressions(exprs, sums, args).value[i], v, rho) == Eval(exprs[i], v, rho)
  {
    if !AnyFailure(exprs) {
      forall i | 0 <= i < |exprs|
        ensures Eval(OptimiseExpressions(exprs, sums, args).value[i], v, rho) == Eval(exprs[i], v, rho)
      {
        OptimiseMonomialSumValue(sums[i], args, v, rho);
      }
    }
  }
}
