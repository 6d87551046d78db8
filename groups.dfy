/** Grouping of a sequence by keys, as `gem.utils.groupby` is used by the
    optimiser: one group per distinct key, keys in order of first appearance,
    and the members of each group in input order. The key of `xs[i]` is given
    as `ks[i]`; `KeysOf` computes that sequence from a key function. */
module Groups {
  import opened Seqs

  function KeysOf<T, K>(xs: seq<T>, key: T -> K): (ks: seq<K>)
    ensures |ks| == |xs| && forall i :: 0 <= i < |xs| ==> ks[i] == key(xs[i])
  {
    seq(|xs|, i requires 0 <= i < |xs| => key(xs[i]))
  }

  /** The members of `xs` whose key is `k`, in input order. */
  function Select<T, K(==)>(xs: seq<T>, ks: seq<K>, k: K): seq<T>
    requires |xs| == |ks|
  {
    if xs == [] then []
    else (if ks[0] == k then [xs[0]] else []) + Select(xs[1..], ks[1..], k)
  }

  datatype Group<K, T> = Group(key: K, members: seq<T>)

  /** One group per key of `keys`, each holding the members with that key. */
  function GroupsOf<T, K(==)>(xs: seq<T>, ks: seq<K>, keys: seq<K>): (r: seq<Group<K, T>>)
    requires |xs| == |ks|
    ensures |r| == |keys|
    ensures forall i :: 0 <= i < |keys| ==> r[i] == Group(keys[i], Select(xs, ks, keys[i]))
  {
    seq(|keys|, i requires 0 <= i < |keys| => Group(keys[i], Select(xs, ks, keys[i])))
  }

  /** `groupby`: the groups of the distinct keys, in first-seen order. */
  function GroupBy<T, K(==)>(xs: seq<T>, ks: seq<K>): seq<Group<K, T>>
    requires |xs| == |ks|
  {
    GroupsOf(xs, ks, Dedup(ks))
  }

  /** Sum of a weight over a sequence. */
  function SumW<T>(xs: seq<T>, w: T -> int): int
  {
    if xs == [] then 0 else w(xs[0]) + SumW(xs[1..], w)
  }

  /** Sum of a weight over all the members of all the groups. */
  function SumGroups<K, T>(gs: seq<Group<K, T>>, w: T -> int): int
  {
    if gs == [] then 0 else SumW(gs[0].members, w) + SumGroups(gs[1..], w)
  }

  function MultisetGroups<K, T>(gs: seq<Group<K, T>>): multiset<T>
  {
    if gs == [] then multiset{} else multiset(gs[0].members) + MultisetGroups(gs[1..])
  }

  function TotalSize<K, T>(gs: seq<Group<K, T>>): nat
  {
    if gs == [] then 0 else |gs[0].members| + TotalSize(gs[1..])
  }

  lemma {:induction false} SumWAppend<T>(a: seq<T>, b: seq<T>, w: T -> int)
    ensures SumW(a + b, w) == SumW(a, w) + SumW(b, w)
  {
    if a == [] {
      assert a + b == b;
    } else {
      assert (a + b)[0] == a[0];
      assert (a + b)[1..] == a[1..] + b;
      SumWAppend(a[1..], b, w);
    }
  }

  /** Weights that agree on the elements give the same sum. */
  lemma {:induction false} SumWCongruent<T>(xs: seq<T>, w1: T -> int, w2: T -> int)
    requires forall x :: x in xs ==> w1(x) == w2(x)
    ensures SumW(xs, w1) == SumW(xs, w2)
  {
    if xs != [] {
      assert xs[0] in xs;
      assert forall x :: x in xs[1..] ==> x in xs;
      SumWCongruent(xs[1..], w1, w2);
    }
  }

  lemma {:induction false} SelectMembers<T, K>(xs: seq<T>, ks: seq<K>, k: K)
    requires |xs| == |ks|
    ensures forall y :: y in Select(xs, ks, k) ==> exists i :: 0 <= i < |xs| && xs[i] == y && ks[i] == k
  {
    if xs != [] {
      SelectMembers(xs[1..], ks[1..], k);
      forall y | y in Select(xs, ks, k) ensures exists i :: 0 <= i < |xs| && xs[i] == y && ks[i] == k {
        if ks[0] == k && y == xs[0] {
          assert xs[0] == y && ks[0] == k;
        } else {
          assert y in Select(xs[1..], ks[1..], k);
          var i :| 0 <= i < |xs[1..]| && xs[1..][i] == y && ks[1..][i] == k;
          assert xs[i + 1] == y && ks[i + 1] == k;
        }
      }
    }
  }

  lemma {:induction false} SelectNonEmpty<T, K>(xs: seq<T>, ks: seq<K>, k: K)
    requires |xs| == |ks| && k in ks
    ensures |Select(xs, ks, k)| > 0
  {
    if ks[0] != k {
      assert k in ks[1..] by {
        assert ks == [ks[0]] + ks[1..];
      }
      SelectNonEmpty(xs[1..], ks[1..], k);
    }
  }

  lemma {:induction false} SelectAbsent<T, K>(xs: seq<T>, ks: seq<K>, k: K)
    requires |xs| == |ks| && k !in ks
    ensures Select(xs, ks, k) == []
  {
    if xs != [] {
      assert ks[0] in ks;
      assert forall x :: x in ks[1..] ==> x in ks;
      SelectAbsent(xs[1..], ks[1..], k);
    }
  }

  lemma {:induction false} SelectAppend<T, K>(xs: seq<T>, ks: seq<K>, ys: seq<T>, ls: seq<K>, k: K)
    requires |xs| == |ks| && |ys| == |ls|
    ensures Select(xs + ys, ks + ls, k) == Select(xs, ks, k) + Select(ys, ls, k)
  {
    if xs == [] {
      assert xs + ys == ys && ks + ls == ls;
    } else {
      var h := if ks[0] == k then [xs[0]] else [];
      assert (xs + ys)[0] == xs[0] && (ks + ls)[0] == ks[0];
      assert (xs + ys)[1..] == xs[1..] + ys && (ks + ls)[1..] == ks[1..] + ls;
      SelectAppend(xs[1..], ks[1..], ys, ls, k);
      calc {
        Select(xs + ys, ks + ls, k);
        h + Select(xs[1..] + ys, ks[1..] + ls, k);
        h + (Select(xs[1..], ks[1..], k) + Select(ys, ls, k));
        (h + Select(xs[1..], ks[1..], k)) + Select(ys, ls, k);
      }
    }
  }

  /** When every key is `k`, the group of `k` is the whole input. */
  lemma {:induction false} SelectAll<T, K>(xs: seq<T>, ks: seq<K>, k: K)
    requires |xs| == |ks| && forall x :: x in ks ==> x == k
    ensures Select(xs, ks, k) == xs
  {
    if xs != [] {
      assert ks[0] in ks;
      assert forall x :: x in ks[1..] ==> x in ks;
      SelectAll(xs[1..], ks[1..], k);
      assert xs == [xs[0]] + xs[1..];
    }
  }

  /** Each group of `GroupBy` is non-empty and holds only members with its key. */
  lemma GroupByMembers<T, K>(xs: seq<T>, ks: seq<K>)
    requires |xs| == |ks|
    ensures forall i :: 0 <= i < |GroupBy(xs, ks)| ==>
      |GroupBy(xs, ks)[i].members| > 0 &&
      forall y :: y in GroupBy(xs, ks)[i].members ==>
        exists j :: 0 <= j < |xs| && xs[j] == y && ks[j] == GroupBy(xs, ks)[i].key
  {
    var gs := GroupBy(xs, ks);
    DedupMembers(ks);
    forall i | 0 <= i < |gs|
      ensures |gs[i].members| > 0
      ensures forall y :: y in gs[i].members ==> exists j :: 0 <= j < |xs| && xs[j] == y && ks[j] == gs[i].key
    {
      var k := Dedup(ks)[i];
      DedupMembers(ks);
      assert k in Dedup(ks);
      assert k in ks;
      SelectNonEmpty(xs, ks, Dedup(ks)[i]);
      SelectMembers(xs, ks, Dedup(ks)[i]);
    }
  }

  /** The groups come in the order in which their keys first occur. */
  lemma GroupByOrder<T, K>(xs: seq<T>, ks: seq<K>)
    requires |xs| == |ks|
    ensures forall i :: 0 <= i < |GroupBy(xs, ks)| ==> GroupBy(xs, ks)[i].key in ks
    ensures forall i, j :: 0 <= i < j < |GroupBy(xs, ks)| ==>
      FirstIndex(ks, GroupBy(xs, ks)[i].key) < FirstIndex(ks, GroupBy(xs, ks)[j].key)
  {
    DedupFirstSeen(ks);
  }

  /** Splitting off the first input element: it contributes to exactly the
      group of its own key, if that key is listed. */
  lemma {:induction false} SumGroupsCons<T, K>(xs: seq<T>, ks: seq<K>, keys: seq<K>, w: T -> int)
    requires |xs| == |ks| && xs != [] && NoDup(keys)
    ensures SumGroups(GroupsOf(xs, ks, keys), w) ==
      (if ks[0] in keys then w(xs[0]) else 0) + SumGroups(GroupsOf(xs[1..], ks[1..], keys), w)
  {
    if keys != [] {
      assert GroupsOf(xs, ks, keys)[1..] == GroupsOf(xs, ks, keys[1..]);
      assert GroupsOf(xs[1..], ks[1..], keys)[1..] == GroupsOf(xs[1..], ks[1..], keys[1..]);
      assert NoDup(keys[1..]) by {
        forall i, j | 0 <= i < j < |keys[1..]| ensures keys[1..][i] != keys[1..][j] {
          assert keys[1..][i] == keys[i + 1] && keys[1..][j] == keys[j + 1];
        }
      }
      SumGroupsCons(xs, ks, keys[1..], w);
      var head := if ks[0] == keys[0] then [xs[0]] else [];
      assert Select(xs, ks, keys[0]) == head + Select(xs[1..], ks[1..], keys[0]);
      SumWAppend(head, Select(xs[1..], ks[1..], keys[0]), w);
      assert SumW(head, w) == if ks[0] == keys[0] then w(xs[0]) else 0;
      assert ks[0] in keys <==> ks[0] == keys[0] || ks[0] in keys[1..];
      if ks[0] == keys[0] {
        assert ks[0] !in keys[1..] by {
          forall j | 0 <= j < |keys[1..]| ensures keys[1..][j] != keys[0] {
            assert keys[1..][j] == keys[j + 1];
          }
        }
      }
    }
  }

  lemma {:induction false} SumGroupsEmpty<T, K>(xs: seq<T>, ks: seq<K>, keys: seq<K>, w: T -> int)
    requires |xs| == |ks| && xs == []
    ensures SumGroups(GroupsOf(xs, ks, keys), w) == 0
  {
    if keys != [] {
      assert GroupsOf(xs, ks, keys)[1..] == GroupsOf(xs, ks, keys[1..]);
      SumGroupsEmpty(xs, ks, keys[1..], w);
    }
  }

  /** Grouping loses and duplicates nothing: any weight summed over the
      groups equals the weight summed over the input. */
  lemma {:induction false} SumGroupsPartition<T, K>(xs: seq<T>, ks: seq<K>, keys: seq<K>, w: T -> int)
    requires |xs| == |ks| && NoDup(keys) && forall k :: k in ks ==> k in keys
    ensures SumGroups(GroupsOf(xs, ks, keys), w) == SumW(xs, w)
  {
    if xs == [] {
      SumGroupsEmpty(xs, ks, keys, w);
    } else {
      assert ks[0] in ks;
      assert forall k :: k in ks[1..] ==> k in ks;
      SumGroupsCons(xs, ks, keys, w);
      SumGroupsPartition(xs[1..], ks[1..], keys, w);
    }
  }

  lemma {:induction false} MultisetGroupsCons<T, K>(xs: seq<T>, ks: seq<K>, keys: seq<K>)
    requires |xs| == |ks| && xs != [] && NoDup(keys)
    ensures MultisetGroups(GroupsOf(xs, ks, keys)) ==
      (if ks[0] in keys then multiset{xs[0]} else multiset{}) + MultisetGroups(GroupsOf(xs[1..], ks[1..], keys))
  {
    if keys != [] {
      assert GroupsOf(xs, ks, keys)[1..] == GroupsOf(xs, ks, keys[1..]);
      assert GroupsOf(xs[1..], ks[1..], keys)[1..] == GroupsOf(xs[1..], ks[1..], keys[1..]);
      assert NoDup(keys[1..]) by {
        forall i, j | 0 <= i < j < |keys[1..]| ensures keys[1..][i] != keys[1..][j] {
          assert keys[1..][i] == keys[i + 1] && keys[1..][j] == keys[j + 1];
        }
      }
      MultisetGroupsCons(xs, ks, keys[1..]);
      var head := if ks[0] == keys[0] then [xs[0]] else [];
      assert Select(xs, ks, keys[0]) == head + Select(xs[1..], ks[1..], keys[0]);
      assert ks[0] in keys <==> ks[0] == keys[0] || ks[0] in keys[1..];
      if ks[0] == keys[0] {
        assert ks[0] !in keys[1..] by {
          forall j | 0 <= j < |keys[1..]| ensures keys[1..][j] != keys[0] {
            assert keys[1..][j] == keys[j + 1];
          }
        }
      }
    }
  }

  lemma {:induction false} MultisetGroupsEmpty<T, K>(xs: seq<T>, ks: seq<K>, keys: seq<K>)
    requires |xs| == |ks| && xs == []
    ensures MultisetGroups(GroupsOf(xs, ks, keys)) == multiset{}
  {
    if keys != [] {
      assert GroupsOf(xs, ks, keys)[1..] == GroupsOf(xs, ks, keys[1..]);
      MultisetGroupsEmpty(xs, ks, keys[1..]);
    }
  }

  lemma {:induction false} MultisetGroupsPartition<T, K>(xs: seq<T>, ks: seq<K>, keys: seq<K>)
    requires |xs| == |ks| && NoDup(keys) && forall k :: k in ks ==> k in keys
    ensures MultisetGroups(GroupsOf(xs, ks, keys)) == multiset(xs)
  {
    if xs == [] {
      MultisetGroupsEmpty(xs, ks, keys);
    } else {
      assert ks[0] in ks;
      forall k | k in ks[1..] ensures k in keys {
        assert k in ks;
      }
      MultisetGroupsCons(xs, ks, keys);
      MultisetGroupsPartition(xs[1..], ks[1..], keys);
      var rest := MultisetGroups(GroupsOf(xs[1..], ks[1..], keys));
      assert MultisetGroups(GroupsOf(xs, ks, keys)) == multiset{xs[0]} + rest;
      assert xs == [xs[0]] + xs[1..];
      assert multiset(xs) == multiset{xs[0]} + multiset(xs[1..]);
    }
  }

  lemma {:induction false} TotalSizeIsMultisetSize<K, T>(gs: seq<Group<K, T>>)
    ensures TotalSize(gs) == |MultisetGroups(gs)|
  {
    if gs != [] {
      TotalSizeIsMultisetSize(gs[1..]);
    }
  }

  /** `groupby` is a partition of its input: as a multiset the groups hold
      exactly the input, so their sizes add up to the input's length. */
  lemma GroupByPartition<T, K>(xs: seq<T>, ks: seq<K>)
    requires |xs| == |ks|
    ensures MultisetGroups(GroupBy(xs, ks)) == multiset(xs)
    ensures TotalSize(GroupBy(xs, ks)) == |xs|
  {
    DedupMembers(ks);
    MultisetGroupsPartition(xs, ks, Dedup(ks));
    TotalSizeIsMultisetSize(GroupBy(xs, ks));
  }

  lemma {:induction false} KeysOfAppend<T, K>(a: seq<T>, b: seq<T>, key: T -> K)
    ensures KeysOf(a + b, key) == KeysOf(a, key) + KeysOf(b, key)
  {
  }

  /** Grouping a concatenation of blocks, where block `i` is non-empty and all
      its members have key `keys[i]` and the keys are distinct, gives back the
      blocks, in order. */
  lemma {:induction false} GroupsOfBlocks<T, K>(blocks: seq<seq<T>>, key: T -> K, keys: seq<K>, seen: set<K>)
    requires |blocks| == |keys| && NoDup(keys)
    requires forall i :: 0 <= i < |keys| ==> keys[i] !in seen
    requires forall i :: 0 <= i < |blocks| ==> |blocks[i]| > 0 && forall y :: y in blocks[i] ==> key(y) == keys[i]
    ensures forall k :: k in KeysOf(Concat(blocks), key) ==> k in keys
    ensures DedupFrom(KeysOf(Concat(blocks), key), seen) == keys
    ensures forall i :: 0 <= i < |keys| ==>
      Select(Concat(blocks), KeysOf(Concat(blocks), key), keys[i]) == blocks[i]
  {
    if blocks != [] {
      var b0, rest := blocks[0], Concat(blocks[1..]);
      var kb, kr := KeysOf(b0, key), KeysOf(rest, key);
      KeysOfAppend(b0, rest, key);
      assert Concat(blocks) == b0 + rest;
      assert NoDup(keys[1..]) by {
        forall i, j | 0 <= i < j < |keys[1..]| ensures keys[1..][i] != keys[1..][j] {
          assert keys[1..][i] == keys[i + 1] && keys[1..][j] == keys[j + 1];
        }
      }
      forall i | 0 <= i < |keys[1..]| ensures keys[1..][i] !in seen + {keys[0]} {
        assert keys[1..][i] == keys[i + 1];
      }
      forall i | 0 <= i < |blocks[1..]|
        ensures |blocks[1..][i]| > 0 && forall y :: y in blocks[1..][i] ==> key(y) == keys[1..][i]
      {
        assert blocks[1..][i] == blocks[i + 1] && keys[1..][i] == keys[i + 1];
      }
      GroupsOfBlocks(blocks[1..], key, keys[1..], seen + {keys[0]});
      forall x | x in kb ensures x == keys[0] {
        var i :| 0 <= i < |kb| && kb[i] == x;
        assert b0[i] in b0;
      }
      DedupFromBlock(kb, keys[0], kr, seen);
      forall k | k in kb + kr ensures k in keys {
        if k in kr {
          assert k in keys[1..];
        }
      }
      assert keys[0] !in kr by {
        forall j | 0 <= j < |keys[1..]| ensures keys[1..][j] != keys[0] {
          assert keys[1..][j] == keys[j + 1];
        }
      }
      SelectAll(b0, kb, keys[0]);
      SelectAbsent(rest, kr, keys[0]);
      SelectAppend(b0, kb, rest, kr, keys[0]);
      assert keys == [keys[0]] + keys[1..];
      forall i | 0 <= i < |keys| ensures Select(b0 + rest, kb + kr, keys[i]) == blocks[i] {
        SelectAppend(b0, kb, rest, kr, keys[i]);
        if i > 0 {
          assert keys[i] == keys[1..][i - 1] && blocks[i] == blocks[1..][i - 1];
          assert keys[i] != keys[0];
          SelectAbsent(b0, kb, keys[i]);
        }
      }
    }
  }
}
