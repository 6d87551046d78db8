/** Sequence helpers shared by the model: set views, duplicate-free sequences,
    first-seen de-duplication (what `OrderedDict.fromkeys` computes), filters,
    subsequences and integer sums and products. */
module Seqs {

  function AsSet<T>(s: seq<T>): set<T>
  {
    set x | x in s
  }

  lemma AsSetEmpty<T>(s: seq<T>)
    ensures AsSet(s) == {} <==> s == []
  {
    assert s != [] ==> s[0] in AsSet(s);
  }

  predicate NoDup<T(==)>(s: seq<T>)
  {
    forall i, j :: 0 <= i < j < |s| ==> s[i] != s[j]
  }

  /** Position of the first occurrence of `x` in `s`. */
  function FirstIndex<T(==)>(s: seq<T>, x: T): (i: nat)
    requires x in s
    ensures i < |s| && s[i] == x && x !in s[..i]
  {
    if s[0] == x then 0
    else
      assert s == [s[0]] + s[1..];
      var j := FirstIndex(s[1..], x);
      assert s[..1 + j] == [s[0]] + s[1..][..j];
      1 + j
  }

  /** Cutting one element out of a duplicate-free sequence leaves a
      duplicate-free sequence of the other elements. */
  lemma NoDupCut<T>(s: seq<T>, i: nat)
    requires NoDup(s) && i < |s|
    ensures NoDup(s[..i] + s[i + 1..])
    ensures AsSet(s[..i] + s[i + 1..]) == AsSet(s) - {s[i]}
  {
    var r := s[..i] + s[i + 1..];
    forall j | 0 <= j < |r| ensures r[j] == s[if j < i then j else j + 1] {
    }
    forall x | x in AsSet(s) - {s[i]} ensures x in AsSet(r) {
      var j :| 0 <= j < |s| && s[j] == x;
      assert r[if j < i then j else j - 1] == x;
    }
  }

  /** A duplicate-free sequence without its head. */
  lemma NoDupTail<T>(s: seq<T>)
    requires NoDup(s) && s != []
    ensures NoDup(s[1..]) && AsSet(s[1..]) == AsSet(s) - {s[0]}
  {
    NoDupCut(s, 0);
    assert s[..0] + s[1..] == s[1..];
  }

  /** The elements of `s` not in `seen`, each once, in order of first
      appearance: one pass that remembers what it has already emitted. */
  function DedupFrom<T(==)>(s: seq<T>, seen: set<T>): seq<T>
    decreases |s|
  {
    if s == [] then []
    else if s[0] in seen then DedupFrom(s[1..], seen)
    else [s[0]] + DedupFrom(s[1..], seen + {s[0]})
  }

  lemma NoMembersEmpty<T>(s: seq<T>)
    ensures (forall x :: x !in s) ==> s == []
  {
    if s != [] {
      assert s[0] in s;
    }
  }

  function Dedup<T(==)>(s: seq<T>): seq<T>
  {
    DedupFrom(s, {})
  }

  lemma {:induction false} DedupFromMembers<T>(s: seq<T>, seen: set<T>)
    ensures NoDup(DedupFrom(s, seen))
    ensures forall x :: x in DedupFrom(s, seen) ==> x in s && x !in seen
    ensures forall x :: x in s && x !in seen ==> x in DedupFrom(s, seen)
    decreases |s|
  {
    if s != [] {
      if s[0] in seen {
        DedupFromMembers(s[1..], seen);
        forall x ensures x in DedupFrom(s, seen) <==> x in s && x !in seen {
          assert x in s <==> x == s[0] || x in s[1..];
        }
      } else {
        DedupFromMembers(s[1..], seen + {s[0]});
        var r := DedupFrom(s[1..], seen + {s[0]});
        assert DedupFrom(s, seen) == [s[0]] + r;
        forall x ensures x in DedupFrom(s, seen) <==> x in s && x !in seen {
          assert x in s <==> x == s[0] || x in s[1..];
        }
      }
    }
  }

  /** `Dedup` has no duplicates and keeps exactly the elements of its input. */
  lemma DedupMembers<T>(s: seq<T>)
    ensures NoDup(Dedup(s))
    ensures forall x :: x in Dedup(s) ==> x in s
    ensures forall x :: x in s ==> x in Dedup(s)
  {
    DedupFromMembers(s, {});
  }

  lemma FirstIndexShift<T>(s: seq<T>, y: T)
    requires y in s && y != s[0]
    ensures y in s[1..] && FirstIndex(s, y) == 1 + FirstIndex(s[1..], y)
  {
    assert s == [s[0]] + s[1..];
  }

  /** Keys come out in order of first appearance in the input. */
  lemma {:induction false} DedupFromFirstSeen<T>(s: seq<T>, seen: set<T>)
    ensures forall x :: x in DedupFrom(s, seen) ==> x in s
    ensures forall i, j :: 0 <= i < j < |DedupFrom(s, seen)| ==>
      FirstIndex(s, DedupFrom(s, seen)[i]) < FirstIndex(s, DedupFrom(s, seen)[j])
    decreases |s|
  {
    DedupFromMembers(s, seen);
    if s != [] {
      if s[0] in seen {
        DedupFromTailFirstSeen(s, seen, seen);
      } else {
        DedupFromTailFirstSeen(s, seen, seen + {s[0]});
        var r := DedupFrom(s[1..], seen + {s[0]});
        var d := DedupFrom(s, seen);
        assert d == [s[0]] + r;
        forall i, j | 0 <= i < j < |d| ensures FirstIndex(s, d[i]) < FirstIndex(s, d[j]) {
          assert d[j] == r[j - 1];
          if i > 0 {
            assert d[i] == r[i - 1];
          }
        }
      }
    }
  }

  /** The tail's keys avoid the head (it is in `seen'`) and keep their order
      when positions are counted in the whole sequence. */
  lemma {:induction false} DedupFromTailFirstSeen<T>(s: seq<T>, seen: set<T>, seen': set<T>)
    requires s != [] && s[0] in seen'
    ensures forall x :: x in DedupFrom(s[1..], seen') ==> x in s && x != s[0]
    ensures forall i, j :: 0 <= i < j < |DedupFrom(s[1..], seen')| ==>
      FirstIndex(s, DedupFrom(s[1..], seen')[i]) < FirstIndex(s, DedupFrom(s[1..], seen')[j])
    decreases |s|, 0
  {
    DedupFromFirstSeen(s[1..], seen');
    DedupFromMembers(s[1..], seen');
    var r := DedupFrom(s[1..], seen');
    forall x | x in r ensures x in s && x != s[0] {
      assert x in s[1..];
    }
    forall i, j | 0 <= i < j < |r| ensures FirstIndex(s, r[i]) < FirstIndex(s, r[j]) {
      FirstIndexShift(s, r[i]);
      FirstIndexShift(s, r[j]);
    }
  }

  lemma DedupFirstSeen<T>(s: seq<T>)
    ensures forall x :: x in Dedup(s) ==> x in s
    ensures forall i, j :: 0 <= i < j < |Dedup(s)| ==>
      FirstIndex(s, Dedup(s)[i]) < FirstIndex(s, Dedup(s)[j])
  {
    DedupFromFirstSeen(s, {});
  }

  /** A leading block of one repeated key contributes that key once. */
  lemma {:induction false} DedupFromBlock<T>(block: seq<T>, k: T, rest: seq<T>, seen: set<T>)
    requires |block| > 0 && forall x :: x in block ==> x == k
    requires k !in seen
    ensures DedupFrom(block + rest, seen) == [k] + DedupFrom(rest, seen + {k})
  {
    assert block[0] in block;
    assert (block + rest)[0] == k;
    assert (block + rest)[1..] == block[1..] + rest;
    forall x | x in block[1..] ensures x in seen + {k} {
      assert x in block;
    }
    DedupFromSkipSeen(block[1..], rest, seen + {k});
  }

  lemma {:induction false} DedupFromSkipSeen<T>(prefix: seq<T>, rest: seq<T>, seen: set<T>)
    requires forall x :: x in prefix ==> x in seen
    ensures DedupFrom(prefix + rest, seen) == DedupFrom(rest, seen)
    decreases |prefix|
  {
    if prefix != [] {
      assert (prefix + rest)[0] == prefix[0];
      assert (prefix + rest)[1..] == prefix[1..] + rest;
      DedupFromSkipSeen(prefix[1..], rest, seen);
    } else {
      assert prefix + rest == rest;
    }
  }

  /** The elements of `s` that lie in `p`, in order (a filter). */
  function Keep<T>(s: seq<T>, p: set<T>): seq<T>
  {
    if s == [] then []
    else if s[0] in p then [s[0]] + Keep(s[1..], p)
    else Keep(s[1..], p)
  }

  /** The elements of `s` that do not lie in `p`, in order. */
  function Drop<T>(s: seq<T>, p: set<T>): seq<T>
  {
    if s == [] then []
    else if s[0] in p then Drop(s[1..], p)
    else [s[0]] + Drop(s[1..], p)
  }

  /** `Drop` keeps exactly the elements outside `p`, and no duplicates
      appear. */
  lemma {:induction false} DropProperties<T>(s: seq<T>, p: set<T>)
    ensures forall x :: x in Drop(s, p) <==> x in s && x !in p
    ensures NoDup(s) ==> NoDup(Drop(s, p))
  {
    if s != [] {
      DropProperties(s[1..], p);
      assert forall x :: x in s <==> x == s[0] || x in s[1..];
      if NoDup(s) && s[0] !in p {
        NoDupTail(s);
        var r := Drop(s[1..], p);
        assert s[0] !in r;
        forall i, j | 0 <= i < j < |[s[0]] + r| ensures ([s[0]] + r)[i] != ([s[0]] + r)[j] {
          assert ([s[0]] + r)[j] == r[j - 1];
          if i > 0 {
            assert ([s[0]] + r)[i] == r[i - 1];
          }
        }
      } else if NoDup(s) {
        NoDupTail(s);
      }
    }
  }

  /** `a` is obtained from `b` by deleting elements. */
  predicate Subsequence<T(==)>(a: seq<T>, b: seq<T>)
    decreases |b|
  {
    if a == [] then true
    else if b == [] then false
    else if a[0] == b[0] then Subsequence(a[1..], b[1..])
    else Subsequence(a, b[1..])
  }

  lemma {:induction false} KeepProperties<T>(s: seq<T>, p: set<T>)
    ensures forall x :: x in Keep(s, p) <==> x in s && x in p
    ensures Subsequence(Keep(s, p), s)
    ensures NoDup(s) ==> NoDup(Keep(s, p))
  {
    if s != [] {
      KeepProperties(s[1..], p);
      assert forall x :: x in s <==> x == s[0] || x in s[1..];
      if s[0] in p {
        var r := Keep(s[1..], p);
        assert Keep(s, p) == [s[0]] + r;
        assert ([s[0]] + r)[1..] == r;
        if NoDup(s) {
          assert NoDup(s[1..]) by {
            forall i, j | 0 <= i < j < |s[1..]| ensures s[1..][i] != s[1..][j] {
              assert s[1..][i] == s[i + 1] && s[1..][j] == s[j + 1];
            }
          }
          assert s[0] !in s[1..] by {
            forall j | 0 <= j < |s[1..]| ensures s[1..][j] != s[0] {
              assert s[1..][j] == s[j + 1];
            }
          }
          forall i, j | 0 <= i < j < |[s[0]] + r| ensures ([s[0]] + r)[i] != ([s[0]] + r)[j] {
            assert ([s[0]] + r)[j] == r[j - 1];
            if i > 0 {
              assert ([s[0]] + r)[i] == r[i - 1];
            }
          }
        }
      } else {
        SubsequenceSkip(Keep(s[1..], p), s);
        if NoDup(s) {
          assert NoDup(s[1..]) by {
            forall i, j | 0 <= i < j < |s[1..]| ensures s[1..][i] != s[1..][j] {
              assert s[1..][i] == s[i + 1] && s[1..][j] == s[j + 1];
            }
          }
        }
      }
    }
  }

  /** A subsequence of the tail is a subsequence of the whole. */
  lemma {:induction false} SubsequenceSkip<T>(a: seq<T>, b: seq<T>)
    requires b != [] && Subsequence(a, b[1..])
    ensures Subsequence(a, b)
    decreases |b|, |a|, 0
  {
    if a != [] && a[0] == b[0] {
      // Subsequence(a, b) reduces to Subsequence(a[1..], b[1..]), implied by
      // Subsequence(a, b[1..]) because dropping a head keeps a subsequence.
      SubsequenceDropHead(a, b[1..]);
    }
  }

  lemma {:induction false} SubsequenceDropHead<T>(a: seq<T>, b: seq<T>)
    requires a != [] && Subsequence(a, b)
    ensures Subsequence(a[1..], b)
    decreases |b|, |a|, 1
  {
    if a[0] == b[0] {
      if a[1..] != [] {
        SubsequenceSkip(a[1..], b);
      }
    } else {
      SubsequenceDropHead(a, b[1..]);
      if a[1..] != [] {
        SubsequenceSkip(a[1..], b);
      }
    }
  }

  /** Keeping every element of a sequence keeps the whole sequence. */
  lemma {:induction false} KeepAll<T>(s: seq<T>, p: set<T>)
    requires forall x :: x in s ==> x in p
    ensures Keep(s, p) == s
  {
    if s != [] {
      assert s[0] in s;
      forall x | x in s[1..] ensures x in p {
        assert x in s;
      }
      KeepAll(s[1..], p);
      assert s == [s[0]] + s[1..];
    }
  }

  function Concat<T>(ss: seq<seq<T>>): seq<T>
  {
    if ss == [] then [] else ss[0] + Concat(ss[1..])
  }

  function SumInts(s: seq<int>): int
  {
    if s == [] then 0 else s[0] + SumInts(s[1..])
  }

  function ProdInts(s: seq<int>): int
  {
    if s == [] then 1 else s[0] * ProdInts(s[1..])
  }

  lemma {:induction false} SumIntsAppend(a: seq<int>, b: seq<int>)
    ensures SumInts(a + b) == SumInts(a) + SumInts(b)
  {
    if a == [] {
      assert a + b == b;
    } else {
      assert (a + b)[0] == a[0];
      assert (a + b)[1..] == a[1..] + b;
      SumIntsAppend(a[1..], b);
    }
  }

  /** The last term of a sum can be split off. */
  lemma SumIntsSnoc(f: int -> int, n: nat)
    ensures SumInts(seq(n + 1, f)) == SumInts(seq(n, f)) + f(n)
  {
    assert seq(n + 1, f) == seq(n, f) + [f(n)];
    SumIntsAppend(seq(n, f), [f(n)]);
    assert SumInts([f(n)]) == f(n) + SumInts([]);
  }

  /** A sum of pointwise sums is the sum of the two sums. */
  lemma {:induction false} SumIntsAdd(f: int -> int, g: int -> int, h: int -> int, n: nat)
    requires forall k :: 0 <= k < n ==> h(k) == f(k) + g(k)
    ensures SumInts(seq(n, h)) == SumInts(seq(n, f)) + SumInts(seq(n, g))
  {
    if n > 0 {
      SumIntsAdd(f, g, h, n - 1);
      SumIntsSnoc(f, n - 1);
      SumIntsSnoc(g, n - 1);
      SumIntsSnoc(h, n - 1);
    }
  }

  /** A sum of zeros is zero. */
  lemma {:induction false} SumIntsZero(f: int -> int, n: nat)
    requires forall k :: 0 <= k < n ==> f(k) == 0
    ensures SumInts(seq(n, f)) == 0
  {
    if n > 0 {
      SumIntsZero(f, n - 1);
      SumIntsSnoc(f, n - 1);
    }
  }

  /** The order of a double summation over two ranges does not matter:
      `rows(k)` sums the entries `a(k)(l)` over `l < m`, `cols(l)` sums the
      same entries over `k < n`. */
  lemma {:induction false} SumIntsSwap(a: int -> int -> int, n: nat, m: nat, rows: int -> int, cols: int -> int)
    requires forall k :: 0 <= k < n ==> rows(k) == SumInts(seq(m, a(k)))
    requires forall l :: 0 <= l < m ==> cols(l) == SumInts(seq(n, (k: int) => a(k)(l)))
    ensures SumInts(seq(n, rows)) == SumInts(seq(m, cols))
  {
    if n == 0 {
      forall l | 0 <= l < m ensures cols(l) == 0 {
        assert seq(n, (k: int) => a(k)(l)) == [];
      }
      SumIntsZero(cols, m);
    } else {
      var cols' := (l: int) => SumInts(seq(n - 1, (k: int) => a(k)(l)));
      SumIntsSwap(a, n - 1, m, rows, cols');
      SumIntsSnoc(rows, n - 1);
      ColumnsSnoc(a, n - 1, m, cols, cols');
      SumIntsAdd(cols', a(n - 1), cols, m);
    }
  }

  lemma ColumnsSnoc(a: int -> int -> int, n: nat, m: nat, cols: int -> int, cols': int -> int)
    requires forall l :: 0 <= l < m ==> cols(l) == SumInts(seq(n + 1, (k: int) => a(k)(l)))
    requires forall l :: 0 <= l < m ==> cols'(l) == SumInts(seq(n, (k: int) => a(k)(l)))
    ensures forall l :: 0 <= l < m ==> cols(l) == cols'(l) + a(n)(l)
  {
    forall l | 0 <= l < m ensures cols(l) == cols'(l) + a(n)(l) {
      SumIntsSnoc((k: int) => a(k)(l), n);
    }
  }

  lemma {:induction false} ProdIntsAppend(a: seq<int>, b: seq<int>)
    ensures ProdInts(a + b) == ProdInts(a) * ProdInts(b)
  {
    if a == [] {
      assert a + b == b;
    } else {
      assert (a + b)[0] == a[0];
      assert (a + b)[1..] == a[1..] + b;
      ProdIntsAppend(a[1..], b);
    }
  }

  /** Taking one factor out of a product. */
  lemma {:induction false} ProdIntsRemove(s: seq<int>, i: nat)
    requires i < |s|
    ensures ProdInts(s) == s[i] * ProdInts(s[..i] + s[i + 1..])
  {
    if i == 0 {
      assert s[..0] + s[1..] == s[1..];
    } else {
      var t := s[1..];
      ProdIntsRemove(t, i - 1);
      var r := t[..i - 1] + t[i..];
      assert s[..i] + s[i + 1..] == [s[0]] + r;
      assert ([s[0]] + r)[1..] == r;
      MulSwap(s[0], s[i], ProdInts(r));
    }
  }

  // Ring facts the solver does not find on its own among larger terms.

  lemma MulSwap(x: int, y: int, z: int)
    ensures x * (y * z) == y * (x * z)
  {
  }

  lemma MulAssoc(x: int, y: int, z: int)
    ensures (x * y) * z == x * (y * z)
  {
  }

  lemma MulDistrib(x: int, a: int, b: int)
    ensures x * a + x * b == x * (a + b)
  {
  }

  /** An element of a concatenation comes from one of the parts, and back. */
  lemma {:induction false} ConcatMembers<T>(ss: seq<seq<T>>)
    ensures forall x :: x in Concat(ss) ==> exists i :: 0 <= i < |ss| && x in ss[i]
    ensures forall i, x :: 0 <= i < |ss| && x in ss[i] ==> x in Concat(ss)
  {
    if ss != [] {
      ConcatMembers(ss[1..]);
      forall x | x in Concat(ss) ensures exists i :: 0 <= i < |ss| && x in ss[i] {
        if x !in ss[0] {
          assert Concat(ss) == ss[0] + Concat(ss[1..]);
          assert x in Concat(ss[1..]);
          var i :| 0 <= i < |ss[1..]| && x in ss[1..][i];
          assert x in ss[i + 1];
        }
      }
      forall i, x | 0 <= i < |ss| && x in ss[i] ensures x in Concat(ss) {
        if i > 0 {
          assert x in ss[1..][i - 1];
        }
      }
    }
  }
}
