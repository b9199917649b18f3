/**
 * The order sort.Strings uses: lexicographic comparison of strings, a proper
 * prefix first, otherwise the first differing character decides. Insertion
 * sort stands for the library sort; what matters of it is that its result is
 * sorted, is a permutation of its input, and is the only such sequence.
 */
module LexOrder {

  predicate LessEq(a: string, b: string) {
    if a == [] then true
    else if b == [] then false
    else if a[0] != b[0] then a[0] < b[0]
    else LessEq(a[1..], b[1..])
  }

  lemma {:induction false} LessEqReflexive(a: string)
    ensures LessEq(a, a)
  {
    if a != [] {
      LessEqReflexive(a[1..]);
    }
  }

  lemma {:induction false} LessEqAntisymmetric(a: string, b: string)
    requires LessEq(a, b) && LessEq(b, a)
    ensures a == b
  {
    if a != [] && b != [] {
      LessEqAntisymmetric(a[1..], b[1..]);
      assert a == [a[0]] + a[1..] && b == [b[0]] + b[1..];
    }
  }

  lemma {:induction false} LessEqTransitive(a: string, b: string, c: string)
    requires LessEq(a, b) && LessEq(b, c)
    ensures LessEq(a, c)
  {
    if a != [] && b != [] && c != [] && a[0] == b[0] == c[0] {
      LessEqTransitive(a[1..], b[1..], c[1..]);
    }
  }

  lemma {:induction false} LessEqTotal(a: string, b: string)
    ensures LessEq(a, b) || LessEq(b, a)
  {
    if a != [] && b != [] && a[0] == b[0] {
      LessEqTotal(a[1..], b[1..]);
    }
  }

  predicate Sorted(s: seq<string>) {
    forall i, j :: 0 <= i < j < |s| ==> LessEq(s[i], s[j])
  }

  /** Places x before the first element it does not exceed. */
  function Insert(x: string, s: seq<string>): (r: seq<string>)
    ensures multiset(r) == multiset(s) + multiset{x}
  {
    if s == [] then [x]
    else if LessEq(x, s[0]) then [x] + s
    else assert s == [s[0]] + s[1..]; [s[0]] + Insert(x, s[1..])
  }

  /** The sorted rearrangement of s. */
  function Sort(s: seq<string>): (r: seq<string>)
    ensures multiset(r) == multiset(s)
  {
    if s == [] then [] else assert s == [s[0]] + s[1..]; Insert(s[0], Sort(s[1..]))
  }

  predicate AllAtLeast(y: string, s: seq<string>) {
    forall e :: e in s ==> LessEq(y, e)
  }

  lemma SortedCons(h: string, t: seq<string>)
    requires AllAtLeast(h, t) && Sorted(t)
    ensures Sorted([h] + t)
  {
    var r := [h] + t;
    forall i, j | 0 <= i < j < |r|
      ensures LessEq(r[i], r[j])
    {
      if i == 0 {
        assert r[j] == t[j - 1];
        assert r[j] in t;
      } else {
        assert r[i] == t[i - 1] && r[j] == t[j - 1];
      }
    }
  }

  lemma SortedHead(s: seq<string>)
    requires Sorted(s) && s != []
    ensures AllAtLeast(s[0], s[1..]) && Sorted(s[1..])
  {
    forall e | e in s[1..]
      ensures LessEq(s[0], e)
    {
      var k :| 0 <= k < |s[1..]| && s[1..][k] == e;
      assert s[k + 1] == e;
    }
    forall i, j | 0 <= i < j < |s[1..]|
      ensures LessEq(s[1..][i], s[1..][j])
    {
      assert s[1..][i] == s[i + 1] && s[1..][j] == s[j + 1];
    }
  }

  lemma {:induction false} InsertSorted(x: string, s: seq<string>)
    requires Sorted(s)
    ensures Sorted(Insert(x, s))
  {
    if s == [] {
    } else {
      SortedHead(s);
      if LessEq(x, s[0]) {
        forall e | e in s
          ensures LessEq(x, e)
        {
          if e != s[0] {
            assert e in s[1..] by { assert s == [s[0]] + s[1..]; }
            LessEqTransitive(x, s[0], e);
          }
        }
        SortedCons(x, s);
      } else {
        InsertSorted(x, s[1..]);
        var t := Insert(x, s[1..]);
        LessEqTotal(x, s[0]);
        forall e | e in t
          ensures LessEq(s[0], e)
        {
          assert e in multiset(t);
        }
        SortedCons(s[0], t);
      }
    }
  }

  /** Sort's result is in order. */
  lemma {:induction false} SortSorted(s: seq<string>)
    ensures Sorted(Sort(s))
  {
    if s != [] {
      SortSorted(s[1..]);
      InsertSorted(s[0], Sort(s[1..]));
    }
  }

  /** Two sorted arrangements of one multiset start with the same string. */
  lemma SortedSameHead(a: seq<string>, b: seq<string>)
    requires Sorted(a) && Sorted(b) && a != []
    requires multiset(a) == multiset(b)
    ensures b != [] && a[0] == b[0]
  {
    assert a[0] in multiset(b);
    var i :| 0 <= i < |b| && b[i] == a[0];
    assert b[0] in multiset(a);
    var j :| 0 <= j < |a| && a[j] == b[0];
    if i > 0 { assert LessEq(b[0], b[i]); } else { LessEqReflexive(b[0]); }
    if j > 0 { assert LessEq(a[0], a[j]); } else { LessEqReflexive(a[0]); }
    LessEqAntisymmetric(a[0], b[0]);
  }

  lemma TailMultiset(s: seq<string>)
    requires s != []
    ensures multiset(s[1..]) == multiset(s) - multiset{s[0]}
  {
    assert s == [s[0]] + s[1..];
  }

  /** Two sorted sequences holding the same strings are equal. */
  lemma {:induction false} SortedUnique(a: seq<string>, b: seq<string>)
    requires Sorted(a) && Sorted(b)
    requires multiset(a) == multiset(b)
    ensures a == b
    decreases |a|
  {
    assert |a| == |multiset(a)| == |multiset(b)| == |b|;
    if a != [] {
      SortedSameHead(a, b);
      TailMultiset(a);
      TailMultiset(b);
      SortedHead(a);
      SortedHead(b);
      SortedUnique(a[1..], b[1..]);
      assert a == [a[0]] + a[1..] && b == [b[0]] + b[1..];
    }
  }

  /** Sorting forgets the order of its input: only the multiset of strings matters. */
  lemma SortPermutationInvariant(a: seq<string>, b: seq<string>)
    requires multiset(a) == multiset(b)
    ensures Sort(a) == Sort(b)
  {
    SortSorted(a);
    SortSorted(b);
    SortedUnique(Sort(a), Sort(b));
  }

  lemma SortPair(a: string, b: string)
    ensures Sort([a, b]) == if LessEq(a, b) then [a, b] else [b, a]
  {
    assert [a, b][1..] == [b];
    assert Sort([b]) == [b] by {
      assert [b][1..] == [];
    }
    if LessEq(a, b) {
      assert Insert(a, [b]) == [a] + [b];
    } else {
      assert [b][1..] == [];
      assert Insert(a, [b]) == [b] + Insert(a, []);
    }
  }
}
