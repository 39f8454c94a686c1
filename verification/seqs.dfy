/**
 * The JavaScript array operations the view model is written with, as functions on
 * sequences: `indexOf`, `splice(start, 1)` and the `splice(indexOf(x), 1)` idiom, plus
 * `Except`, the order-preserving filter that `Array.prototype.filter` amounts to.
 */
module Seqs {

  /** Every element occurs at most once: the head is not repeated in the tail, and so on. */
  predicate NoDups<T(==)>(s: seq<T>) {
    s == [] || (s[0] !in s[1..] && NoDups(s[1..]))
  }

  /** Two different positions of a duplicate-free sequence hold different elements. */
  lemma {:induction false} NoDupsDistinct<T>(s: seq<T>, i: nat, j: nat)
    requires NoDups(s) && i < j < |s|
    ensures s[i] != s[j]
  {
    if i == 0 {
      assert s[j] == s[1..][j - 1];
    } else {
      NoDupsDistinct(s[1..], i - 1, j - 1);
    }
  }

  /** A sequence whose positions hold pairwise different elements has no duplicates. */
  lemma {:induction false} DistinctNoDups<T>(s: seq<T>)
    requires forall i, j :: 0 <= i < j < |s| ==> s[i] != s[j]
    ensures NoDups(s)
  {
    if s != [] {
      forall k | 0 <= k < |s[1..]| ensures s[1..][k] != s[0] {
        assert s[1..][k] == s[k + 1];
      }
      DistinctNoDups(s[1..]);
    }
  }

  /** `Array.prototype.indexOf`: the first position of `x` in `s`, or -1 when it is absent. */
  function IndexOf<T(==)>(s: seq<T>, x: T): (i: int)
    ensures -1 <= i < |s|
    ensures i == -1 <==> x !in s
    ensures 0 <= i ==> s[i] == x && x !in s[..i]
  {
    if s == [] then -1
    else if s[0] == x then 0
    else
      var k := IndexOf(s[1..], x);
      if k == -1 then -1
      else
        assert s[..k + 1] == [s[0]] + s[1..][..k];
        k + 1
  }

  /**
   * `Array.prototype.splice(start, 1)`: removes the element at `start`; a negative `start`
   * counts back from the end (so -1 names the last element), and a start past the end
   * removes nothing.
   */
  function Splice1<T>(s: seq<T>, start: int): (r: seq<T>)
    ensures |s| == 0 ==> r == s
    ensures 0 <= start < |s| ==> r == s[..start] + s[start + 1..]
    ensures -|s| <= start < 0 ==> r == s[..|s| + start] + s[|s| + start + 1..]
    ensures start >= |s| ==> r == s
  {
    var k := if start < 0 then (if |s| + start < 0 then 0 else |s| + start)
             else if start > |s| then |s| else start;
    if k < |s| then s[..k] + s[k + 1..] else s
  }

  /**
   * The idiom `s.splice(s.indexOf(x), 1)`, written by recursion: the first occurrence
   * of `x` goes; when there is none, the element that goes is the last one
   * (`indexOf` gives -1). `RemoveIsSplice` shows it is the composition of the two.
   */
  function Remove<T(==)>(s: seq<T>, x: T): (r: seq<T>)
    ensures |r| == if s == [] then 0 else |s| - 1
  {
    if s == [] then []
    else if s[0] == x then s[1..]
    else if |s| == 1 then []
    else [s[0]] + Remove(s[1..], x)
  }

  /** The recursive definition agrees with `splice` applied at `indexOf`. */
  lemma RemoveIsSplice<T>(s: seq<T>, x: T)
    ensures Remove(s, x) == Splice1(s, IndexOf(s, x))
  {
    if x in s {
      RemovePresent(s, x);
    } else if s != [] {
      RemoveAbsent(s, x);
    }
  }

  /** Cutting `n` elements at `k + 1` is keeping the head and cutting `n` at `k` of the tail. */
  lemma ConsCut<T>(s: seq<T>, k: int, n: int)
    requires s != [] && 0 <= k && 0 <= n && k + 1 + n <= |s|
    ensures [s[0]] + (s[1..][..k] + s[1..][k + n..]) == s[..k + 1] + s[k + 1 + n..]
  {
    assert s[..k + 1] == [s[0]] + s[1..][..k];
    assert s[k + 1 + n..] == s[1..][k + n..];
  }

  /** The elements of `s` that are not in `gone`, in their original order. */
  function Except<T(==,!new)>(s: seq<T>, gone: set<T>): (r: seq<T>)
    ensures forall x :: x in r <==> x in s && x !in gone
    ensures |r| <= |s|
  {
    if s == [] then []
    else if s[0] in gone then Except(s[1..], gone)
    else [s[0]] + Except(s[1..], gone)
  }

  /** Every position one further on. */
  function Shifted(q: seq<int>): (r: seq<int>)
    ensures |r| == |q| && forall k :: 0 <= k < |q| ==> r[k] == q[k] + 1
  {
    seq(|q|, k requires 0 <= k < |q| => q[k] + 1)
  }

  /**
   * The positions of `s` that `Except(s, gone)` keeps, in order: position `k` of the
   * result is position `KeptPositions(s, gone)[k]` of `s`.
   */
  function KeptPositions<T(!new)>(s: seq<T>, gone: set<T>): (p: seq<int>)
    ensures |p| == |Except(s, gone)|
    ensures forall k :: 0 <= k < |p| ==> 0 <= p[k] < |s| && s[p[k]] == Except(s, gone)[k]
  {
    if s == [] then []
    else if s[0] in gone then Shifted(KeptPositions(s[1..], gone))
    else [0] + Shifted(KeptPositions(s[1..], gone))
  }

  /**
   * The filter keeps order: the kept positions increase, and every position whose
   * element is not in `gone` is among them, so `Except(s, gone)` is the subsequence of
   * `s` that avoids `gone`.
   */
  lemma ExceptKeepsOrder<T(!new)>(s: seq<T>, gone: set<T>)
    ensures var p := KeptPositions(s, gone);
      && (forall k, l :: 0 <= k < l < |p| ==> p[k] < p[l])
      && (forall i :: 0 <= i < |s| && s[i] !in gone ==> i in p)
  {
    KeptIncreasing(s, gone);
    KeptCovers(s, gone);
  }

  lemma {:induction false} KeptIncreasing<T(!new)>(s: seq<T>, gone: set<T>)
    ensures forall k, l :: 0 <= k < l < |KeptPositions(s, gone)| ==> KeptPositions(s, gone)[k] < KeptPositions(s, gone)[l]
  {
    if s != [] {
      var q := KeptPositions(s[1..], gone);
      KeptIncreasing(s[1..], gone);
      var shifted := Shifted(q);
      forall k, l | 0 <= k < l < |shifted| ensures shifted[k] < shifted[l] {
        assert q[k] < q[l];
      }
      if s[0] !in gone {
        assert forall k :: 0 <= k < |shifted| ==> 0 < shifted[k];
        ConsPositions(shifted);
      }
    }
  }

  lemma {:induction false} KeptCovers<T(!new)>(s: seq<T>, gone: set<T>)
    ensures forall i :: 0 <= i < |s| && s[i] !in gone ==> i in KeptPositions(s, gone)
  {
    if s != [] {
      var q := KeptPositions(s[1..], gone);
      KeptCovers(s[1..], gone);
      var shifted := Shifted(q);
      forall i | 0 < i < |s| && s[i] !in gone ensures i in shifted {
        assert s[1..][i - 1] == s[i];
        var k :| 0 <= k < |q| && q[k] == i - 1;
        assert shifted[k] == i;
      }
    }
  }

  /** Putting 0 in front of increasing positive positions keeps them increasing. */
  lemma ConsPositions(shifted: seq<int>)
    requires forall k, l :: 0 <= k < l < |shifted| ==> shifted[k] < shifted[l]
    requires forall k :: 0 <= k < |shifted| ==> 0 < shifted[k]
    ensures forall k, l :: 0 <= k < l < |[0] + shifted| ==> ([0] + shifted)[k] < ([0] + shifted)[l]
  {
    forall k, l | 0 <= k < l < |[0] + shifted| ensures ([0] + shifted)[k] < ([0] + shifted)[l] {
      if k > 0 {
        assert ([0] + shifted)[k] == shifted[k - 1];
      }
      assert ([0] + shifted)[l] == shifted[l - 1];
    }
  }

  /** When `x` is present, the idiom removes its first occurrence. */
  lemma {:induction false} RemovePresent<T>(s: seq<T>, x: T)
    requires x in s
    ensures var i := IndexOf(s, x); Remove(s, x) == s[..i] + s[i + 1..] && |Remove(s, x)| == |s| - 1
  {
    if s[0] == x {
      assert s[..0] + s[1..] == s[1..];
    } else {
      var t := s[1..];
      assert x in t;
      RemovePresent(t, x);
      var k := IndexOf(t, x);
      assert IndexOf(s, x) == k + 1;
      assert Remove(s, x) == [s[0]] + (t[..k] + t[k + 1..]);
      ConsCut(s, k, 1);
      assert Remove(s, x) == s[..k + 1] + s[k + 2..];
    }
  }

  /** When `x` is absent, `indexOf` yields -1 and the idiom drops the LAST element instead. */
  lemma {:induction false} RemoveAbsent<T>(s: seq<T>, x: T)
    requires x !in s && s != []
    ensures Remove(s, x) == s[..|s| - 1]
  {
    if |s| > 1 {
      var t := s[1..];
      assert x !in t;
      RemoveAbsent(t, x);
      assert Remove(s, x) == [s[0]] + t[..|t| - 1];
      assert s[..|s| - 1] == [s[0]] + t[..|t| - 1];
    }
  }

  /** Appending after a present element does not change which element is removed. */
  lemma {:induction false} RemoveAppend<T>(s: seq<T>, u: seq<T>, x: T)
    requires x in s
    ensures Remove(s + u, x) == Remove(s, x) + u
  {
    assert (s + u)[1..] == s[1..] + u;
    if s[0] != x {
      assert x in s[1..];
      RemoveAppend(s[1..], u, x);
    }
  }

  /**
   * On a sequence without duplicates, removing a present element after appending others
   * filters out exactly that element and keeps the appended ones.
   */
  lemma RemoveBeforeAppended<T(!new)>(s: seq<T>, u: seq<T>, x: T)
    requires NoDups(s) && x in s && x !in u
    ensures Remove(s + u, x) == Except(s, {x}) + u
    ensures x !in Remove(s + u, x)
    ensures |Remove(s + u, x)| == |s| - 1 + |u|
  {
    RemoveAppend(s, u, x);
    RemoveIsExcept(s, x);
    RemoveKeepsNoDups(s, x);
  }

  /** On a sequence without duplicates, removing a present element is filtering it out. */
  lemma {:induction false} RemoveIsExcept<T(!new)>(s: seq<T>, x: T)
    requires NoDups(s) && x in s
    ensures Remove(s, x) == Except(s, {x})
  {
    NoDupsTail(s);
    if s[0] == x {
      ExceptNothing(s[1..], {x});
    } else {
      assert x in s[1..];
      RemoveIsExcept(s[1..], x);
    }
  }

  lemma NoDupsTail<T>(s: seq<T>)
    requires NoDups(s) && s != []
    ensures NoDups(s[1..]) && s[0] !in s[1..]
  {
  }

  /** Removing nothing that occurs leaves the sequence as it is. */
  lemma {:induction false} ExceptNothing<T(!new)>(s: seq<T>, gone: set<T>)
    requires forall x :: x in s ==> x !in gone
    ensures Except(s, gone) == s
  {
    if s != [] {
      assert s[0] in s;
      forall x | x in s[1..] ensures x !in gone { assert x in s; }
      ExceptNothing(s[1..], gone);
    }
  }

  /** Filtering twice is filtering once by the union. */
  lemma {:induction false} ExceptExcept<T(!new)>(s: seq<T>, a: set<T>, b: set<T>)
    ensures Except(Except(s, a), b) == Except(s, a + b)
  {
    if s != [] {
      ExceptExcept(s[1..], a, b);
      if s[0] !in a {
        assert Except(s, a)[1..] == Except(s[1..], a);
      }
    }
  }

  /** Filtering distributes over concatenation. */
  lemma {:induction false} ExceptAppend<T(!new)>(s: seq<T>, u: seq<T>, gone: set<T>)
    ensures Except(s + u, gone) == Except(s, gone) + Except(u, gone)
  {
    if s == [] {
      assert s + u == u;
    } else {
      assert (s + u)[1..] == s[1..] + u;
      ExceptAppend(s[1..], u, gone);
    }
  }

  /** Filtering keeps a sequence free of duplicates. */
  lemma {:induction false} ExceptNoDups<T(!new)>(s: seq<T>, gone: set<T>)
    requires NoDups(s)
    ensures NoDups(Except(s, gone))
  {
    if s != [] {
      NoDupsTail(s);
      ExceptNoDups(s[1..], gone);
    }
  }

  /** Filtering by two sets that agree on the elements of the sequence gives the same result. */
  lemma {:induction false} ExceptSameOnSeq<T(!new)>(s: seq<T>, a: set<T>, b: set<T>)
    requires forall x :: x in s ==> (x in a <==> x in b)
    ensures Except(s, a) == Except(s, b)
  {
    if s != [] {
      assert s[0] in s;
      forall x | x in s[1..] ensures x in a <==> x in b { assert x in s; }
      ExceptSameOnSeq(s[1..], a, b);
    }
  }

  /** The set of elements of a sequence. */
  function Elems<T(!new)>(s: seq<T>): set<T> {
    set x | x in s
  }

  /** Appending a new element keeps a sequence free of duplicates. */
  lemma {:induction false} AppendFresh<T>(s: seq<T>, x: T)
    requires NoDups(s) && x !in s
    ensures NoDups(s + [x])
  {
    if s != [] {
      assert (s + [x])[1..] == s[1..] + [x];
      AppendFresh(s[1..], x);
    }
  }

  /**
   * The idiom never introduces an element and keeps a sequence free of duplicates; on
   * such a sequence a present element is gone afterwards.
   */
  lemma {:induction false} RemoveKeepsNoDups<T>(s: seq<T>, x: T)
    requires NoDups(s)
    ensures NoDups(Remove(s, x))
    ensures forall y :: y in Remove(s, x) ==> y in s
    ensures x in s ==> x !in Remove(s, x) && |Remove(s, x)| == |s| - 1
  {
    if s != [] && s[0] != x && |s| > 1 {
      RemoveKeepsNoDups(s[1..], x);
      var r := Remove(s[1..], x);
      assert ([s[0]] + r)[1..] == r;
    }
  }
}
