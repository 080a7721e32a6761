/**
 * The numeric conventions the detector relies on: numpy's median, Python's
 * built-in round (ties to even), and selecting the positions of a mask
 * (numpy boolean indexing and the list comprehensions over `enumerate`).
 */
module Numeric {

  predicate Sorted(s: seq<int>) {
    forall i, j :: 0 <= i < j < |s| ==> s[i] <= s[j]
  }

  function Insert(x: int, s: seq<int>): (r: seq<int>)
    requires Sorted(s)
    ensures |r| == |s| + 1
    ensures Sorted(r)
    ensures multiset(r) == multiset(s) + multiset{x}
  {
    if s == [] || x <= s[0] then [x] + s
    else
      var rest := Insert(x, s[1..]);
      InsertBehindHead(x, s, rest);
      [s[0]] + rest
  }

  /** Putting the head of `s` back in front of `x` inserted into its tail. */
  lemma InsertBehindHead(x: int, s: seq<int>, rest: seq<int>)
    requires Sorted(s) && s != [] && s[0] < x
    requires Sorted(rest) && multiset(rest) == multiset(s[1..]) + multiset{x}
    ensures Sorted([s[0]] + rest)
    ensures multiset([s[0]] + rest) == multiset(s) + multiset{x}
  {
    assert s == [s[0]] + s[1..];
    forall k | 0 <= k < |rest| ensures s[0] <= rest[k] {
      assert rest[k] in multiset(rest);
      if rest[k] != x {
        assert rest[k] in multiset(s[1..]);
        var i :| 0 <= i < |s[1..]| && s[1..][i] == rest[k];
        assert s[i + 1] == rest[k];
      }
    }
  }

  /** The values of `s` in ascending order. */
  function Sort(s: seq<int>): (r: seq<int>)
    ensures Sorted(r)
    ensures multiset(r) == multiset(s)
    ensures |r| == |s|
  {
    if s == [] then []
    else
      assert s == [s[0]] + s[1..];
      Insert(s[0], Sort(s[1..]))
  }

  /**
   * numpy's median: the middle value of the sorted data, or the mean of the
   * two middle values when the count is even.
   */
  function Median(s: seq<int>): (m: real)
    requires |s| > 0
    ensures Least(s) as real <= m <= Greatest(s) as real
  {
    var t := Sort(s);
    var h := |t| / 2;
    SortedWithin(s, t);
    if |t| % 2 == 1 then t[h] as real else (t[h - 1] + t[h]) as real / 2.0
  }

  /** Every value of a sorting of `s` is a value of `s`. */
  lemma SortedWithin(s: seq<int>, t: seq<int>)
    requires multiset(t) == multiset(s)
    ensures forall k :: 0 <= k < |t| ==> t[k] in s
  {
    forall k | 0 <= k < |t| ensures t[k] in s {
      assert t[k] in multiset(t);
    }
  }

  /**
   * Python's round() of a float: the nearest integer, and of two equally
   * near integers the even one.
   */
  function RoundHalfEven(x: real): (n: int)
    ensures -0.5 <= x - n as real <= 0.5
    ensures x - n as real == 0.5 || n as real - x == 0.5 ==> n % 2 == 0
  {
    var f := x.Floor;
    var frac := x - f as real;
    if frac < 0.5 then f
    else if frac > 0.5 then f + 1
    else if f % 2 == 0 then f
    else f + 1
  }

  /** The smallest value of a non-empty sequence. */
  function Least(s: seq<int>): (m: int)
    requires |s| > 0
    ensures m in s
    ensures forall i :: 0 <= i < |s| ==> m <= s[i]
  {
    if |s| == 1 then s[0]
    else
      var rest := Least(s[1..]);
      assert forall i :: 1 <= i < |s| ==> s[i] == s[1..][i - 1];
      if s[0] <= rest then s[0] else rest
  }

  /** The largest value of a non-empty sequence. */
  function Greatest(s: seq<int>): (m: int)
    requires |s| > 0
    ensures m in s
    ensures forall i :: 0 <= i < |s| ==> s[i] <= m
  {
    if |s| == 1 then s[0]
    else
      var rest := Greatest(s[1..]);
      assert forall i :: 1 <= i < |s| ==> s[i] == s[1..][i - 1];
      if s[0] >= rest then s[0] else rest
  }

  /**
   * The positions whose flag is set, in ascending order: what a boolean mask
   * selects from an array, and `[i for i, x in enumerate(xs) if ...]`.
   */
  function Where(flags: seq<bool>): (r: seq<nat>)
    ensures |r| <= |flags|
    ensures forall k :: 0 <= k < |r| ==> r[k] < |flags| && flags[r[k]]
    ensures forall i, j :: 0 <= i < j < |r| ==> r[i] < r[j]
    ensures forall p :: 0 <= p < |flags| && flags[p] ==> p in r
  {
    if |flags| == 0 then []
    else
      var n := |flags| - 1;
      var front := Where(flags[..n]);
      var last := if flags[n] then [n] else [];
      assert forall k :: 0 <= k < |front| ==> front[k] < n && flags[front[k]];
      assert forall p :: 0 <= p < n && flags[p] ==> p in front by {
        assert forall p :: 0 <= p < n ==> flags[..n][p] == flags[p];
      }
      assert forall k :: 0 <= k < |last| ==> last[k] == n && flags[n];
      front + last
  }

  /** Selecting from a prefix one position longer adds that position when its flag is set. */
  lemma WhereExtend(flags: seq<bool>, n: nat)
    requires n < |flags|
    ensures Where(flags[..n + 1]) == Where(flags[..n]) + (if flags[n] then [n] else [])
  {
    assert flags[..n + 1][..n] == flags[..n];
  }

  /** The number of set flags. */
  function Count(flags: seq<bool>): (c: nat)
    ensures c <= |flags|
  {
    if |flags| == 0 then 0 else Count(flags[..|flags| - 1]) + (if flags[|flags| - 1] then 1 else 0)
  }

  /** Where selects exactly as many positions as there are set flags. */
  lemma {:induction false} WhereCount(flags: seq<bool>)
    ensures |Where(flags)| == Count(flags)
  {
    if |flags| > 0 {
      WhereCount(flags[..|flags| - 1]);
    }
  }

  /** Selecting from a prefix of the mask gives a prefix of the selection. */
  lemma {:induction false} WherePrefixOf(flags: seq<bool>, j: nat)
    requires j <= |flags|
    ensures |Where(flags[..j])| <= |Where(flags)|
    ensures Where(flags)[..|Where(flags[..j])|] == Where(flags[..j])
    decreases |flags| - j
  {
    if j < |flags| {
      WherePrefixOf(flags, j + 1);
      WhereExtend(flags, j);
      var a, b, all := Where(flags[..j]), Where(flags[..j + 1]), Where(flags);
      assert b[..|a|] == a;
      assert all[..|a|] == all[..|b|][..|a|];
    } else {
      assert flags[..j] == flags;
    }
  }

  /** The elements of `s` at the positions `idx`, in the order of `idx`. */
  function Select<T>(s: seq<T>, idx: seq<nat>): (r: seq<T>)
    requires forall k :: 0 <= k < |idx| ==> idx[k] < |s|
    ensures |r| == |idx|
    ensures forall k :: 0 <= k < |idx| ==> r[k] == s[idx[k]]
  {
    seq(|idx|, k requires 0 <= k < |idx| => s[idx[k]])
  }

  /**
   * Boolean-mask selection: as many elements as set flags, and the element
   * at a set flag `i` comes out at the place given by the number of set
   * flags before it.
   */
  lemma SelectMask<T>(s: seq<T>, flags: seq<bool>)
    requires |flags| == |s|
    ensures |Select(s, Where(flags))| == Count(flags)
    ensures forall i :: 0 <= i < |s| && flags[i] ==>
              Count(flags[..i]) < |Select(s, Where(flags))| && Select(s, Where(flags))[Count(flags[..i])] == s[i]
  {
    WhereCount(flags);
    forall i | 0 <= i < |s| && flags[i]
      ensures Count(flags[..i]) < |Where(flags)| && Where(flags)[Count(flags[..i])] == i
    {
      WhereCount(flags[..i]);
      WhereExtend(flags, i);
      WherePrefixOf(flags, i + 1);
      var w := Where(flags[..i + 1]);
      assert w[Count(flags[..i])] == i;
      assert Where(flags)[..|w|][Count(flags[..i])] == i;
    }
  }
}
