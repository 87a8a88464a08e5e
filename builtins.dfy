/** The Python built-in operations the core relies on, as functions on sequences and sets. */
module Builtins {
  import opened Types

  /** No element occurs twice. */
  ghost predicate Distinct<T>(s: seq<T>) {
    forall i, j :: 0 <= i < j < |s| ==> s[i] != s[j]
  }

  /** list.count(x): the number of elements equal to x. */
  function Count<T(==)>(s: seq<T>, x: T): (n: nat)
    ensures n <= |s|
    ensures n == 0 <==> x !in s
  {
    if s == [] then 0 else (if s[0] == x then 1 else 0) + Count(s[1..], x)
  }

  /** list.index(x): the position of the first occurrence of x. */
  function IndexOf<T(==)>(s: seq<T>, x: T): (i: nat)
    requires x in s
    ensures i < |s| && s[i] == x && x !in s[..i]
  {
    if s[0] == x then 0
    else
      var j := IndexOf(s[1..], x);
      assert s[..j + 1] == [s[0]] + s[1..][..j];
      j + 1
  }

  /** list.remove(x): the list without the first occurrence of x. */
  function RemoveFirst<T(==)>(s: seq<T>, x: T): (r: seq<T>)
    requires x in s
    ensures |r| == |s| - 1
    ensures r == s[..IndexOf(s, x)] + s[IndexOf(s, x) + 1..]
  {
    var i := IndexOf(s, x);
    s[..i] + s[i + 1..]
  }

  /** list.remove(x) keeps every other element. */
  lemma RemoveFirstKeeps<T>(s: seq<T>, x: T, y: T)
    requires x in s && y in s && y != x
    ensures y in RemoveFirst(s, x)
  {
    var i := IndexOf(s, x);
    var j :| 0 <= j < |s| && s[j] == y;
    if j < i {
      assert s[..i][j] == y;
    } else {
      assert s[i + 1..][j - i - 1] == y;
    }
  }

  /** In a list without repeats, list.remove(x) takes x out entirely and adds no repeat. */
  lemma RemoveFirstOfDistinct<T>(s: seq<T>, x: T)
    requires Distinct(s) && x in s
    ensures Distinct(RemoveFirst(s, x))
    ensures forall j :: 0 <= j < |RemoveFirst(s, x)| ==> RemoveFirst(s, x)[j] in s && RemoveFirst(s, x)[j] != x
  {
    var i := IndexOf(s, x);
    var r := RemoveFirst(s, x);
    assert forall j :: 0 <= j < |r| ==> r[j] == (if j < i then s[j] else s[j + 1]);
  }

  /** The key order of a dict after `del d[x]`: every element but x, in the same order. */
  function Without<T(==)>(s: seq<T>, x: T): (r: seq<T>)
    ensures forall i :: 0 <= i < |r| ==> r[i] in s && r[i] != x
    ensures forall i :: 0 <= i < |s| && s[i] != x ==> s[i] in r
    ensures x !in s ==> r == s
  {
    if s == [] then []
    else
      var rest := Without(s[1..], x);
      if s[0] == x then rest else [s[0]] + rest
  }

  /** Dropping x from a one-element list keeps the element unless it is x. */
  lemma WithoutSingle<T>(y: T, x: T)
    ensures Without([y], x) == if y == x then [] else [y]
  {
    assert [y][1..] == [];
  }

  /** Dropping x works piecewise: the survivors of a + b are those of a followed by those of b, in order. */
  lemma {:induction false} WithoutConcat<T>(a: seq<T>, b: seq<T>, x: T)
    ensures Without(a + b, x) == Without(a, x) + Without(b, x)
  {
    if a == [] {
      assert a + b == b;
    } else {
      var y, t := a[0], a[1..];
      assert a == [y] + t && a + b == [y] + (t + b);
      WithoutCons(y, t + b, x);
      WithoutCons(y, t, x);
      WithoutConcat(t, b, x);
      ConcatAssoc(if y == x then [] else [y], Without(t, x), Without(b, x));
    }
  }

  /** Concatenation is associative. */
  lemma ConcatAssoc<T>(h: seq<T>, p: seq<T>, q: seq<T>)
    ensures h + (p + q) == (h + p) + q
  {
  }

  /** Dropping x from a list with head y: y survives unless it is x. */
  lemma WithoutCons<T>(y: T, s: seq<T>, x: T)
    ensures Without([y] + s, x) == (if y == x then [] else [y]) + Without(s, x)
  {
    assert ([y] + s)[1..] == s;
  }

  /** Without repeats, `del d[x]` leaves no repeat and, when x was present, one element fewer. */
  lemma {:induction false} WithoutDistinct<T>(s: seq<T>, x: T)
    ensures Distinct(s) ==> Distinct(Without(s, x))
    ensures Distinct(s) && x in s ==> |Without(s, x)| == |s| - 1
  {
    if s != [] && Distinct(s) {
      var rest := s[1..];
      assert Distinct(rest);
      WithoutDistinct(rest, x);
      if s[0] != x {
        assert s[0] !in rest;
        DistinctCons(s[0], Without(rest, x));
        assert x in s ==> x in rest;
      } else {
        assert x !in rest;
      }
    }
  }

  /** Putting a fresh element in front of a list without repeats adds no repeat. */
  lemma DistinctCons<T>(a: T, rest: seq<T>)
    ensures Distinct(rest) && a !in rest ==> Distinct([a] + rest)
  {
    var s := [a] + rest;
    if Distinct(rest) && a !in rest {
      forall i, j | 0 <= i < j < |s| ensures s[i] != s[j] {
        assert s[j] == rest[j - 1];
        if i > 0 {
          assert s[i] == rest[i - 1];
        }
      }
    }
  }

  /** A distinct sequence has as many elements as the set of its elements. */
  lemma {:induction false} DistinctCard<T>(s: seq<T>)
    requires Distinct(s)
    ensures |set x | x in s| == |s|
  {
    if s != [] {
      assert Distinct(s[1..]);
      DistinctCard(s[1..]);
      assert (set x | x in s) == {s[0]} + (set x | x in s[1..]);
    }
  }

  /** file.seek(off) then file.read(n) on a file holding f: at most n bytes, fewer at end of file. */
  function ReadAt<T>(f: seq<T>, off: nat, n: nat): (r: seq<T>)
    ensures |r| <= n
    ensures off + n <= |f| ==> r == f[off..off + n]
    ensures off >= |f| ==> r == []
    ensures off <= |f| ==> off + |r| == if off + n < |f| then off + n else |f|
    ensures off <= |f| ==> r == f[off..off + |r|]
  {
    var lo := if off < |f| then off else |f|;
    var hi := if off + n < |f| then off + n else |f|;
    f[lo..hi]
  }

  /** The Python slice s[i:], negative i counting from the end. */
  function SliceFrom<T>(s: seq<T>, i: int): (r: seq<T>)
    ensures |r| <= |s| && r == s[|s| - |r|..]
    ensures 0 <= i <= |s| ==> |r| == |s| - i
    ensures i >= |s| ==> r == []
  {
    if i >= 0 then (if i <= |s| then s[i..] else [])
    else if -i <= |s| then s[|s| + i..] else s
  }

  /**
   * The least non-negative integer not in `used`, searching upwards from `start`:
   * what the `while True` loops of both get_free_address implementations return.
   */
  function LeastFreeFrom(used: set<int>, start: nat): (r: nat)
    requires forall i :: 0 <= i < start ==> i in used
    ensures start <= r && r !in used
    ensures forall i :: 0 <= i < r ==> i in used
    decreases |set k | k in used && k >= start|
  {
    if start !in used then start
    else
      var later, now := set k | k in used && k >= start + 1, set k | k in used && k >= start;
      assert later == now - {start};
      assert |later| < |now|;
      LeastFreeFrom(used, start + 1)
  }

  /** Any non-negative integer outside `used` with everything below it in `used` is the least free one. */
  lemma LeastFreeUnique(used: set<int>, a: nat)
    requires a !in used && forall i :: 0 <= i < a ==> i in used
    ensures a == LeastFree(used)
  {
  }

  /** The least non-negative integer not in `used`. */
  function LeastFree(used: set<int>): (r: nat)
    ensures r !in used
    ensures forall i :: 0 <= i < r ==> i in used
  {
    LeastFreeFrom(used, 0)
  }
}
