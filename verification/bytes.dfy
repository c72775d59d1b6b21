/** Bytes and the sequence helpers the endian codec is stated with. */
module Bytes {

  /** A Java `byte`, as its eight-bit pattern. */
  type byte = bv8

  /** Largest Java `int`, the bound on array and string lengths. */
  const INT_MAX: int := 0x7fff_ffff

  /**
   * Java's `(int)` cast of a `long`: the low 32 bits, read as a
   * two's-complement `int`.  It changes nothing in the `int` range.
   */
  function IntOf(v: int): (r: int)
    ensures -0x8000_0000 <= r <= INT_MAX
    ensures (v - r) % 0x1_0000_0000 == 0
    ensures -0x8000_0000 <= v <= INT_MAX ==> r == v
  {
    var m := v % 0x1_0000_0000;
    if m > INT_MAX then m - 0x1_0000_0000 else m
  }

  /** The smaller of two counts, as `Math.min`. */
  function Min(a: int, b: int): int {
    if a < b then a else b
  }

  /** The sequence in the opposite order. */
  function Reverse<T>(s: seq<T>): (r: seq<T>)
    ensures |r| == |s|
    ensures forall i | 0 <= i < |s| :: r[i] == s[|s| - 1 - i]
  {
    if s == [] then [] else Reverse(s[1..]) + [s[0]]
  }

  /** Reversing twice gives back the original sequence. */
  lemma ReverseReverse<T>(s: seq<T>)
    ensures Reverse(Reverse(s)) == s
  {
  }

  /** Appending two elements one after the other appends the pair. */
  lemma AppendPair<T>(s: seq<T>, x: T, y: T)
    ensures s + [x, y] == (s + [x]) + [y]
  {
  }

  /** Taking `n` from a sequence is its first element followed by `n - 1` from the remainder. */
  lemma TakeFirst<T>(s: seq<T>, n: nat)
    requires 1 <= n <= |s|
    ensures s[..n] == [s[0]] + s[1..][..n - 1]
  {
  }

  /** Taking `m + n` is taking `m` and then `n` from what is left. */
  lemma TakeSplit<T>(s: seq<T>, m: nat, n: nat)
    requires m + n <= |s|
    ensures s[..m + n] == s[..m] + s[m..][..n]
    ensures s[m..][n..] == s[m + n..]
  {
  }

  /** Appending `m` and then `n` more elements of `c` appends `m + n` of them. */
  lemma AppendSplit<T>(o: seq<T>, c: seq<T>, m: nat, n: nat)
    requires m + n <= |c|
    ensures (o + c[..m]) + c[m..][..n] == o + c[..m + n]
  {
    TakeSplit(c, m, n);
  }

  /** The front of a slice is a slice. */
  lemma SliceFront<T>(s: seq<T>, lo: nat, hi: nat, m: nat)
    requires lo <= hi <= |s| && m <= hi - lo
    ensures s[lo..hi][..m] == s[lo..lo + m]
  {
  }

  /**
   * Taking `m` elements and then `n - m` more from what is left: together
   * they are the first `n`, and what is left after both is `s[n..]`.
   */
  lemma Chain<T>(s: seq<T>, s1: seq<T>, s2: seq<T>, v1: seq<T>, v2: seq<T>, m: nat, n: nat)
    requires m <= n <= |s|
    requires v1 == s[..m] && s1 == s[m..]
    requires v2 == s1[..n - m] && s2 == s1[n - m..]
    ensures v1 + v2 == s[..n] && s2 == s[n..]
  {
    TakeSplit(s, m, n - m);
  }

  /** Dropping `m` elements and then `n - m` more drops the first `n`. */
  lemma DropChain<T>(s: seq<T>, s1: seq<T>, s2: seq<T>, m: nat, n: nat)
    requires m <= n <= |s|
    requires s1 == s[m..] && s2 == s1[n - m..]
    ensures s2 == s[n..]
  {
  }

  /** A non-empty sequence is its first element followed by the rest. */
  lemma HeadTail<T>(s: seq<T>)
    requires s != []
    ensures [s[0]] + s[1..] == s
  {
  }

  /** A sequence is its first `n` elements followed by the rest. */
  lemma TakeDrop<T>(s: seq<T>, n: nat)
    requires n <= |s|
    ensures s[..n] + s[n..] == s
  {
  }

  /** A concatenation splits back into its parts at the length of the first. */
  lemma SplitAt<T>(a: seq<T>, b: seq<T>)
    ensures (a + b)[..|a|] == a && (a + b)[|a|..] == b
  {
  }

  /** The elements of a concatenation, found in its two parts. */
  lemma IndexConcat<T>(c: seq<T>, a: seq<T>, b: seq<T>)
    requires c == a + b
    ensures |c| == |a| + |b|
    ensures forall j | 0 <= j < |a| :: c[j] == a[j]
    ensures forall j | |a| <= j < |c| :: c[j] == b[j - |a|]
  {
  }

  /** The elements of a slice, found in the sequence sliced. */
  lemma IndexSlice<T>(s: seq<T>, lo: nat, hi: nat)
    requires lo <= hi <= |s|
    ensures forall j | 0 <= j < hi - lo :: s[lo..hi][j] == s[lo + j]
  {
  }

  /** Concatenation is associative. */
  lemma AppendAssoc<T>(a: seq<T>, b: seq<T>, c: seq<T>)
    ensures (a + b) + c == a + (b + c)
  {
  }

  /** Dropping `n` elements from a concatenation whose first part is at least `n` long. */
  lemma DropFront<T>(a: seq<T>, b: seq<T>, n: nat)
    requires n <= |a|
    ensures (a + b)[n..] == a[n..] + b
  {
  }

  /** The first `n` elements of a concatenation whose first part is at least `n` long. */
  lemma PrefixOfFront<T>(a: seq<T>, b: seq<T>, n: nat)
    requires n <= |a|
    ensures n <= |a + b| && (a + b)[..n] == a[..n]
  {
  }

  /** Two ways of splitting one sequence: the shorter first part is a prefix of the longer. */
  lemma SamePrefix<T>(a: seq<T>, b: seq<T>, c: seq<T>, d: seq<T>)
    requires a + b == c + d && |c| <= |a|
    ensures a[..|c|] == c
  {
    assert (a + b)[..|c|] == a[..|c|];
  }

  /** Moving the split point of `c + d` right by `n`: the first part gains the front of `d`. */
  lemma MoveSplit<T>(a: seq<T>, b: seq<T>, c: seq<T>, d: seq<T>, n: nat)
    requires a + b == c + d && |a| == |c| + n && n <= |d|
    ensures a == c + d[..n] && b == d[n..]
  {
    assert a == (c + d)[..|c| + n];
    assert b == (c + d)[|c| + n..];
  }

  /** Appending two adjacent ranges of `c` appends their union. */
  lemma AppendRanges<T>(c: seq<T>, lo: nat, mid: nat, hi: nat, a: seq<T>, b: seq<T>, r: seq<T>)
    requires lo <= mid <= hi <= |c|
    requires b == a + c[lo..mid] && r == b + c[mid..hi]
    ensures r == a + c[lo..hi]
  {
    assert c[lo..hi] == c[lo..mid] + c[mid..hi];
  }
}
