/** Sequence operations shared by the copy engine and the drive enumerator:
    Rust's `split` on a separator (for `str::split(':')` and `<[u16]>::split`),
    `position(..).unwrap_or(len)` and `Iterator::filter`. */
module Sequences {

  /** `s` starts with `p`. */
  predicate IsPrefix<T(==)>(p: seq<T>, s: seq<T>) {
    |p| <= |s| && s[..|p|] == p
  }

  /** Slicing a prefix `r` of a suffix `t` of `s` is slicing `s` once. */
  lemma PrefixOfSuffix<T>(s: seq<T>, t: seq<T>, r: seq<T>)
    requires |t| <= |s| && t == s[|s| - |t|..]
    requires |r| <= |t| && r == t[..|r|]
    ensures r == s[|s| - |t|..|s| - |t| + |r|]
    ensures t[|r|..] == s[|s| - |t| + |r|..]
  {
  }

  /** Index of the first occurrence of `x` in `s`. */
  function IndexOf<T(==)>(s: seq<T>, x: T): (i: nat)
    requires x in s
    ensures i < |s| && s[i] == x && x !in s[..i]
  {
    if s[0] == x then 0
    else
      var j := IndexOf(s[1..], x);
      assert s[1..][..j] == s[1..j + 1];
      1 + j
  }

  /** An occurrence with none before it is the first one. */
  lemma IndexOfAt<T>(s: seq<T>, x: T, i: nat)
    requires i < |s| && s[i] == x && x !in s[..i]
    ensures IndexOf(s, x) == i
  {
  }

  /** The prefix of `s` before the first `x`, or all of `s` when `x` does not
      occur: `s[..s.iter().position(|&c| c == x).unwrap_or(s.len())]`. */
  function TakeUntil<T(==)>(s: seq<T>, x: T): (r: seq<T>)
    ensures IsPrefix(r, s) && x !in r
    ensures |r| < |s| ==> s[|r|] == x
  {
    if x in s then s[..IndexOf(s, x)] else s
  }

  /** The pieces of `s` between separators, as Rust's `split` yields them: `k`
      separators give `k + 1` pieces, empty ones included. */
  function Split<T(==)>(s: seq<T>, sep: T): (parts: seq<seq<T>>)
    ensures |parts| >= 1
    ensures forall k :: 0 <= k < |parts| ==> sep !in parts[k]
    ensures Join(parts, sep) == s
    decreases |s|
  {
    if sep !in s then [s]
    else
      var i := IndexOf(s, sep);
      var rest := Split(s[i + 1..], sep);
      assert Join([s[..i]] + rest, sep) == s[..i] + [sep] + Join(rest, sep);
      [s[..i]] + rest
  }

  /** The pieces glued back together with one separator between neighbours. */
  function Join<T>(parts: seq<seq<T>>, sep: T): seq<T>
    requires |parts| >= 1
  {
    if |parts| == 1 then parts[0]
    else parts[0] + [sep] + Join(parts[1..], sep)
  }

  /** Splitting is the inverse of joining: any non-empty list of separator-free
      pieces is recovered from its join. With `Split`'s own contract this makes
      every piece a maximal separator-free run of the input. */
  lemma {:induction false} SplitJoin<T>(parts: seq<seq<T>>, sep: T)
    requires |parts| >= 1
    requires forall k :: 0 <= k < |parts| ==> sep !in parts[k]
    ensures Split(Join(parts, sep), sep) == parts
    decreases |parts|
  {
    if |parts| > 1 {
      var s := Join(parts, sep);
      var tail := Join(parts[1..], sep);
      assert s == parts[0] + [sep] + tail;
      assert s[|parts[0]|] == sep;
      assert IndexOf(s, sep) == |parts[0]|;
      assert s[..|parts[0]|] == parts[0];
      assert s[|parts[0]| + 1..] == tail;
      SplitJoin(parts[1..], sep);
    }
  }

  /** `d` occurs in `s` at offset `o`, with `sep` or an end of `s` on each
      side. */
  predicate SegmentAt<T(==)>(s: seq<T>, sep: T, d: seq<T>, o: nat) {
    o + |d| <= |s| && s[o..o + |d|] == d
    && (o > 0 ==> s[o - 1] == sep) && (o + |d| < |s| ==> s[o + |d|] == sep)
  }

  /** Where piece `k` starts in the join of `parts`. */
  function Offset<T>(parts: seq<seq<T>>, k: nat): nat
    requires k < |parts|
  {
    if k == 0 then 0 else |parts[0]| + 1 + Offset(parts[1..], k - 1)
  }

  /** Piece `k` of a join sits at `Offset(parts, k)`, between separators. */
  lemma {:induction false} JoinPlaces<T>(parts: seq<seq<T>>, sep: T, k: nat)
    requires k < |parts|
    ensures SegmentAt(Join(parts, sep), sep, parts[k], Offset(parts, k))
    decreases k
  {
    var s := Join(parts, sep);
    if |parts| > 1 {
      var tail := Join(parts[1..], sep);
      assert s == parts[0] + [sep] + tail;
      if k > 0 {
        JoinPlaces(parts[1..], sep, k - 1);
        assert parts[1..][k - 1] == parts[k];
        SegmentShift(parts[0], sep, tail, parts[k], Offset(parts[1..], k - 1));
      } else {
        assert s[..|parts[0]|] == parts[0];
      }
    }
  }

  /** A segment of `tail` is a segment, further on, of `pre + [sep] + tail`. */
  lemma SegmentShift<T>(pre: seq<T>, sep: T, tail: seq<T>, d: seq<T>, o: nat)
    requires SegmentAt(tail, sep, d, o)
    ensures SegmentAt(pre + [sep] + tail, sep, d, |pre| + 1 + o)
  {
    var s := pre + [sep] + tail;
    var shift := |pre| + 1;
    assert s[shift + o..shift + o + |d|] == tail[o..o + |d|];
    if o > 0 {
      assert s[shift + o - 1] == tail[o - 1];
    }
  }

  /** The elements of `s` that satisfy `p`, in order (`Iterator::filter`). */
  function Filter<T>(s: seq<T>, p: T -> bool): (r: seq<T>)
    ensures |r| <= |s|
    ensures forall k :: 0 <= k < |r| ==> p(r[k]) && r[k] in s
    ensures forall x :: x in s && p(x) ==> x in r
  {
    if s == [] then []
    else
      var rest := Filter(s[1..], p);
      assert forall x :: x in s[1..] ==> x in s;
      if p(s[0]) then [s[0]] + rest else rest
  }

  /** Filtering keeps order: it distributes over concatenation. */
  lemma {:induction false} FilterAppend<T>(a: seq<T>, b: seq<T>, p: T -> bool)
    ensures Filter(a + b, p) == Filter(a, p) + Filter(b, p)
    decreases |a|
  {
    if a != [] {
      assert (a + b)[1..] == a[1..] + b;
      FilterAppend(a[1..], b, p);
    } else {
      assert a + b == b;
    }
  }
}
