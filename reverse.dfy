/**
 * `reverse` of src/zx0.c: reverses the bytes of a buffer between two
 * inclusive bounds, in place, with two cursors that move toward each other.
 * Backwards mode applies it to the whole input before compression and to the
 * whole output afterwards.  The C pointers `first` and `last` become indices
 * into the array.
 */
module Reverse {

  /** Reference definition: the whole sequence read back to front. */
  function Reversed<T>(s: seq<T>): (r: seq<T>)
    ensures |r| == |s|
  {
    if s == [] then [] else Reversed(s[1..]) + [s[0]]
  }

  /**
   * What `reverse(first, last)` leaves behind: the slice [first, last] read
   * back to front, the rest as it was.  When `first >= last` the loop guard
   * fails at once and nothing changes, whatever the bounds.
   */
  function ReverseRange<T>(s: seq<T>, first: int, last: int): (r: seq<T>)
    requires first < last ==> 0 <= first && last < |s|
    ensures |r| == |s|
  {
    if first >= last then s else s[..first] + Reversed(s[first..last + 1]) + s[last + 1..]
  }

  lemma {:induction false} ReversedAt<T>(s: seq<T>, k: int)
    requires 0 <= k < |s|
    ensures |Reversed(s)| == |s|
    ensures Reversed(s)[k] == s[|s| - 1 - k]
  {
    if k < |s| - 1 {
      ReversedAt(s[1..], k);
    }
  }

  /** Reading a sequence back to front twice gives it back. */
  lemma ReversedInvolution<T>(s: seq<T>)
    ensures Reversed(Reversed(s)) == s
  {
    forall k | 0 <= k < |s|
      ensures Reversed(Reversed(s))[k] == s[k]
    {
      ReversedAt(Reversed(s), k);
      ReversedAt(s, |s| - 1 - k);
    }
  }

  /** Reversal only reorders: it keeps every element with its multiplicity. */
  lemma {:induction false} ReversedPermutation<T>(s: seq<T>)
    ensures multiset(Reversed(s)) == multiset(s)
  {
    if s != [] {
      ReversedPermutation(s[1..]);
      assert s == [s[0]] + s[1..];
    }
  }

  /** Every position k in [first, last] receives the element from first + last - k. */
  lemma ReverseRangeInside<T>(s: seq<T>, first: int, last: int, k: int)
    requires first < last ==> 0 <= first && last < |s|
    requires first <= k <= last && 0 <= k < |s|
    ensures |ReverseRange(s, first, last)| == |s|
    ensures ReverseRange(s, first, last)[k] == s[first + last - k]
  {
    if first < last {
      var mid := s[first..last + 1];
      ReversedAt(mid, k - first);
      assert ReverseRange(s, first, last)[k] == Reversed(mid)[k - first];
    }
  }

  /** Every position outside [first, last] keeps its element. */
  lemma ReverseRangeOutside<T>(s: seq<T>, first: int, last: int, k: int)
    requires first < last ==> 0 <= first && last < |s|
    requires 0 <= k < |s| && (k < first || last < k)
    ensures |ReverseRange(s, first, last)| == |s|
    ensures ReverseRange(s, first, last)[k] == s[k]
  {
  }

  /** Reversing the same range twice restores the original buffer. */
  lemma ReverseRangeInvolution<T>(s: seq<T>, first: int, last: int)
    requires first < last ==> 0 <= first && last < |s|
    ensures ReverseRange(ReverseRange(s, first, last), first, last) == s
  {
    var once := ReverseRange(s, first, last);
    if first < last {
      var twice := ReverseRange(once, first, last);
      forall k | 0 <= k < |s|
        ensures twice[k] == s[k]
      {
        if first <= k <= last {
          ReverseRangeInside(once, first, last, k);
          ReverseRangeInside(s, first, last, first + last - k);
        } else {
          ReverseRangeOutside(once, first, last, k);
          ReverseRangeOutside(s, first, last, k);
        }
      }
    }
  }

  /** Reversing a range is a permutation of the buffer. */
  lemma ReverseRangePermutation<T>(s: seq<T>, first: int, last: int)
    requires first < last ==> 0 <= first && last < |s|
    ensures multiset(ReverseRange(s, first, last)) == multiset(s)
  {
    if first < last {
      ReversedPermutation(s[first..last + 1]);
      assert s == s[..first] + s[first..last + 1] + s[last + 1..];
    }
  }

  /**
   * The call `reverse(data, data + size - 1)` made in backwards mode
   * reverses the whole buffer, including the empty one (last = -1).
   */
  lemma ReverseWhole<T>(s: seq<T>)
    ensures ReverseRange(s, 0, |s| - 1) == Reversed(s)
  {
    if |s| <= 1 {
      if s != [] {
        assert s[1..] == [];
      }
    } else {
      assert s[..0] == [] && s[0..|s|] == s && s[|s|..] == [];
    }
  }

  /** A buffer that agrees with the pointwise description of a range reversal is that reversal. */
  lemma ReverseRangeUnique<T>(was: seq<T>, now: seq<T>, first: int, last: int)
    requires first < last ==> 0 <= first && last < |was|
    requires |now| == |was|
    requires forall k :: first <= k <= last && 0 <= k < |now| ==> now[k] == was[first + last - k]
    requires forall k :: 0 <= k < |now| && (k < first || last < k) ==> now[k] == was[k]
    ensures now == ReverseRange(was, first, last)
  {
    forall k | 0 <= k < |now|
      ensures now[k] == ReverseRange(was, first, last)[k]
    {
      if first <= k <= last {
        ReverseRangeInside(was, first, last, k);
      } else {
        ReverseRangeOutside(was, first, last, k);
      }
    }
  }

  /** The in-place loop, with the cursors `lo` and `hi` standing for `first` and `last`. */
  method Reverse(a: array<bv8>, first: int, last: int)
    requires first < last ==> 0 <= first && last < a.Length
    modifies a
    ensures a[..] == ReverseRange(old(a[..]), first, last)
    ensures forall k :: first <= k <= last && 0 <= k < a.Length ==> a[k] == old(a[first + last - k])
    ensures forall k :: 0 <= k < a.Length && (k < first || last < k) ==> a[k] == old(a[k])
    ensures first >= last ==> a[..] == old(a[..])
  {
    var lo, hi := first, last;
    while lo < hi
      invariant first <= lo && hi <= last && lo - first == last - hi
      invariant lo == first || (first < last && lo <= hi + 1)
      invariant forall k :: first <= k < lo ==> a[k] == old(a[first + last - k])
      invariant forall k :: hi < k <= last ==> a[k] == old(a[first + last - k])
      invariant forall k :: lo <= k <= hi && 0 <= k < a.Length ==> a[k] == old(a[k])
      invariant forall k :: 0 <= k < a.Length && (k < first || last < k) ==> a[k] == old(a[k])
    {
      var c := a[lo];
      a[lo] := a[hi];
      a[hi] := c;
      lo, hi := lo + 1, hi - 1;
    }
    ReverseRangeUnique(old(a[..]), a[..], first, last);
  }
}
