/** Go slices: views of an array that other views may share. */
module Slices {
  import opened Prelude

  /** The elements from `off` on, `len` of them; the capacity reaches to the end of the array. */
  datatype Slice<X> = Slice(a: array<X>, off: nat, len: nat) {

    predicate Fits() {
      off + len <= a.Length
    }

    function View(): (s: seq<X>)
      requires Fits()
      reads a
      ensures |s| == len
    {
      a[off..off + len]
    }

    /** `s[i:j]`: the same array, no copy. */
    function Sub(i: nat, j: nat): Slice<X>
      requires i <= j <= len
    {
      Slice(a, off + i, j - i)
    }
  }

  /**
   `append(s, x)`: writes behind the view when the array has room there, and moves to
   a larger array, with some `spare` room, when it has not.
   */
  method Append<X>(s: Slice<X>, x: X, spare: nat) returns (r: Slice<X>)
    requires s.Fits()
    modifies s.a
    ensures r.Fits() && r.View() == old(s.View()) + [x]
    ensures forall k :: 0 <= k < s.a.Length && k != s.off + s.len ==> s.a[k] == old(s.a[k])
    ensures if r.a == s.a then r.off == s.off && r.len == s.len + 1 else fresh(r.a) && s.a[..] == old(s.a[..])
  {
    if s.off + s.len < s.a.Length {
      s.a[s.off + s.len] := x;
      r := s.(len := s.len + 1);
    } else {
      var bigger := new X[s.len + 1 + spare](_ => x);
      for i := 0 to s.len
        invariant forall k :: 0 <= k < i ==> bigger[k] == s.a[s.off + k]
        invariant bigger[s.len] == x && s.a[..] == old(s.a[..])
      {
        bigger[i] := s.a[s.off + i];
      }
      r := Slice(bigger, 0, s.len + 1);
    }
  }

  /**
   The slice either ends at least as late in the same array, or lives in a new array;
   up to its end, the array it was in holds what it held.
   */
  twostate predicate Extended<X>(was: Slice<X>, new now: Slice<X>)
    reads was.a
  {
    (if now.a == was.a then was.off + was.len <= now.off + now.len else fresh(now.a)) &&
    forall k :: 0 <= k < was.off + was.len && k < was.a.Length ==> was.a[k] == old(was.a[k])
  }

  lemma SubView<X>(s: Slice<X>, i: nat, j: nat)
    requires s.Fits() && i <= j <= s.len
    ensures s.Sub(i, j).Fits() && s.Sub(i, j).View() == s.View()[i..j]
  {
    var sub, part := s.Sub(i, j).View(), s.View()[i..j];
    assert |sub| == |part|;
    forall k | 0 <= k < j - i
      ensures sub[k] == part[k]
    {
      assert sub[k] == s.a[s.off + i + k];
      assert part[k] == s.View()[i + k] == s.a[s.off + (i + k)];
    }
  }

  /** Appends and then keeps only the newest `max` elements, by moving the start of the view. */
  method AppendTrimmed<X>(s: Slice<X>, x: X, spare: nat, max: nat) returns (r: Slice<X>)
    requires s.Fits()
    modifies s.a
    ensures r.Fits() && r.View() == Suffix(old(s.View()) + [x], max) && Extended(s, r)
  {
    r := Append(s, x, spare);
    if r.len > max {
      SubView(r, r.len - max, r.len);
      r := r.Sub(r.len - max, r.len);
    }
  }

  /** A view handed out earlier: if it is of the array now in use, it ends no later than the slice in use. */
  predicate Protected<X>(view: Slice<X>, live: Slice<X>) {
    view.Fits() && live.Fits() && (view.a == live.a ==> view.off + view.len <= live.off + live.len)
  }

  /** A view of part of a slice. */
  predicate IsPartOf<X>(view: Slice<X>, s: Slice<X>) {
    view.Fits() && view.a == s.a && s.off <= view.off && view.off + view.len <= s.off + s.len
  }
}
