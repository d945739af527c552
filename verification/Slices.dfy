/** Go slices that start at their array's first element, and `append`. */
module Slices {
  datatype Slice<T> = Slice(arr: array<T>, len: nat) {
    ghost predicate Valid() { len <= arr.Length }

    ghost function Elems(): seq<T>
      reads arr
      requires Valid()
    {
      arr[..len]
    }
  }

  /** In place when there is room, which overwrites whatever longer slices of the array hold there. */
  method Append<T>(s: Slice<T>, xs: seq<T>, fill: T) returns (r: Slice<T>)
    requires s.Valid()
    modifies s.arr
    ensures r.Valid() && r.len == s.len + |xs| && (r.arr == s.arr || fresh(r.arr))
    ensures r.Elems() == old(s.Elems()) + xs && s.Elems() == old(s.Elems())
  {
    if s.len + |xs| <= s.arr.Length {
      r := Slice(s.arr, s.len + |xs|);
    } else {
      var room: nat :| true;
      var bigger := new T[s.len + |xs| + room](_ => fill);
      forall k | 0 <= k < s.len {
        bigger[k] := s.arr[k];
      }
      r := Slice(bigger, s.len + |xs|);
    }
    forall k | s.len <= k < s.len + |xs| {
      r.arr[k] := xs[k - s.len];
    }
  }

  /** A slice of its own, with the same elements. */
  method Copy<T>(s: Slice<T>, fill: T) returns (r: Slice<T>)
    requires s.Valid()
    ensures r.Valid() && fresh(r.arr) && r.Elems() == s.Elems()
  {
    var none := new T[0];
    r := Slice(none, 0);
    r := Append(r, s.arr[..s.len], fill);
  }
}
