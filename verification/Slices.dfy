/** Go slices that start at the head of their backing array, and deletion in place. */
module Slices {
  datatype Slice<T> = Slice(arr: array<T>, len: nat) {
    predicate Valid() {
      len <= arr.Length
    }

    ghost function Elems(): seq<T>
      requires Valid()
      reads arr
    {
      arr[..len]
    }
  }

  function Without<T>(s: seq<T>, i: nat): seq<T>
    requires i < |s|
  {
    s[..i] + s[i + 1..]
  }

  /** slices.Delete(s, i, i+1): shifts the tail left and clears the freed slot. */
  method DeleteAt<T>(s: Slice<T>, i: nat, zero: T) returns (r: Slice<T>)
    requires s.Valid() && i < s.len
    modifies s.arr
    ensures r == Slice(s.arr, s.len - 1)
    ensures r.Elems() == Without(old(s.Elems()), i)
    ensures s.arr[s.len - 1] == zero && s.arr[s.len..] == old(s.arr[s.len..])
  {
    for j := i to s.len - 1
      invariant forall k | 0 <= k < i :: s.arr[k] == old(s.arr[k])
      invariant forall k | i <= k < j :: s.arr[k] == old(s.arr[k + 1])
      invariant forall k | j <= k < s.arr.Length :: s.arr[k] == old(s.arr[k])
    {
      s.arr[j] := s.arr[j + 1];
    }
    ghost var want := Without(old(s.Elems()), i);
    assert forall k | 0 <= k < s.len - 1 :: s.arr[k] == want[k];
    s.arr[s.len - 1] := zero;
    r := Slice(s.arr, s.len - 1);
  }

  /** Position of the first element that equals x, or -1. */
  method Index<T(==)>(s: Slice<T>, x: T) returns (i: int)
    requires s.Valid()
    ensures -1 <= i < s.len
    ensures i >= 0 ==> s.Elems()[i] == x && x !in s.Elems()[..i]
    ensures i == -1 ==> x !in s.Elems()
  {
    for k := 0 to s.len
      invariant x !in s.Elems()[..k]
    {
      if s.arr[k] == x {
        return k;
      }
    }
    return -1;
  }

  lemma WithoutMultiset<T>(s: seq<T>, i: nat)
    requires i < |s|
    ensures multiset(Without(s, i)) + multiset{s[i]} == multiset(s)
  {
    assert s == s[..i] + [s[i]] + s[i + 1..];
  }
}
