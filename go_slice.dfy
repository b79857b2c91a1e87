/** Go slices of strings, the type of the handler's path: a header holding a backing
    array and a length, where the array's length is the slice's capacity. Two headers
    may share one array; `append` writes into it whenever it has room. */
module GoSlice {

  datatype Slice = Slice(arr: array<string>, len: nat)

  predicate Valid(s: Slice)
    reads s.arr
  {
    s.len <= s.arr.Length
  }

  /** What the slice reads as: the first `len` cells of its array. */
  function Elems(s: Slice): seq<string>
    requires Valid(s)
    reads s.arr
  {
    s.arr[..s.len]
  }

  predicate PowerOfTwo(c: nat)
    decreases c
  {
    c == 1 || (c > 1 && c % 2 == 0 && PowerOfTwo(c / 2))
  }

  /** The full capacities a slice grown from nil by `append` passes through below 256:
      0 and the powers of two. */
  predicate Doubling(c: nat) {
    c == 0 || (c < 256 && PowerOfTwo(c))
  }

  /** The capacity `append` allocates for a full slice of strings whose capacity is 0
      or a power of two below 256: twice the old one, and 1 for an empty slice. The
      runtime doubles any capacity below 256 and then rounds the byte size up to a size
      class; for these capacities 16 bytes times the new capacity is itself a size
      class, so nothing is rounded up. Other capacities are not covered. */
  function Grown(c: nat): (n: nat)
    requires Doubling(c)
    ensures n > c
    ensures c > 0 ==> n == 2 * c
    ensures n < 256 ==> Doubling(n)
  {
    if c == 0 then 1 else 2 * c
  }

  /** The nil slice: no elements and no room. */
  method Nil() returns (s: Slice)
    ensures fresh(s.arr) && Valid(s) && s.len == 0 && s.arr.Length == 0
  {
    var a := new string[0];
    s := Slice(a, 0);
  }

  /** append(s, x). With spare capacity, x goes into the cell after the slice's last
      element, in the array s shares with every slice made from it; otherwise the
      elements are copied into a fresh, larger array. Either way the result reads as
      s followed by x. */
  method Append(s: Slice, x: string) returns (t: Slice)
    requires Valid(s) && (s.len == s.arr.Length ==> Doubling(s.len))
    modifies s.arr
    ensures Valid(t) && t.len == s.len + 1
    ensures Elems(t) == old(Elems(s)) + [x]
    ensures s.len < s.arr.Length ==> t.arr == s.arr && s.arr[..] == old(s.arr[..])[s.len := x]
    ensures s.len == s.arr.Length ==> fresh(t.arr) && t.arr.Length == Grown(s.len) && unchanged(s.arr)
  {
    if s.len < s.arr.Length {
      s.arr[s.len] := x;
      t := Slice(s.arr, s.len + 1);
      assert Elems(t) == Elems(t)[..s.len] + [x];
    } else {
      var a := new string[Grown(s.arr.Length)](_ => "");
      for i := 0 to s.len
        modifies a
        invariant a[..i] == s.arr[..i]
      {
        a[i] := s.arr[i];
      }
      a[s.len] := x;
      t := Slice(a, s.len + 1);
      assert Elems(t) == Elems(t)[..s.len] + [x];
    }
  }
}
