/** A growable byte buffer, the `Vec<u8>` that serialization fills.
    Only the parts the codec uses are modelled: creation with a capacity,
    appending a slice, and reading back the contents. */
module Buffer {

  type byte = bv8

  class ByteVec {
    // The bytes stored so far, in order.
    var elems: seq<byte>
    // The number of bytes the buffer can hold before it must reallocate.
    var capacity: nat

    ghost predicate Valid()
      reads this
    {
      |elems| <= capacity
    }

    /** An empty buffer with room for at least `n` bytes (`Vec::with_capacity`). */
    constructor WithCapacity(n: nat)
      ensures Valid()
      ensures elems == [] && capacity >= n
    {
      elems := [];
      capacity := n;
    }

    /** Appends every byte of `s`, in order, after the current contents
        (`Vec::extend_from_slice`). The buffer reallocates only when the
        current capacity cannot hold the result. */
    method ExtendFromSlice(s: seq<byte>)
      requires Valid()
      modifies this
      ensures Valid()
      ensures elems == old(elems) + s
      ensures capacity >= old(capacity)
      ensures old(|elems|) + |s| <= old(capacity) ==> capacity == old(capacity)
    {
      var needed := |elems| + |s|;
      if capacity < needed {
        capacity := if needed < 2 * capacity then 2 * capacity else needed;
      }
      elems := elems + s;
    }
  }
}
