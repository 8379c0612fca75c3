/** The part of `java.nio.ByteBuffer` the classifier input goes through: a
    direct buffer of a fixed number of bytes, filled by `putFloat` at an
    advancing byte position.

    Each `putFloat` occupies four bytes; the model keeps one slot per
    four-byte float and stores in it the colour channel the float was computed
    from, so that slot `i` covers bytes `4·i .. 4·i + 3`. The float itself, the
    channel divided by 255, is not modelled. */
module FloatBuffers {

  /** Bytes written by one `putFloat`. */
  const FloatBytes: nat := 4

  class FloatBuffer {
    /** The size in bytes given to `allocateDirect`. */
    const capacity: nat
    /** The floats of the buffer, in byte order. */
    const slots: array<int>
    /** The byte offset of the next write. */
    var position: nat

    ghost predicate Valid()
      reads this
    {
      capacity % FloatBytes == 0 && slots.Length == capacity / FloatBytes &&
      position % FloatBytes == 0 && position <= capacity
    }

    /** The floats written so far, in order. */
    ghost function Written(): (w: seq<int>)
      reads this, slots
      requires Valid()
    {
      slots[..position / FloatBytes]
    }

    /** `ByteBuffer.allocateDirect(capacity)`: a zero-filled buffer positioned
        at its start. */
    constructor AllocateDirect(capacity: nat)
      requires capacity % FloatBytes == 0
      ensures Valid() && fresh(slots)
      ensures this.capacity == capacity && position == 0
      ensures slots[..] == seq(capacity / FloatBytes, _ => 0)
    {
      this.capacity := capacity;
      slots := new int[capacity / FloatBytes](_ => 0);
      position := 0;
    }

    /** `rewind()`: back to the start, leaving the contents in place. */
    method Rewind()
      requires Valid()
      modifies this`position
      ensures Valid() && position == 0
    {
      position := 0;
    }

    /** `putFloat(value)`: store at the position and advance it by four bytes.
        When fewer than four bytes remain the library throws
        `BufferOverflowException`; here `ok` is false and nothing changes. */
    method PutFloat(value: int) returns (ok: bool)
      requires Valid()
      modifies this`position, slots
      ensures Valid()
      ensures ok == (old(position) + FloatBytes <= capacity)
      ensures ok ==> position == old(position) + FloatBytes
      ensures ok ==> slots[..] == old(slots[..])[old(position) / FloatBytes := value]
      ensures ok ==> Written() == old(Written()) + [value]
      ensures !ok ==> position == old(position) && slots[..] == old(slots[..])
    {
      ok := position + FloatBytes <= capacity;
      if ok {
        slots[position / FloatBytes] := value;
        position := position + FloatBytes;
      }
    }
  }
}
