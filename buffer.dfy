/**
 * Memory views and linear cursors (rtl/buffer.hpp). A buffer is `size`
 * bytes of memory read and written as elements of one type T that is
 * `width` bytes wide: `get`/`put` index in elements. The cursors count
 * elements in `position` but pass `position * width` to `get`/`put`, so
 * the index is scaled twice when T is wider than a byte.
 */
module Buffer {
  import Modular

  /** The element index the cursors pass to get/put at a given position. */
  function CursorIndex(position: nat, width: nat): nat
  {
    position * width
  }

  /** Only for one-byte elements do successive positions reach successive elements. */
  lemma ConsecutiveOnlyForBytes(width: nat)
    requires width >= 1
    ensures (forall p: nat :: CursorIndex(p + 1, width) == CursorIndex(p, width) + 1) <==> width == 1
  {
    if width != 1 {
      assert CursorIndex(1, width) != CursorIndex(0, width) + 1;
    }
  }

  /**
   * With elements at least two bytes wide and at least two of them, the
   * position one before the end is not the end, yet its element index lies
   * past the last element.
   */
  lemma CursorOverruns(width: nat, elements: nat)
    requires width >= 2 && elements >= 2
    ensures CursorIndex(elements - 1, width) != elements * width
    ensures CursorIndex(elements - 1, width) >= elements
  {
    assert (elements - 1) * width >= (elements - 1) * 2 by {
      Modular.MulMonotonic(elements - 1, 2, width);
    }
  }

  /**
   * Short of the end, a position counted in elements indexes an element of
   * the memory, as long as the memory holds the buffer's size.
   */
  lemma BeforeEndInRange(position: nat, width: nat, size: nat, elements: nat)
    requires width >= 1 && position * width < size <= elements * width
    ensures position < elements
  {
    if position >= elements {
      Modular.MulMonotonic(width, elements, position);
    }
  }

  /**
   * end_reached() compares for equality, so when the size is not a whole
   * number of elements (3 bytes read as u16) no position ever reaches the end.
   */
  lemma UnalignedNeverEnds(position: nat, width: nat, size: nat)
    requires width >= 1 && size % width != 0
    ensures position * width != size
  {
    Modular.MulMod(position, width);
  }

  /** When the size is a whole number of elements, a step short of the end stays within it. */
  lemma AlignedStepWithin(position: nat, width: nat, size: nat)
    requires width >= 1 && size % width == 0 && position * width < size
    ensures (position + 1) * width <= size
  {
    var k := size / width;
    assert size == k * width;
    if position >= k {
      Modular.MulMonotonic(width, k, position);
    }
    Modular.MulMonotonic(width, position + 1, k);
  }

  /**
   * rtl::buffer: the memory `data` and the byte size the caller gives, which
   * nothing checks against the memory. `width` is sizeof(T) of the element
   * type the buffer is read or written as.
   */
  class Buffer<T> {
    const data: array<T>
    const size: nat
    const width: nat

    /** buffer(data, size): both are stored as given. */
    constructor (data: array<T>, size: nat, width: nat)
      requires width >= 1
      ensures this.data == data && this.size == size && this.width == width
    {
      this.data := data;
      this.size := size;
      this.width := width;
    }

    /** size(): the size given at construction, which no operation changes. */
    function Size(): nat
      reads this
    {
      size
    }

    /** The memory holds the buffer's size, in elements of `width` bytes. */
    ghost predicate Valid()
      reads this
    {
      width >= 1 && size <= data.Length * width
    }

    /** get<T>(index): element `index`; no bounds check, so the caller keeps it in range. */
    function Get(index: nat): T
      requires index < data.Length
      reads this, data
    {
      data[index]
    }

    /** put<T>(index, value): only element `index` changes. */
    method Put(index: nat, value: T)
      requires index < data.Length
      modifies data
      ensures data[..] == old(data[..])[index := value]
    {
      data[index] := value;
    }
  }

  /** linear_reader<T> */
  class LinearReader<T> {
    const buffer: Buffer<T>
    var position: nat

    constructor (buffer: Buffer<T>)
      ensures this.buffer == buffer && position == 0
    {
      this.buffer := buffer;
      position := 0;
    }

    ghost predicate Valid()
      reads this, buffer
    {
      buffer.Valid() && position * buffer.width <= buffer.size
    }

    /** end_reached(): the position, in bytes, is the buffer's size. */
    predicate EndReached()
      reads this, buffer
    {
      position * buffer.width == buffer.size
    }

    /** read() as written: element position * width, then the position advances by one. */
    method Read() returns (r: T)
      requires CursorIndex(position, buffer.width) < buffer.data.Length
      modifies this
      ensures r == buffer.data[CursorIndex(old(position), buffer.width)]
      ensures position == old(position) + 1
    {
      r := buffer.Get(position * buffer.width);
      position := position + 1;
    }

    /** read() as evidently intended: element `position`, in range whenever the end is not reached. */
    method ReadIntended() returns (r: T)
      requires Valid() && !EndReached()
      modifies this
      ensures r == buffer.data[old(position)]
      ensures position == old(position) + 1
      ensures buffer.size % buffer.width == 0 ==> Valid()
    {
      BeforeEndInRange(position, buffer.width, buffer.size, buffer.data.Length);
      if buffer.size % buffer.width == 0 {
        AlignedStepWithin(position, buffer.width, buffer.size);
      }
      r := buffer.Get(position);
      position := position + 1;
    }
  }

  /** linear_writer<T> */
  class LinearWriter<T> {
    const buffer: Buffer<T>
    var position: nat

    constructor (buffer: Buffer<T>)
      ensures this.buffer == buffer && position == 0
    {
      this.buffer := buffer;
      position := 0;
    }

    ghost predicate Valid()
      reads this, buffer
    {
      buffer.Valid() && position * buffer.width <= buffer.size
    }

    predicate EndReached()
      reads this, buffer
    {
      position * buffer.width == buffer.size
    }

    /** write(value) as written: stores at element position * width and advances. */
    method Write(value: T)
      requires CursorIndex(position, buffer.width) < buffer.data.Length
      modifies this, buffer.data
      ensures buffer.data[..] == old(buffer.data[..])[CursorIndex(old(position), buffer.width) := value]
      ensures position == old(position) + 1
    {
      buffer.Put(position * buffer.width, value);
      position := position + 1;
    }

    /** write(value) as evidently intended: stores at element `position`. */
    method WriteIntended(value: T)
      requires Valid() && !EndReached()
      modifies this, buffer.data
      ensures buffer.data[..] == old(buffer.data[..])[old(position) := value]
      ensures position == old(position) + 1
      ensures buffer.size % buffer.width == 0 ==> Valid()
    {
      BeforeEndInRange(position, buffer.width, buffer.size, buffer.data.Length);
      if buffer.size % buffer.width == 0 {
        AlignedStepWithin(position, buffer.width, buffer.size);
      }
      buffer.Put(position, value);
      position := position + 1;
    }
  }
}
