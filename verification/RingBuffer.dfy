/**
 * A ring buffer of bytes, which holds a queue.
 */
module RingBuffer {
  import opened Bytes

  /** Where index i falls when it runs past the end of size elements. */
  ghost function Wrap(i: nat, size: nat): nat
    requires i < 2 * size
  {
    if i >= size then i - size else i
  }

  /** The n elements of d from index b on, continued at the front. */
  ghost function Window(d: seq<Byte>, b: nat, n: nat): (s: seq<Byte>)
    requires (b < |d| || n == 0) && n <= |d|
    ensures |s| == n
  {
    seq(n, k requires 0 <= k < n => d[Wrap(b + k, |d|)])
  }

  lemma WindowAt(d: seq<Byte>, b: nat, n: nat, k: nat)
    requires b < |d| && k < n <= |d|
    ensures Window(d, b, n)[k] == d[Wrap(b + k, |d|)]
  {
  }

  lemma WindowDrop(d: seq<Byte>, b: nat, n: nat, p: nat)
    requires b < |d| && p <= n <= |d|
    ensures Window(d, b, n)[p..] == Window(d, Wrap(b + p, |d|), n - p)
    ensures Window(d, b, n)[..p] == Window(d, b, p)
  {
    forall k | 0 <= k < n - p ensures Window(d, b, n)[p..][k] == Window(d, Wrap(b + p, |d|), n - p)[k] {
      WindowAt(d, b, n, p + k);
      WindowAt(d, Wrap(b + p, |d|), n - p, k);
    }
  }

  /** A window is one stretch of the data, or two. */
  lemma WindowParts(d: seq<Byte>, b: nat, n: nat)
    requires b < |d| && n <= |d|
    ensures Window(d, b, n) == if b + n <= |d| then d[b..b + n] else d[b..] + d[..b + n - |d|]
  {
    var parts := if b + n <= |d| then d[b..b + n] else d[b..] + d[..b + n - |d|];
    assert |parts| == n;
    forall k | 0 <= k < n ensures Window(d, b, n)[k] == parts[k] {
      WindowAt(d, b, n, k);
    }
  }

  /** Writing after a window extends it. */
  lemma WriteOnce(d: seq<Byte>, b: nat, n: nat, bytes: seq<Byte>)
    requires b < |d| && n + |bytes| <= |d| && Wrap(b + n, |d|) + |bytes| <= |d|
    ensures Window(Overwrite(d, Wrap(b + n, |d|), bytes), b, n + |bytes|) == Window(d, b, n) + bytes
  {
    var e := Overwrite(d, Wrap(b + n, |d|), bytes);
    forall k | 0 <= k < n + |bytes| ensures Window(e, b, n + |bytes|)[k] == (Window(d, b, n) + bytes)[k] {
      WindowAt(e, b, n + |bytes|, k);
      OverwriteAt(d, Wrap(b + n, |d|), bytes, Wrap(b + k, |d|));
      if k < n {
        WindowAt(d, b, n, k);
      }
    }
  }

  lemma WriteTwice(d: seq<Byte>, b: nat, n: nat, first: seq<Byte>, second: seq<Byte>)
    requires b < |d| && n + |first| + |second| <= |d| && b + n + |first| == |d|
    ensures Window(Overwrite(Overwrite(d, b + n, first), 0, second), b, n + (|first| + |second|))
        == Window(d, b, n) + (first + second)
  {
    var e := Overwrite(d, b + n, first);
    var f := Overwrite(e, 0, second);
    var m := n + (|first| + |second|);
    forall k | 0 <= k < m ensures Window(f, b, m)[k] == (Window(d, b, n) + (first + second))[k] {
      WindowAt(f, b, m, k);
      OverwriteAt(e, 0, second, Wrap(b + k, |d|));
      OverwriteAt(d, b + n, first, Wrap(b + k, |d|));
      if k < n {
        WindowAt(d, b, n, k);
      }
    }
  }

  lemma WrapIsModulo(i: nat, size: nat)
    requires i < 2 * size
    ensures i % size == Wrap(i, size)
  {
    if i >= size {
      assert i == size + (i - size);
    }
  }

  class CircularBuffer {
    var begIndex: nat
    var endIndex: nat
    var size: nat
    const capacity: nat
    const data: array<Byte>

    constructor (capacity: nat)
      ensures Valid() && Contents() == [] && fresh(data) && this.capacity == capacity
    {
      this.capacity := capacity;
      data := new Byte[capacity];
      begIndex, endIndex, size := 0, 0, 0;
    }

    ghost predicate Valid()
      reads this
    {
      && data.Length == capacity && size <= capacity
      && if capacity == 0 then begIndex == 0 && endIndex == 0
         else begIndex < capacity && endIndex == Wrap(begIndex + size, capacity)
    }

    /** The queue, front first. */
    ghost function Contents(): (s: seq<Byte>)
      requires Valid()
      reads this, data
      ensures |s| == size
    {
      Window(data[..], begIndex, size)
    }

    method Reset()
      requires Valid()
      modifies this
      ensures Valid() && Contents() == []
    {
      begIndex, endIndex, size := 0, 0, 0;
    }

    /** Stores bytes after the last one, for which there is room. */
    method Store(bytes: seq<Byte>)
      requires Valid() && capacity > 0 && size + |bytes| <= capacity
      modifies this, data
      ensures Valid() && Contents() == old(Contents()) + bytes
    {
      if |bytes| <= capacity - endIndex {
        WriteOnce(data[..], begIndex, size, bytes);
        Copy(data, endIndex, bytes);
        endIndex := endIndex + |bytes|;
        if endIndex == capacity {
          endIndex := 0;
        }
      } else {
        var size1 := capacity - endIndex;
        var size2 := |bytes| - size1;
        assert bytes[..size1] + bytes[size1..] == bytes;
        WriteTwice(data[..], begIndex, size, bytes[..size1], bytes[size1..]);
        Copy(data, endIndex, bytes[..size1]);
        Copy(data, 0, bytes[size1..]);
        endIndex := size2;
      }
      size := size + |bytes|;
    }

    /** Appends as many of the bytes as there is room for. */
    method Write(bytes: seq<Byte>) returns (written: nat)
      requires Valid()
      modifies this, data
      ensures Valid() && written == Min(|bytes|, capacity - old(size))
      ensures Contents() == old(Contents()) + bytes[..written]
    {
      if |bytes| == 0 {
        return 0;
      }
      written := Min(|bytes|, capacity - size);
      if capacity > 0 {
        Store(bytes[..written]);
      }
    }

    /** memcpy of the front of the queue, in one step or two. */
    method CopyFront(dst: array<Byte>, at: nat, count: nat)
      requires Valid() && capacity > 0 && dst != data && count <= size && at + count <= dst.Length
      modifies dst
      ensures dst[..] == Overwrite(old(dst[..]), at, old(Contents())[..count])
      ensures data[..] == old(data[..])
    {
      WindowDrop(data[..], begIndex, size, count);
      WindowParts(data[..], begIndex, count);
      if count <= capacity - begIndex {
        Copy(dst, at, data[begIndex..begIndex + count]);
      } else {
        var size1 := capacity - begIndex;
        OverwriteTwice(dst[..], at, data[begIndex..], data[..count - size1]);
        Copy(dst, at, data[begIndex..begIndex + size1]);
        Copy(dst, at + size1, data[..count - size1]);
      }
    }

    /** Moves the front of the queue on. */
    method Skip(count: nat)
      requires Valid() && count <= size
      modifies this
      ensures Valid() && Contents() == old(Contents())[count..]
    {
      if capacity > 0 {
        WindowDrop(data[..], begIndex, size, count);
      }
      if count <= capacity - begIndex {
        begIndex := begIndex + count;
        if begIndex == capacity {
          begIndex := 0;
        }
      } else {
        var size1 := capacity - begIndex;
        begIndex := count - size1;
      }
      size := size - count;
    }

    /** Takes up to count bytes from the front and stores them in dst from index at on. */
    method Read(dst: array<Byte>, at: nat, count: nat) returns (read: nat)
      requires Valid() && dst != data && at + Min(count, size) <= dst.Length
      modifies this, dst
      ensures Valid() && read == Min(count, old(size))
      ensures Contents() == old(Contents())[read..]
      ensures dst[..] == Overwrite(old(dst[..]), at, old(Contents())[..read])
    {
      if count == 0 {
        return 0;
      }
      read := Min(count, size);
      if capacity > 0 {
        CopyFront(dst, at, read);
      }
      Skip(read);
    }

    /** The byte at an index from the front; not ok when there is none. */
    method Get(index: nat) returns (ok: bool, value: Byte)
      requires Valid()
      ensures ok <==> index < size
      ensures ok ==> value == Contents()[index]
    {
      if index >= size {
        return false, 0;
      }
      WrapIsModulo(index + begIndex, capacity);
      return true, data[(index + begIndex) % capacity];
    }

    method PopFront(count: nat)
      requires Valid()
      modifies this
      ensures Valid() && Contents() == old(Contents())[Min(count, old(size))..]
    {
      Skip(Min(count, size));
    }
  }
}
