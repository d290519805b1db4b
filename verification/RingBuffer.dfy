/** The byte ring as one thread uses it: positions and storage updated in place. */
module RingBuffer {
  import opened Common
  import opened Modular
  import SpscRing

  /** The bytes from position r up to position w, continuing at the front of the storage. */
  ghost function Window(d: seq<Byte>, r: nat, w: nat): (q: seq<Byte>)
    requires r < |d| && w < |d|
    ensures |q| == SpscRing.Level(|d|, w, r) < |d|
  {
    if w >= r then d[r..w] else d[r..] + d[..w]
  }

  /** The same bytes by slot number, as the concurrent model counts them. */
  lemma WindowIsContents(s: SpscRing.Ring)
    requires SpscRing.Shaped(s)
    ensures Window(s.data, s.readPos, s.writePos) == SpscRing.Contents(s)
  {
    var q := Window(s.data, s.readPos, s.writePos);
    forall i | 0 <= i < |q|
      ensures q[i] == SpscRing.Contents(s)[i]
    {
      Wrap(s.readPos, i, s.capacity);
    }
  }

  function Splice(d: seq<Byte>, at: nat, x: seq<Byte>): (d': seq<Byte>)
    requires at + |x| <= |d|
    ensures |d'| == |d|
    ensures forall i :: 0 <= i < |d| ==> d'[i] == if at <= i < at + |x| then x[i - at] else d[i]
  {
    d[..at] + x + d[at + |x|..]
  }

  /** The two copies of a write: up to the end of the storage, then from its front. */
  function SplitCopy(d: seq<Byte>, w: nat, x: seq<Byte>): (d': seq<Byte>)
    requires w < |d| && |x| < |d|
    ensures |d'| == |d|
  {
    var firstPart := Min(|d| - w, |x|);
    Splice(Splice(d, w, x[..firstPart]), 0, x[firstPart..])
  }

  /** The second copy of a split write lands in front of the first. */
  lemma SpliceTwice(d: seq<Byte>, w: nat, x: seq<Byte>, firstPart: nat)
    requires firstPart <= |x| <= |d| && w + firstPart <= |d| && |x| - firstPart <= w
    ensures Splice(Splice(d, w, x[..firstPart]), 0, x[firstPart..])
         == x[firstPart..] + d[|x| - firstPart..w] + x[..firstPart] + d[w + firstPart..]
  {
  }

  /** Filling the slots after w, in two parts if need be, appends to the window. */
  lemma WindowAppend(d: seq<Byte>, d': seq<Byte>, r: nat, w: nat, x: seq<Byte>, firstPart: nat)
    requires r < |d| == |d'| && w < |d|
    requires |Window(d, r, w)| + |x| < |d|
    requires firstPart == Min(|d| - w, |x|)
    requires d' == x[firstPart..] + d[|x| - firstPart..w] + x[..firstPart] + d[w + firstPart..]
    ensures Window(d', r, (w + |x|) % |d|) == Window(d, r, w) + x
  {
    Wrap(w, |x|, |d|);
    if w + |x| < |d| {
      AppendInside(d, d', r, w, x);
    } else {
      AppendAround(d, d', r, w, x);
    }
  }

  lemma AppendInside(d: seq<Byte>, d': seq<Byte>, r: nat, w: nat, x: seq<Byte>)
    requires r < |d| == |d'| && w + |x| < |d| && (w >= r || w + |x| < r)
    requires d' == x[|x|..] + d[0..w] + x[..|x|] + d[w + |x|..]
    ensures Window(d', r, w + |x|) == Window(d, r, w) + x
  {
    assert d' == d[..w] + x + d[w + |x|..];
    if w >= r {
      assert d'[r..w + |x|] == d[r..w] + x;
    } else {
      assert d'[..w + |x|] == d[..w] + x;
      assert d'[r..] == d[r..];
      assert d[r..] + (d[..w] + x) == (d[r..] + d[..w]) + x;
    }
  }

  lemma AppendAround(d: seq<Byte>, d': seq<Byte>, r: nat, w: nat, x: seq<Byte>)
    requires r <= w < |d| == |d'| && |d| <= w + |x| < |d| + r
    requires var f := |d| - w; d' == x[f..] + d[|x| - f..w] + x[..f] + d[w + f..]
    ensures Window(d', r, w + |x| - |d|) == Window(d, r, w) + x
  {
    var f := |d| - w;
    assert d'[r..] == d[r..w] + x[..f];
    assert d'[..|x| - f] == x[f..];
    assert (d[r..w] + x[..f]) + x[f..] == d[r..w] + x;
  }

  lemma WriteAppends(d: seq<Byte>, r: nat, w: nat, x: seq<Byte>)
    requires r < |d| && w < |d| && |Window(d, r, w)| + |x| < |d|
    ensures Window(SplitCopy(d, w, x), r, (w + |x|) % |d|) == Window(d, r, w) + x
  {
    var firstPart := Min(|d| - w, |x|);
    SpliceTwice(d, w, x, firstPart);
    WindowAppend(d, SplitCopy(d, w, x), r, w, x, firstPart);
  }

  lemma WindowDrop(d: seq<Byte>, r: nat, w: nat, n: nat)
    requires r < |d| && w < |d| && n <= |Window(d, r, w)|
    ensures Window(d, (r + n) % |d|, w) == Window(d, r, w)[n..]
  {
    Wrap(r, n, |d|);
  }

  /** The oldest bytes lie up to the end of the storage and then at its front. */
  lemma OldestBytes(d: seq<Byte>, r: nat, w: nat, n: nat)
    requires r < |d| && w < |d| && n <= |Window(d, r, w)|
    ensures var firstPart := Min(|d| - r, n);
            d[r..r + firstPart] + d[..n - firstPart] == Window(d, r, w)[..n]
  {
  }

  lemma SpliceBehind(output: seq<Byte>, x: seq<Byte>, y: seq<Byte>)
    requires |x| + |y| <= |output|
    ensures Splice(Splice(output, 0, x), |x|, y) == x + y + output[|x| + |y|..]
  {
  }

  lemma NothingSpliced(output: seq<Byte>, at: nat)
    requires at <= |output|
    ensures Splice(output, at, []) == output
  {
  }

  method CopyTo(output: array<Byte>, at: nat, x: seq<Byte>)
    requires at + |x| <= output.Length
    modifies output
    ensures output[..] == Splice(old(output[..]), at, x)
  {
    forall i | 0 <= i < |x| {
      output[at + i] := x[i];
    }
  }

  /** The two copies of a read, the second only if there is something left. */
  method CopyBoth(output: array<Byte>, x: seq<Byte>, y: seq<Byte>)
    requires |x| + |y| <= output.Length
    modifies output
    ensures output[..] == x + y + old(output[..])[|x| + |y|..]
  {
    SpliceBehind(output[..], x, y);
    hide Splice;
    CopyTo(output, 0, x);
    if |y| > 0 {
      CopyTo(output, |x|, y);
    } else {
      NothingSpliced(output[..], |x|);
    }
  }

  class AudioRingBuffer {
    const data: array<Byte>
    const capacity: nat
    const highWatermark: nat
    const lowWatermark: nat
    var readPos: nat
    var writePos: nat

    ghost predicate Valid()
      reads this
    {
      && capacity > 0 && data.Length == capacity
      && readPos < capacity && writePos < capacity
      && highWatermark == capacity * 3 / 4 && lowWatermark == capacity / 4
    }

    /** The unread bytes, oldest first. */
    ghost function Contents(): (q: seq<Byte>)
      requires Valid()
      reads this, data
      ensures |q| < capacity
    {
      Window(data[..], readPos, writePos)
    }

    /** A capacity of 0 can be built, but the arithmetic of the other methods has no meaning then. */
    constructor (size: nat)
      ensures capacity == data.Length == size && readPos == writePos == 0 && fresh(data)
      ensures highWatermark == size * 3 / 4 && lowWatermark == size / 4
      ensures size > 0 ==> Valid() && Contents() == []
    {
      data := new Byte[size](_ => 0);
      capacity := size;
      highWatermark := size * 3 / 4;
      lowWatermark := size / 4;
      readPos, writePos := 0, 0;
    }

    method Available() returns (n: nat)
      requires Valid()
      ensures n == |Contents()|
    {
      n := if writePos >= readPos then writePos - readPos else capacity - readPos + writePos;
    }

    method Free() returns (n: nat)
      requires Valid()
      ensures n == capacity - 1 - |Contents()|
    {
      var available := Available();
      n := capacity - available - 1;
    }

    method IsReady() returns (ready: bool)
      requires Valid()
      ensures ready <==> |Contents()| >= capacity * 3 / 4
    {
      var available := Available();
      ready := available >= highWatermark;
    }

    method IsUnderrunning() returns (under: bool)
      requires Valid()
      ensures under <==> |Contents()| < capacity / 4
    {
      var available := Available();
      under := available < lowWatermark;
    }

    /** Appends as much of the input as fits in one slot less than the capacity. */
    method Write(input: seq<Byte>) returns (n: nat)
      requires Valid()
      modifies this`writePos, data
      ensures Valid()
      ensures n == Min(|input|, capacity - 1 - |old(Contents())|)
      ensures Contents() == old(Contents()) + input[..n]
    {
      var space := Free();
      n := Min(|input|, space);
      if n == 0 {
        return;
      }
      CopyIn(input[..n]);
      Wrap(writePos, n, capacity);
      writePos := (writePos + n) % capacity;
    }

    method CopyIn(x: seq<Byte>)
      requires Valid() && |Contents()| + |x| < capacity
      modifies data
      ensures Window(data[..], readPos, (writePos + |x|) % capacity) == old(Contents()) + x
    {
      var firstPart := Min(capacity - writePos, |x|);
      WriteAppends(data[..], readPos, writePos, x);
      hide Window, Splice;
      CopyTo(data, writePos, x[..firstPart]);
      if firstPart < |x| {
        CopyTo(data, 0, x[firstPart..]);
      } else {
        NothingSpliced(data[..], 0);
      }
      assert data[..] == SplitCopy(old(data[..]), writePos, x);
    }

    /** Copies out the oldest bytes; the rest of the output array is left alone. */
    method Peek(output: array<Byte>) returns (n: nat)
      requires Valid() && output != data
      modifies output
      ensures Valid() && Contents() == old(Contents())
      ensures n == Min(output.Length, |Contents()|)
      ensures output[..] == Contents()[..n] + old(output[..])[n..]
    {
      var available := Available();
      n := Min(output.Length, available);
      if n == 0 {
        return;
      }
      var firstPart := Min(capacity - readPos, n);
      var secondPart := n - firstPart;
      OldestBytes(data[..], readPos, writePos, n);
      hide Window;
      CopyBoth(output, data[..][readPos..readPos + firstPart], data[..][..secondPart]);
    }

    /** Drops the oldest bytes. */
    method Skip(count: nat) returns (n: nat)
      requires Valid()
      modifies this`readPos
      ensures Valid()
      ensures n == Min(count, |old(Contents())|)
      ensures Contents() == old(Contents())[n..]
    {
      var available := Available();
      n := Min(count, available);
      WindowDrop(data[..], readPos, writePos, n);
      Wrap(readPos, n, capacity);
      readPos := (readPos + n) % capacity;
    }

    /** Reading is peeking and then dropping what was copied. */
    method Read(output: array<Byte>) returns (n: nat)
      requires Valid() && output != data
      modifies this`readPos, output
      ensures Valid()
      ensures n == Min(output.Length, |old(Contents())|)
      ensures output[..] == old(Contents())[..n] + old(output[..])[n..]
      ensures Contents() == old(Contents())[n..]
    {
      n := Peek(output);
      var skipped := Skip(n);
    }

    method Clear()
      requires Valid()
      modifies this`readPos, this`writePos
      ensures Valid() && Contents() == []
    {
      readPos := 0;
      writePos := 0;
    }
  }
}
