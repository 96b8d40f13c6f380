/** The ring buffer of circbuf.c: a queue that keeps the newest totalsize bytes. */
module CircBuf {
  import opened Sequences
  import opened Words

  /** Position i places behind top; top and tail are indexes into data. */
  function Slot(top: nat, i: nat, n: nat): nat
    requires top < n && i <= n
  {
    if top + i < n then top + i else top + i - n
  }

  /** The bytes of a ring, from the oldest one on. */
  function Held(cells: seq<byte>, top: nat, size: nat): (r: seq<byte>)
    requires top < |cells| && size <= |cells|
    ensures |r| == size
    ensures forall i :: 0 <= i < size ==> r[i] == cells[Slot(top, i, |cells|)]
  {
    seq(size, i requires 0 <= i < size && top < |cells| && size <= |cells| => cells[Slot(top, i, |cells|)])
  }

  lemma HeldGrows(cells: seq<byte>, top: nat, size: nat, c: byte)
    requires top < |cells| && size < |cells|
    ensures Held(cells[Slot(top, size, |cells|) := c], top, size + 1) == Held(cells, top, size) + [c]
  {
  }

  /** A full ring: the oldest byte gives its place to the new one. */
  lemma HeldTurns(cells: seq<byte>, top: nat, c: byte)
    requires top < |cells|
    ensures Slot(top, |cells|, |cells|) == top
    ensures Held(cells[top := c], Slot(top, 1, |cells|), |cells|) == Held(cells, top, |cells|)[1..] + [c]
  {
    var n, now, next := |cells|, cells[top := c], Slot(top, 1, |cells|);
    forall i | 0 <= i < n ensures Held(now, next, n)[i] == (Held(cells, top, n)[1..] + [c])[i] {
      assert Slot(next, i, n) == Slot(top, i + 1, n);
    }
  }

  lemma HeldDrops(cells: seq<byte>, top: nat, size: nat, n: nat)
    requires top < |cells| && n <= size <= |cells|
    ensures Slot(top, n, |cells|) < |cells|
    ensures Held(cells, Slot(top, n, |cells|), size - n) == Held(cells, top, size)[n..]
  {
  }

  class Buffer {
    const data: array<byte>
    var top: nat
    var tail: nat
    var size: nat

    ghost predicate Valid()
      reads this
    {
      top < data.Length && size <= data.Length && tail == Slot(top, size, data.Length)
    }

    /** The bytes held, oldest first. */
    ghost function Contents(): (r: seq<byte>)
      requires Valid()
      reads this, data
      ensures |r| == size
    {
      Held(data[..], top, size)
    }

    /** buf_init */
    constructor (totalsize: nat)
      requires totalsize > 0
      ensures Valid() && fresh(data) && data.Length == totalsize && Contents() == []
    {
      data := new byte[totalsize];
      top, tail, size := 0, 0, 0;
    }

    /** One byte of buf_push. */
    method PushByte(c: byte)
      requires Valid()
      modifies this, data
      ensures Valid() && Contents() == Last(old(Contents()) + [c], data.Length)
    {
      hide Held, Last;
      ghost var cells := data[..];
      LastOne(Contents(), c, data.Length);
      data[tail] := c;
      assert data[..] == cells[Slot(top, size, |cells|) := c];
      tail := tail + 1;
      if tail == data.Length {
        tail := 0;
      }
      if size < data.Length {
        HeldGrows(cells, top, size, c);
        size := size + 1;
      } else {
        HeldTurns(cells, top, c);
        top := top + 1;
        if top == data.Length {
          top := 0;
        }
      }
    }

    method Push(src: seq<byte>)
      requires Valid()
      modifies this, data
      ensures Valid() && Contents() == Last(old(Contents()) + src, data.Length)
    {
      hide Last, Buffer.Contents, Slot;
      ghost var before := Contents();
      LastWhole(before, data.Length);
      for i := 0 to |src|
        invariant Valid() && Contents() == Last(before + src[..i], data.Length)
      {
        LastStep(before, src[..i], [src[i]], data.Length);
        assert src[..i + 1] == src[..i] + [src[i]];
        PushByte(src[i]);
      }
      assert src[..|src|] == src;
    }

    /** Takes at most len bytes, the oldest ones. */
    method Pop(dest: array<byte>, len: nat) returns (n: nat)
      requires Valid() && dest != data && (len <= dest.Length || size <= dest.Length)
      modifies this`top, this`size, dest
      ensures Valid() && n == if len < old(size) then len else old(size)
      ensures dest[..n] == old(Contents())[..n] && Contents() == old(Contents())[n..]
      ensures forall i :: n <= i < dest.Length ==> dest[i] == old(dest[i])
    {
      hide Held;
      ghost var before, cells, first := Contents(), data[..], top;
      HeldDrops(cells, top, size, if len > size then size else len);
      n := if len > size then size else len;
      var p: nat := top;
      for i := 0 to n
        invariant p == Slot(first, i, data.Length) && top == first && size == old(size) && data[..] == cells
        invariant forall j :: 0 <= j < i ==> dest[j] == before[j]
        invariant forall j :: i <= j < dest.Length ==> dest[j] == old(dest[j])
      {
        assert before[i] == cells[Slot(first, i, data.Length)];
        dest[i] := data[p];
        p := p + 1;
        if p == data.Length {
          p := 0;
        }
      }
      top := p;
      size := size - n;
    }
  }
}
