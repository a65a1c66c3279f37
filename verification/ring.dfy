/** include/circ_buf.h: index arithmetic of a power-of-two ring, and the bounded queue it implements. */
module Ring {
  import opened Bits

  // The macros; head, tail and size are C ints.
  function Cnt(head: int, tail: int, size: nat): nat
    requires size > 0
  {
    And(head - tail, size - 1)
  }

  function Space(head: int, tail: int, size: nat): nat
    requires size > 0
  {
    Cnt(tail, head + 1, size)
  }

  function CntToEnd(head: int, tail: int, size: nat): int
    requires size > 0
  {
    var end := size - tail;
    var n := And(head + end, size - 1);
    if n < end then n else end
  }

  function SpaceToEnd(head: int, tail: int, size: nat): int
    requires size > 0
  {
    var end := size - 1 - head;
    var n := And(end + tail, size - 1);
    if n <= end then n else end + 1
  }

  ghost predicate PowerOfTwo(size: nat) {
    exists k: nat :: size == Pow2(k)
  }

  function Min(a: int, b: int): int {
    if a < b then a else b
  }

  // Masking with size - 1 is the remainder, for negative differences too.
  lemma MaskIsMod(x: int, size: nat)
    requires size > 0 && PowerOfTwo(size)
    ensures And(x, size - 1) == x % size
  {
    var k: nat :| size == Pow2(k);
    AndMask(x, k);
  }

  // One turn too many or too few.
  lemma WrapOnce(x: int, size: nat)
    requires size > 0 && 0 - size <= x < 2 * size
    ensures x % size == if x < 0 then x + size else if x < size then x else x - size
  {
    DivModUnique(x, size, if x < 0 then -1 else if x < size then 0 else 1,
                 if x < 0 then x + size else if x < size then x else x - size);
  }

  lemma CntIs(head: nat, tail: nat, size: nat)
    requires PowerOfTwo(size) && head < size && tail < size
    ensures Cnt(head, tail, size) == if tail <= head then head - tail else head - tail + size
  {
    MaskIsMod(head - tail, size);
    WrapOnce(head - tail, size);
  }

  lemma SpaceIs(head: nat, tail: nat, size: nat)
    requires PowerOfTwo(size) && head < size && tail < size
    ensures Space(head, tail, size) == if tail <= head then tail - head - 1 + size else tail - head - 1
  {
    MaskIsMod(tail - (head + 1), size);
    WrapOnce(tail - (head + 1), size);
  }

  lemma CntToEndIs(head: nat, tail: nat, size: nat)
    requires PowerOfTwo(size) && head < size && tail < size
    ensures CntToEnd(head, tail, size) == if tail <= head then head - tail else size - tail
  {
    MaskIsMod(head + (size - tail), size);
    WrapOnce(head + (size - tail), size);
  }

  lemma SpaceToEndIs(head: nat, tail: nat, size: nat)
    requires PowerOfTwo(size) && head < size && tail < size
    ensures SpaceToEnd(head, tail, size) ==
      if head < tail then tail - head - 1 else if tail == 0 then size - 1 - head else size - head
  {
    MaskIsMod(size - 1 - head + tail, size);
    WrapOnce(size - 1 - head + tail, size);
  }

  // All four macros, for every pair of indices; one place always stays free.
  lemma RingArithmetic(head: nat, tail: nat, size: nat)
    requires PowerOfTwo(size) && head < size && tail < size
    ensures Cnt(head, tail, size) == if tail <= head then head - tail else head - tail + size
    ensures Cnt(head, tail, size) + Space(head, tail, size) == size - 1
    ensures CntToEnd(head, tail, size) == Min(Cnt(head, tail, size), size - tail)
    ensures SpaceToEnd(head, tail, size) == Min(Space(head, tail, size), size - head)
  {
    CntIs(head, tail, size);
    SpaceIs(head, tail, size);
    CntToEndIs(head, tail, size);
    SpaceToEndIs(head, tail, size);
  }

  // ----- the queue

  class CircBuf {
    const buf: array<Byte>
    var head: nat
    var tail: nat

    ghost predicate Valid()
      reads this
    {
      PowerOfTwo(buf.Length) && head < buf.Length && tail < buf.Length
    }

    // From tail, around the end, up to head.
    ghost function Contents(): seq<Byte>
      requires head < buf.Length && tail < buf.Length
      reads this, buf
    {
      if tail <= head then buf[tail..head] else buf[tail..] + buf[..head]
    }

    constructor (buf: array<Byte>)
      requires PowerOfTwo(buf.Length) && buf.Length > 0
      ensures Valid() && this.buf == buf && Contents() == []
    {
      this.buf := buf;
      head, tail := 0, 0;
    }

    method AdvanceHead()
      requires Valid()
      modifies this`head
      ensures head == if old(head) + 1 == buf.Length then 0 else old(head) + 1
    {
      MaskIsMod(head + 1, buf.Length);
      WrapOnce(head + 1, buf.Length);
      head := And(head + 1, buf.Length - 1);
    }

    method AdvanceTail()
      requires Valid()
      modifies this`tail
      ensures tail == if old(tail) + 1 == buf.Length then 0 else old(tail) + 1
    {
      MaskIsMod(tail + 1, buf.Length);
      WrapOnce(tail + 1, buf.Length);
      tail := And(tail + 1, buf.Length - 1);
    }

    // The contents are as many as CIRC_CNT says, those up to CIRC_CNT_TO_END lie in one piece, and
    // that piece is short only because the buffer ends.
    lemma Readable()
      requires Valid()
      ensures var n, end := Cnt(head, tail, buf.Length), CntToEnd(head, tail, buf.Length);
        && |Contents()| == n
        && 0 <= end <= n && tail + end <= buf.Length && buf[tail..tail + end] == Contents()[..end]
        && (end < n ==> tail + end == buf.Length)
    {
      RingArithmetic(head, tail, buf.Length);
    }

    // Store at head if CIRC_SPACE allows it.
    method Produce(c: Byte) returns (ok: bool)
      requires Valid()
      modifies this`head, buf
      ensures Valid()
      ensures ok == (|old(Contents())| < buf.Length - 1)
      ensures Contents() == if ok then old(Contents()) + [c] else old(Contents())
    {
      RingArithmetic(head, tail, buf.Length);
      ok := Space(head, tail, buf.Length) > 0;
      if ok {
        buf[head] := c;
        AdvanceHead();
      }
    }

    // Take from tail if CIRC_CNT allows it.
    method Consume() returns (ok: bool, c: Byte)
      requires Valid()
      modifies this`tail
      ensures Valid()
      ensures ok == (old(Contents()) != [])
      ensures ok ==> [c] + Contents() == old(Contents())
      ensures !ok ==> Contents() == old(Contents())
    {
      RingArithmetic(head, tail, buf.Length);
      ok, c := Cnt(head, tail, buf.Length) > 0, 0;
      if ok {
        c := buf[tail];
        AdvanceTail();
      }
    }
  }
}
