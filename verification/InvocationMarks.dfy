/**
 The marks by which the margin program records from which call-stack heights it
 has invoked an adapter, and their agreement with the real call stack.
 */
module InvocationMarks {

  // ------------------------------------------------------------------ bit set

  /** The bit of a small number; release builds count a shift distance modulo eight. */
  function Mask(n: bv8): bv8 { 1 << (n & 7) }

  function Insert(bits: bv8, n: bv8): bv8 { bits | Mask(n) }

  function Remove(bits: bv8, n: bv8): bv8 { bits & !Mask(n) }

  predicate Contains(bits: bv8, n: bv8) { (bits >> (n & 7)) & 1 == 1 }

  /** A stack height cast to a byte. */
  function Byte(height: nat): bv8 { (height % 256) as bv8 }

  /** The byte marks a height. */
  predicate Marked(bits: bv8, height: nat) { Contains(bits, Byte(height)) }

  lemma SmallBytes(h: nat)
    requires h < 8
    ensures Byte(h) < 8 && Byte(h) as nat == h
  {
  }

  lemma ChangedBits(bits: bv8, n: bv8, m: bv8)
    requires n < 8 && m < 8
    ensures Contains(Insert(bits, n), m) <==> m == n || Contains(bits, m)
    ensures Contains(Remove(bits, n), m) <==> m != n && Contains(bits, m)
  {
  }

  /** Marking or clearing a height changes that mark and no other. */
  lemma ChangedMarks(bits: bv8, h: nat)
    requires h < 8
    ensures forall m: nat :: m < 8 ==> (Marked(Insert(bits, Byte(h)), m) <==> m == h || Marked(bits, m))
    ensures forall m: nat :: m < 8 ==> (Marked(Remove(bits, Byte(h)), m) <==> m != h && Marked(bits, m))
  {
    forall m: nat | m < 8
      ensures Marked(Insert(bits, Byte(h)), m) <==> m == h || Marked(bits, m)
      ensures Marked(Remove(bits, Byte(h)), m) <==> m != h && Marked(bits, m)
    {
      SmallBytes(h);
      SmallBytes(m);
      ChangedBits(bits, Byte(h), Byte(m));
    }
  }

  lemma ByteValues()
    ensures Byte(0) == 0 && Byte(1) == 1 && Byte(2) == 2 && Byte(3) == 3 && Byte(4) == 4
    ensures Byte(5) == 5 && Byte(6) == 6 && Byte(7) == 7 && Byte(8) == 8
  {
  }

  lemma BitsDetermineByte(a: bv8, b: bv8)
    requires Contains(a, 0) == Contains(b, 0) && Contains(a, 1) == Contains(b, 1)
    requires Contains(a, 2) == Contains(b, 2) && Contains(a, 3) == Contains(b, 3)
    requires Contains(a, 4) == Contains(b, 4) && Contains(a, 5) == Contains(b, 5)
    requires Contains(a, 6) == Contains(b, 6) && Contains(a, 7) == Contains(b, 7)
    ensures a == b
  {
  }

  /** The eight marks are all there is to the byte. */
  lemma MarksDetermineByte(a: bv8, b: bv8)
    requires forall m: nat :: m < 8 ==> (Marked(a, m) <==> Marked(b, m))
    ensures a == b
  {
    ByteValues();
    assert Marked(a, 0) == Marked(b, 0) && Marked(a, 1) == Marked(b, 1);
    assert Marked(a, 2) == Marked(b, 2) && Marked(a, 3) == Marked(b, 3);
    assert Marked(a, 4) == Marked(b, 4) && Marked(a, 5) == Marked(b, 5);
    assert Marked(a, 6) == Marked(b, 6) && Marked(a, 7) == Marked(b, 7);
    BitsDetermineByte(a, b);
  }

  // ---------------------------------------------------------------- invocation

  /** The part of a margin account that holds the marks; the height is that of the running instruction. */
  class Invocation {
    var callerHeights: bv8

    constructor ()
      ensures callerHeights == 0
    {
      callerHeights := 0;
    }

    /** Mark the current height; heights above seven abort. */
    method Start(height: nat) returns (ok: bool)
      modifies this
      ensures ok <==> Byte(height) <= 7
      ensures callerHeights == if ok then Insert(old(callerHeights), Byte(height)) else old(callerHeights)
    {
      ok := Byte(height) <= 7;
      if ok { callerHeights := callerHeights | Mask(Byte(height)); }
    }

    /** Clear the mark of the current height. */
    method End(height: nat)
      modifies this
      ensures callerHeights == Remove(old(callerHeights), Byte(height))
    {
      callerHeights := callerHeights & !Mask(Byte(height));
    }

    /** Whether the running instruction was directly invoked by a call that marked its start. */
    predicate DirectlyInvoked(height: nat)
      reads this
    {
      height != 0 && Contains(callerHeights, Byte(height) - 1)
    }
  }

  lemma CallerByte(height: nat)
    requires 1 <= height <= 8
    ensures Byte(height) - 1 == Byte(height - 1)
  {
    ByteValues();
  }

  lemma CallerMark(bits: bv8, height: nat)
    requires 1 <= height <= 8
    ensures Contains(bits, Byte(height) - 1) <==> Marked(bits, height - 1)
  {
    CallerByte(height);
  }
}
