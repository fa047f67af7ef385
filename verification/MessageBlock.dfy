/** A fixed buffer with a read and a write position. */
module MessageBlock {
  import opened Bytes

  const MAX_DATA_LENGTH := 1536

  /** What a copy comes back with: the program's return value, or a write past the buffer. */
  datatype Copying = Returned(code: int) | Overrun

  class Block {
    const base: array<byte>
    var rd: nat
    var wr: nat

    ghost predicate Valid()
      reads this
    {
      base.Length == MAX_DATA_LENGTH && rd <= wr <= MAX_DATA_LENGTH
    }

    /** The bytes written and not yet read. */
    ghost function Contents(): seq<byte>
      requires Valid()
      reads this, base
    {
      base[rd..wr]
    }

    constructor ()
      ensures Valid() && fresh(base) && rd == 0 && Contents() == []
    {
      base := new byte[MAX_DATA_LENGTH](_ => 0);
      rd, wr := 0, 0;
    }

    /** A source of 1536 bytes or more leaves the block empty. */
    constructor FromBytes(source: seq<byte>)
      ensures Valid() && fresh(base) && rd == 0
      ensures Contents() == if |source| < 1536 then source else []
    {
      base := new byte[MAX_DATA_LENGTH](i requires 0 <= i => if i < |source| then source[i] else 0);
      rd := 0;
      wr := if 0 < |source| && |source| < MAX_DATA_LENGTH then |source| else 0;
    }

    method Length() returns (n: nat)
      requires Valid()
      ensures n == |Contents()|
    {
      n := wr - rd;
    }

    /** The room that `copy` tests for: bytes already read count as free. */
    function Space(): (n: nat)
      requires Valid()
      reads this, base
      ensures n == 1536 - |Contents()|
    {
      MAX_DATA_LENGTH - (wr - rd)
    }

    /** `n` bytes from the write position on are inside the buffer. */
    predicate HasRoom(n: nat)
      reads this
    {
      wr + n <= MAX_DATA_LENGTH
    }

    /** Appends all of `source` or nothing. The program copies to the write position without
        moving unread bytes down, so room that reading freed is tested for but is not there. */
    method Copy(source: seq<byte>) returns (r: Copying)
      requires Valid()
      modifies this`wr, base
      ensures Valid()
      ensures r == if |source| > old(Space()) then Returned(-1)
                   else if old(HasRoom(|source|)) then Returned(0)
                   else Overrun
      ensures r == Returned(0) ==> Contents() == old(Contents()) + source
      ensures r == Returned(-1) ==> Contents() == old(Contents())
    {
      if |source| > Space() { return Returned(-1); }
      if !HasRoom(|source|) { return Overrun; }
      forall i | 0 <= i < |source| {
        base[wr + i] := source[i];
      }
      wr := wr + |source|;
      return Returned(0);
    }

    method AdvanceRead(n: nat)
      requires Valid() && rd + n <= wr
      modifies this`rd
      ensures Valid() && Contents() == old(Contents())[n..]
    {
      rd := rd + n;
    }

    method Reset()
      requires Valid()
      modifies this`rd, this`wr
      ensures Valid() && rd == 0 && Contents() == []
    {
      rd, wr := 0, 0;
    }

    /** Every length that the program's test admits stays inside the buffer exactly when
        nothing has been read since the last reset. */
    lemma SpaceIsExact()
      requires Valid()
      ensures (forall n: nat | n <= Space() :: HasRoom(n)) <==> rd == 0
    {
      assert HasRoom(Space()) <==> rd == 0;
    }
  }

  /** Such a block exists: 1535 bytes, one of them read, and two more bytes. */
  method OverrunIsReachable() returns (r: Copying)
    ensures r == Overrun
  {
    var mb := new Block.FromBytes(seq(MAX_DATA_LENGTH - 1, _ => 0));
    mb.AdvanceRead(1);
    r := mb.Copy([0, 0]);
  }
}
