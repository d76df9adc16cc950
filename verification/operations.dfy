/**
 * The operations bit mask of the activity parameters.
 *
 * Each `PdmOperationsMask` enumerator is a bit position in the 32-bit
 * `operations` field: the PDM performs an operation when its bit is set.
 * Bits are read and written with arithmetic on the field's value: bit k of m
 * is the remainder of m / 2^k by 2.
 */
module Operations {
  import opened Wire

  /** N_PDM_OPERATIONS_MASK, the number of operations. */
  const N_PDM_OPERATIONS_MASK: nat := 17

  /** An operation is its bit position in the mask. */
  newtype PdmOperation = x: int | 0 <= x < 17

  const DataCollection: PdmOperation := 0
  const Baselining: PdmOperation := 1
  const FreqInversion: PdmOperation := 2
  const PulseDetection: PdmOperation := 3
  const PowerCwd: PdmOperation := 4
  const CoherentCwd: PdmOperation := 5
  const ApplyBirdieMask: PdmOperation := 6
  const ApplyRcvrBirdieMask: PdmOperation := 7
  const ApplyPermanentRfiMask: PdmOperation := 8
  const ApplyRecentRfiMask: PdmOperation := 9
  const ApplyTestSignalMask: PdmOperation := 10
  const ApplyDoppler: PdmOperation := 11
  const RejectZeroDriftSignals: PdmOperation := 12
  const CandidateSelection: PdmOperation := 13
  const ProcessSecondaryCandidates: PdmOperation := 14
  const FollowUpCandidates: PdmOperation := 15
  const SendRawSignalDetectionProducts: PdmOperation := 16

  // ---------------------------------------------------------------------
  // Bits of a natural number
  // ---------------------------------------------------------------------

  /** Bit k of m. */
  predicate Bit(m: nat, k: nat)
  {
    if k == 0 then m % 2 == 1 else Bit(m / 2, k - 1)
  }

  /** m with bit k set. */
  function SetBit(m: nat, k: nat): nat
  {
    if k == 0 then (if m % 2 == 1 then m else m + 1)
    else 2 * SetBit(m / 2, k - 1) + m % 2
  }

  /** m with bit k cleared. */
  function ClearBit(m: nat, k: nat): nat
  {
    if k == 0 then m - m % 2
    else 2 * ClearBit(m / 2, k - 1) + m % 2
  }

  /** Setting bit k makes it 1 and leaves every other bit as it was. */
  lemma {:induction false} SetBitIsolated(m: nat, k: nat, j: nat)
    ensures Bit(SetBit(m, k), j) == (j == k || Bit(m, j))
  {
    var r := SetBit(m, k);
    if k == 0 {
      if j > 0 {
        assert r / 2 == m / 2;
      }
    } else if j > 0 {
      assert r / 2 == SetBit(m / 2, k - 1);
      SetBitIsolated(m / 2, k - 1, j - 1);
    }
  }

  /** Clearing bit k makes it 0 and leaves every other bit as it was. */
  lemma {:induction false} ClearBitIsolated(m: nat, k: nat, j: nat)
    ensures Bit(ClearBit(m, k), j) == (j != k && Bit(m, j))
  {
    var r := ClearBit(m, k);
    if k == 0 {
      if j > 0 {
        assert r / 2 == m / 2;
      }
    } else if j > 0 {
      assert r / 2 == ClearBit(m / 2, k - 1);
      ClearBitIsolated(m / 2, k - 1, j - 1);
    }
  }

  /** A number below 2^n has no bit at position n or above. */
  lemma {:induction false} NoBitAboveWidth(m: nat, n: nat, k: nat)
    requires m < Pow2(n) && k >= n
    ensures !Bit(m, k)
  {
    if k > 0 {
      if n > 0 {
        NoBitAboveWidth(m / 2, n - 1, k - 1);
      } else {
        NoBitAboveWidth(m / 2, 0, k - 1);
      }
    }
  }

  /** Setting or clearing a bit below position n keeps a number below 2^n. */
  lemma {:induction false} SetClearBitBound(m: nat, k: nat, n: nat)
    requires m < Pow2(n) && k < n
    ensures SetBit(m, k) < Pow2(n) && ClearBit(m, k) < Pow2(n)
  {
    if k > 0 {
      SetClearBitBound(m / 2, k - 1, n - 1);
    } else {
      // bit 0 of an even m below 2^n can be set without reaching 2^n
      assert Pow2(n) == 2 * Pow2(n - 1);
    }
  }

  /** Two numbers with the same bits are equal. */
  lemma {:induction false} BitsDetermineValue(a: nat, b: nat)
    requires forall k: nat :: Bit(a, k) == Bit(b, k)
    ensures a == b
    decreases a + b
  {
    if a != 0 || b != 0 {
      assert Bit(a, 0) == Bit(b, 0);
      forall k: nat
        ensures Bit(a / 2, k) == Bit(b / 2, k)
      {
        assert Bit(a, k + 1) == Bit(b, k + 1);
      }
      BitsDetermineValue(a / 2, b / 2);
    }
  }

  // ---------------------------------------------------------------------
  // The 32-bit operations field
  // ---------------------------------------------------------------------

  /** Every operation's bit position fits the 32-bit field. */
  lemma PositionsFitField(op: PdmOperation)
    ensures 0 <= op as int < N_PDM_OPERATIONS_MASK < 32
  {
  }

  lemma Pow2Of32()
    ensures Pow2(32) == 0x1_0000_0000
  {
    assert Pow2(8) == 256;
    assert Pow2(16) == 256 * 256 by {
      Pow2Add(8, 8);
    }
    Pow2Add(16, 16);
  }

  lemma {:induction false} Pow2Add(a: nat, b: nat)
    ensures Pow2(a + b) == Pow2(a) * Pow2(b)
  {
    if a > 0 {
      Pow2Add(a - 1, b);
    }
  }

  /** Bit k of the operations field. */
  predicate FieldBit(operations: uint32, k: nat)
  {
    Bit(operations as nat, k)
  }

  lemma FieldBitsDetermineValue(a: uint32, b: uint32)
    requires forall k: nat :: FieldBit(a, k) == FieldBit(b, k)
    ensures a == b
  {
    var x: nat, y: nat := a as nat, b as nat;
    forall k: nat
      ensures Bit(x, k) == Bit(y, k)
    {
      assert FieldBit(a, k) == FieldBit(b, k);
    }
    BitsDetermineValue(x, y);
  }

  /** Whether the operation is enabled in the mask. */
  predicate Performs(operations: uint32, op: PdmOperation)
  {
    FieldBit(operations, op as nat)
  }

  /** The mask with the operation enabled; every other operation and every unused bit keep their value. */
  function Enable(operations: uint32, op: PdmOperation): (r: uint32)
    ensures Performs(r, op)
    ensures forall j: nat :: j != op as nat ==> (FieldBit(r, j) <==> FieldBit(operations, j))
  {
    Pow2Of32();
    SetClearBitBound(operations as nat, op as nat, 32);
    var r := SetBit(operations as nat, op as nat) as uint32;
    assert Performs(r, op) by {
      SetBitIsolated(operations as nat, op as nat, op as nat);
    }
    forall j: nat | j != op as nat
      ensures FieldBit(r, j) <==> FieldBit(operations, j)
    {
      SetBitIsolated(operations as nat, op as nat, j);
    }
    r
  }

  /** The mask with the operation disabled; every other operation and every unused bit keep their value. */
  function Disable(operations: uint32, op: PdmOperation): (r: uint32)
    ensures !Performs(r, op)
    ensures forall j: nat :: j != op as nat ==> (FieldBit(r, j) <==> FieldBit(operations, j))
  {
    Pow2Of32();
    SetClearBitBound(operations as nat, op as nat, 32);
    var r := ClearBit(operations as nat, op as nat) as uint32;
    assert !Performs(r, op) by {
      ClearBitIsolated(operations as nat, op as nat, op as nat);
    }
    forall j: nat | j != op as nat
      ensures FieldBit(r, j) <==> FieldBit(operations, j)
    {
      ClearBitIsolated(operations as nat, op as nat, j);
    }
    r
  }

  /** Enabling an operation that is already enabled changes nothing; disabling after enabling restores a mask that lacked it. */
  lemma EnableDisableInverse(operations: uint32, op: PdmOperation)
    ensures Performs(operations, op) ==> Enable(operations, op) == operations
    ensures !Performs(operations, op) ==> Disable(Enable(operations, op), op) == operations
  {
    if Performs(operations, op) {
      var r := Enable(operations, op);
      forall k: nat
        ensures FieldBit(r, k) == FieldBit(operations, k)
      {
      }
      FieldBitsDetermineValue(r, operations);
    } else {
      var r := Disable(Enable(operations, op), op);
      forall k: nat
        ensures FieldBit(r, k) == FieldBit(operations, k)
      {
      }
      FieldBitsDetermineValue(r, operations);
    }
  }

  /** The set of operations a mask enables. */
  function EnabledOperations(operations: uint32): (ops: set<PdmOperation>)
    ensures forall op: PdmOperation :: op in ops <==> Performs(operations, op)
  {
    set op: PdmOperation | Performs(operations, op)
  }

  /** The mask that enables exactly the given operations among the first n positions. */
  function MaskBelow(ops: set<PdmOperation>, n: nat): (m: nat)
    requires n <= N_PDM_OPERATIONS_MASK
    ensures m < Pow2(n)
    ensures forall k: nat :: Bit(m, k) <==> k < n && k as PdmOperation in ops
  {
    if n == 0 then
      assert forall k: nat :: !Bit(0, k) by {
        forall k: nat ensures !Bit(0, k) {
          NoBitAboveWidth(0, 0, k);
        }
      }
      0
    else
      var m := MaskBelow(ops, n - 1);
      var p := (n - 1) as PdmOperation;
      var r := if p in ops then SetBit(m, n - 1) else m;
      assert r < Pow2(n) by {
        assert m < Pow2(n);
        SetClearBitBound(m, n - 1, n);
      }
      forall k: nat
        ensures Bit(r, k) <==> k < n && k as PdmOperation in ops
      {
        if p in ops {
          SetBitIsolated(m, n - 1, k);
        }
      }
      r
  }

  /** The operations field that enables exactly the given operations. */
  function MaskOf(ops: set<PdmOperation>): (m: uint32)
    ensures forall op: PdmOperation :: Performs(m, op) <==> op in ops
    ensures forall k: nat :: k >= N_PDM_OPERATIONS_MASK ==> !FieldBit(m, k)
  {
    var m := MaskBelow(ops, N_PDM_OPERATIONS_MASK);
    assert Pow2(N_PDM_OPERATIONS_MASK) < 0x1_0000_0000 by {
      Pow2Of32();
      Pow2Add(N_PDM_OPERATIONS_MASK, 15);
    }
    m as uint32
  }

  /** Encoding a set of operations and reading it back gives the same set. */
  lemma EnabledOfMask(ops: set<PdmOperation>)
    ensures EnabledOperations(MaskOf(ops)) == ops
  {
  }

  /**
   * A mask with no bit set at or above N_PDM_OPERATIONS_MASK is the
   * encoding of the operations it enables.
   */
  lemma MaskOfEnabled(operations: uint32)
    requires forall k: nat :: k >= N_PDM_OPERATIONS_MASK ==> !FieldBit(operations, k)
    ensures MaskOf(EnabledOperations(operations)) == operations
  {
    var m := MaskOf(EnabledOperations(operations));
    forall k: nat
      ensures FieldBit(m, k) == FieldBit(operations, k)
    {
      if k < N_PDM_OPERATIONS_MASK {
        assert Performs(m, k as PdmOperation) <==> Performs(operations, k as PdmOperation);
      }
    }
    FieldBitsDetermineValue(m, operations);
  }
}
