/** The registry of currently active malfunction (OBD fault) codes: a fixed
    array of slots and a count of live entries at the front, kept without
    duplicates and in the order the codes were reported. */
module MalfunctionCentral {
  import opened ErrorCodeList

  datatype Option<T> = None | Some(value: T)

  /** The registry record. `capacity` stands for MAX_ERROR_CODES_COUNT, the
      length of the slot array; codes are plain integers and 0 is the filler
      written into a freed slot. */
  class ErrorCodesSet {
    const capacity: nat
    var errorCodes: array<int>
    var count: nat

    /** The shape every record of this type has: the slot array is
        `capacity` long and the live region fits in it. */
    ghost predicate WellFormed()
      reads this
    {
      errorCodes.Length == capacity && count <= capacity
    }

    /** The registry's invariant: well formed, and no code is live twice. */
    ghost predicate Valid()
      reads this, errorCodes
    {
      WellFormed() && NoDuplicates(errorCodes[..count])
    }

    /** The live codes, in reporting order. */
    ghost function Codes(): seq<int>
      reads this, errorCodes
      requires WellFormed()
    {
      errorCodes[..count]
    }

    /** Statically allocated storage: every slot zero, nothing live. */
    constructor (capacity: nat)
      ensures this.capacity == capacity && fresh(errorCodes)
      ensures Valid() && Codes() == []
      ensures forall k :: 0 <= k < errorCodes.Length ==> errorCodes[k] == 0
    {
      this.capacity := capacity;
      errorCodes := new int[capacity](_ => 0);
      count := 0;
    }

    /** find_position: the index of the first live slot holding `e`, or -1. */
    method FindPosition(e: int) returns (pos: int)
      requires WellFormed()
      ensures pos == IndexOf(Codes(), e)
      ensures pos == -1 <==> e !in Codes()
      ensures pos >= 0 ==> pos < count && errorCodes[pos] == e
      ensures forall k :: 0 <= k < pos ==> errorCodes[k] != e
    {
      var t := 0;
      while t < count
        invariant 0 <= t <= count
        invariant forall k :: 0 <= k < t ==> errorCodes[k] != e
      {
        if errorCodes[t] == e {
          assert Codes()[..t] == errorCodes[..t];
          return t;
        }
        t := t + 1;
      }
      assert Codes() == errorCodes[..t];
      return -1;
    }

    /** initMalfunctionCentral: forget every live code; the slots keep their
        values. */
    method InitMalfunctionCentral()
      requires WellFormed()
      modifies this`count
      ensures Valid() && Codes() == [] && !HasErrorCodes()
      ensures errorCodes[..] == old(errorCodes[..])
    {
      count := 0;
    }

    /** addError: append `e` when there is room and it is not live yet. */
    method AddError(e: int)
      requires Valid()
      modifies this`count, errorCodes
      ensures Valid()
      ensures Codes() == Added(old(Codes()), e, capacity)
      ensures var added := old(count) < capacity && e !in old(Codes());
        count == (if added then old(count) + 1 else old(count)) &&
        errorCodes[..] == (if added then old(errorCodes[..])[old(count) := e] else old(errorCodes[..]))
    {
      if count < capacity {
        var pos := FindPosition(e);
        if pos == -1 {
          errorCodes[count] := e;
          count := count + 1;
          assert Codes() == old(Codes()) + [e];
        }
      }
    }

    /** removeError: when `e` is live, shift the live entries after it one
        slot to the left, shorten the live region by one and write 0 into the
        slot that was freed. The shift stops at the last live slot; see
        RemoveAtAsWritten for the loop bound of the original code. */
    method RemoveError(e: int)
      requires Valid()
      modifies this`count, errorCodes
      ensures Valid()
      ensures Codes() == Removed(old(Codes()), e)
      ensures var p := IndexOf(old(Codes()), e);
        if p < 0 then count == old(count) && errorCodes[..] == old(errorCodes[..])
        else count == old(count) - 1 &&
             errorCodes[..] == old(errorCodes[..p] + errorCodes[p + 1..count] + [0] + errorCodes[count..])
    {
      var pos := FindPosition(e);
      ghost var live := Codes();
      if pos >= 0 {
        ghost var was := errorCodes[..];
        assert was[..count] == live;
        ShiftLeftFrom(pos);
        SlotsAfterRemoval(was, errorCodes, pos, count, e);
        ghost var shifted := errorCodes[..];
        count := count - 1;
        errorCodes[count] := 0;
        assert errorCodes[..] == shifted[count := 0];
        assert Codes() == shifted[..count];
      }
    }

    /** The shift loop of removeError: each live entry after `pos` moves one
        slot to the left; slot count - 1 and the slots beyond are untouched.
        The loop stops at the last live slot (see RemoveAtAsWritten). */
    method ShiftLeftFrom(pos: nat)
      requires pos < count <= errorCodes.Length
      modifies errorCodes
      ensures forall k :: 0 <= k < pos ==> errorCodes[k] == old(errorCodes[k])
      ensures forall k :: pos <= k < count - 1 ==> errorCodes[k] == old(errorCodes[k + 1])
      ensures forall k :: count - 1 <= k < errorCodes.Length ==> errorCodes[k] == old(errorCodes[k])
    {
      var t := pos;
      while t < count - 1
        invariant pos <= t <= count - 1
        invariant forall k :: 0 <= k < pos ==> errorCodes[k] == old(errorCodes[k])
        invariant forall k :: pos <= k < t ==> errorCodes[k] == old(errorCodes[k + 1])
        invariant forall k :: t <= k < errorCodes.Length ==> errorCodes[k] == old(errorCodes[k])
      {
        errorCodes[t] := errorCodes[t + 1];
        t := t + 1;
      }
    }

    /** setError: report `e` when `flag` is non-zero, clear it otherwise. */
    method SetError(flag: int, e: int)
      requires Valid()
      modifies this`count, errorCodes
      ensures Valid()
      ensures Codes() == if flag != 0 then Added(old(Codes()), e, capacity) else Removed(old(Codes()), e)
      ensures flag != 0 ==>
        var added := old(count) < capacity && e !in old(Codes());
        count == (if added then old(count) + 1 else old(count)) &&
        errorCodes[..] == (if added then old(errorCodes[..])[old(count) := e] else old(errorCodes[..]))
      ensures flag == 0 ==>
        var p := IndexOf(old(Codes()), e);
        if p < 0 then count == old(count) && errorCodes[..] == old(errorCodes[..])
        else count == old(count) - 1 &&
             errorCodes[..] == old(errorCodes[..p] + errorCodes[p + 1..count] + [0] + errorCodes[count..])
    {
      if flag != 0 {
        AddError(e);
      } else {
        RemoveError(e);
      }
    }

    /** getErrorCodes: copy the count and the live entries into `copy`, a
        record of the same type (it may be this registry itself). */
    method GetErrorCodes(copy: ErrorCodesSet)
      requires Valid()
      requires copy.capacity == capacity && copy.errorCodes.Length == capacity
      modifies copy`count, copy.errorCodes
      ensures copy.Valid() && copy.Codes() == old(Codes())
      ensures copy.errorCodes[count..] == old(copy.errorCodes[count..])
      ensures Valid() && Codes() == old(Codes())
      ensures count == old(count) && errorCodes[..] == old(errorCodes[..])
    {
      copy.count := count;
      var i := 0;
      while i < copy.count
        invariant copy.count == count == old(count) && errorCodes == old(errorCodes)
        invariant 0 <= i <= count
        invariant forall k :: 0 <= k < i ==> copy.errorCodes[k] == old(errorCodes[k])
        invariant forall k :: 0 <= k < count ==> errorCodes[k] == old(errorCodes[k])
        invariant forall k :: i <= k < copy.errorCodes.Length ==> copy.errorCodes[k] == old(copy.errorCodes[k])
      {
        copy.errorCodes[i] := errorCodes[i];
        i := i + 1;
      }
      assert copy.errorCodes[..count] == old(errorCodes[..count]);
    }

    /** hasErrorCodes: whether any code is live. */
    predicate HasErrorCodes()
      reads this, errorCodes
      requires WellFormed()
      ensures HasErrorCodes() <==> Codes() != []
    {
      count > 0
    }
  }

  /** Slot-level outcome of removing the live entry at `pos` from a live
      region of `count` slots: the later live entries moved one slot left,
      slot count - 1 zeroed, the rest untouched. */
  lemma SlotsAfterRemoval(was: seq<int>, slots: array<int>, pos: nat, count: nat, e: int)
    requires pos < count <= |was| == slots.Length
    requires NoDuplicates(was[..count]) && pos == IndexOf(was[..count], e)
    requires forall k :: 0 <= k < pos ==> slots[k] == was[k]
    requires forall k :: pos <= k < count - 1 ==> slots[k] == was[k + 1]
    requires forall k :: count - 1 <= k < |was| ==> slots[k] == was[k]
    ensures slots[..][count - 1 := 0] == was[..pos] + was[pos + 1..count] + [0] + was[count..]
    ensures slots[..count - 1] == Removed(was[..count], e)
    ensures NoDuplicates(slots[..count - 1])
  {
    var now := slots[..][count - 1 := 0];
    var expected := was[..pos] + was[pos + 1..count] + [0] + was[count..];
    assert forall k :: 0 <= k < |now| ==> now[k] == expected[k];
    assert now[..count - 1] == was[..count][..pos] + was[..count][pos + 1..];
    RemovedFromDistinct(was[..count], e);
  }

  /** The left shift of removeError exactly as the source bounds it: for t
      from `t` while t < count, slot t receives slot t + 1. The last step
      reads slot `count`; None stands for a read past the end of `slots`. */
  function ShiftAsWritten(slots: seq<int>, t: nat, count: nat): (r: Option<seq<int>>)
    requires count <= |slots|
    ensures r.Some? ==> |r.value| == |slots|
    ensures r.Some? && t <= count ==> r.value[..t] == slots[..t] && r.value[count..] == slots[count..]
    decreases count - t
  {
    if t >= count then Some(slots)
    else if t + 1 >= |slots| then None
    else ShiftAsWritten(slots[t := slots[t + 1]], t + 1, count)
  }

  /** removeError's slot update as written: shift from `pos`, then write 0
      into slot count - 1. */
  function RemoveAtAsWritten(slots: seq<int>, pos: nat, count: nat): (r: Option<seq<int>>)
    requires pos < count <= |slots|
    ensures r.Some? ==> |r.value| == |slots| && r.value[count - 1] == 0
    ensures r.Some? ==> r.value[..pos] == slots[..pos] && r.value[count..] == slots[count..]
  {
    match ShiftAsWritten(slots, pos, count)
    case None => None
    case Some(s) => Some(s[count - 1 := 0])
  }

  /** With a spare slot beyond the live region the shift as written moves
      every later live entry one slot left and leaves slot `count` as it was. */
  lemma {:induction false} ShiftAsWrittenWithSpareSlot(slots: seq<int>, t: nat, count: nat)
    requires t <= count < |slots|
    ensures ShiftAsWritten(slots, t, count) == Some(slots[..t] + slots[t + 1..count + 1] + slots[count..])
    decreases count - t
  {
    if t < count {
      var next := slots[t := slots[t + 1]];
      assert ShiftAsWritten(slots, t, count) == ShiftAsWritten(next, t + 1, count);
      ShiftAsWrittenWithSpareSlot(next, t + 1, count);
      assert next[..t + 1] == slots[..t] + [slots[t + 1]];
      assert next[t + 2..count + 1] == slots[t + 2..count + 1];
      assert next[count..] == slots[count..];
      assert [slots[t + 1]] + slots[t + 2..count + 1] == slots[t + 1..count + 1];
      assert next[..t + 1] + next[t + 2..count + 1] + next[count..]
          == slots[..t] + slots[t + 1..count + 1] + slots[count..];
    } else {
      assert slots[..t] + slots[t + 1..count + 1] + slots[count..] == slots;
    }
  }

  /** The shift as written reads past the slot array exactly when the
      registry is full; otherwise the value it reads there is overwritten by
      the 0, and the result is the one RemoveError produces. */
  lemma {:induction false} RemoveAtAsWrittenFaultsWhenFull(slots: seq<int>, pos: nat, count: nat)
    requires pos < count <= |slots|
    ensures RemoveAtAsWritten(slots, pos, count).None? <==> count == |slots|
    ensures count < |slots| ==>
      RemoveAtAsWritten(slots, pos, count) == Some(slots[..pos] + slots[pos + 1..count] + [0] + slots[count..])
  {
    if count < |slots| {
      ShiftAsWrittenWithSpareSlot(slots, pos, count);
      var s := slots[..pos] + slots[pos + 1..count + 1] + slots[count..];
      assert s[count - 1 := 0] == slots[..pos] + slots[pos + 1..count] + [0] + slots[count..];
    } else {
      ShiftAsWrittenOverreads(slots, pos);
    }
  }

  /** On a full registry the shift as written always reaches slot `count`,
      one past the array. */
  lemma {:induction false} ShiftAsWrittenOverreads(slots: seq<int>, t: nat)
    requires t < |slots|
    ensures ShiftAsWritten(slots, t, |slots|) == None
    decreases |slots| - t
  {
    if t + 1 < |slots| {
      ShiftAsWrittenOverreads(slots[t := slots[t + 1]], t + 1);
    }
  }
}
