/** The storage statuses of MockedHost::set_storage and their metering by EIP-2200 (mocked_host.hpp,
    QRVM_Storage_Change_Status.md). */
module StorageStatus {
  import opened Words

  datatype Status =
    | Assigned | Added | Deleted | Modified | DeletedAdded
    | ModifiedDeleted | DeletedRestored | AddedDeleted | ModifiedRestored

  datatype Clause = RemoveClearsSchedule | AddClearsSchedule | RestoredBySet | RestoredByReset

  /** The classification by the four checks, as a number in binary: original != current, original == value,
      current != 0, value != 0. */
  function Checksum(original: word, current: word, value: word): nat {
    (if original != current then 8 else 0) + (if original == value then 4 else 0)
      + (if current != ZERO then 2 else 0) + (if value != ZERO then 1 else 0)
  }

  function ByChecksum(checksum: nat): Status {
    match checksum
    case 1 => Added
    case 2 => Deleted
    case 3 => Modified
    case 9 => DeletedAdded
    case 10 => ModifiedDeleted
    case 13 => DeletedRestored
    case 14 => AddedDeleted
    case 15 => ModifiedRestored
    case _ => Assigned
  }

  function StatusOf(original: word, current: word, value: word): Status {
    ByChecksum(Checksum(original, current, value))
  }

  /** The clause tree, with the word-wise operators, classifies by the four checks; its default case is
      unreachable. */
  method ClauseTree(original: word, current: word, value: word) returns (status: Status)
    ensures status == StatusOf(original, current, value)
  {
    hide Equal;
    EqualIsEquality(current, value);
    EqualIsEquality(original, current);
    EqualIsEquality(original, value);
    EqualIsEquality(original, ZERO);
    EqualIsEquality(current, ZERO);
    EqualIsEquality(value, ZERO);
    if Equal(current, value) {
      return Assigned;
    }
    if Equal(original, current) {
      if IsZero(original) {
        return Added;
      }
      return if IsZero(value) then Deleted else Modified;
    }
    var triggered: set<Clause> := {};
    if !IsZero(original) {
      if IsZero(current) {
        assert !IsZero(value);
        triggered := triggered + {RemoveClearsSchedule};
      }
      if IsZero(value) {
        assert !IsZero(current);
        triggered := triggered + {AddClearsSchedule};
      }
    }
    if Equal(original, value) {
      if IsZero(original) {
        triggered := triggered + {RestoredBySet};
      } else {
        triggered := triggered + {RestoredByReset};
      }
    }
    if triggered == {RemoveClearsSchedule} {
      status := DeletedAdded;
    } else if triggered == {AddClearsSchedule} {
      status := ModifiedDeleted;
    } else if triggered == {RemoveClearsSchedule, RestoredByReset} {
      status := DeletedRestored;
    } else if triggered == {RestoredBySet} {
      status := AddedDeleted;
    } else if triggered == {RestoredByReset} {
      status := ModifiedRestored;
    } else if triggered == {} {
      status := Assigned;
    } else {
      assert false;
    }
  }

  /** The four combinations of the checks that the documentation calls impossible are. */
  lemma ImpossibleChecksums(original: word, current: word, value: word)
    ensures Checksum(original, current, value) !in {0, 5, 6, 12}
  {
  }

  // ---------- metering ----------

  /** SLOAD_GAS, SSTORE_SET_GAS, SSTORE_RESET_GAS and SSTORE_CLEARS_SCHEDULE. */
  datatype Schedule = Schedule(sload: int, set_: int, reset: int, clears: int)

  const EIP2200: Schedule := Schedule(800, 20000, 5000, 15000)
  const EIP2929: Schedule := Schedule(100, 20000, 2900, 15000)

  datatype Cost = Cost(gas: int, refund: int)

  /** The specification's clauses: the gas deducted and the change of the refund counter. */
  function ClauseCost(s: Schedule, original: word, current: word, value: word): Cost {
    if current == value then Cost(s.sload, 0)
    else if original == current then
      if original == ZERO then Cost(s.set_, 0)
      else Cost(s.reset, if value == ZERO then s.clears else 0)
    else
      var clause1 :=
        if original == ZERO then 0
        else (if current == ZERO then -s.clears else 0) + (if value == ZERO then s.clears else 0);
      var clause2 :=
        if original != value then 0 else if original == ZERO then s.set_ - s.sload else s.reset - s.sload;
      Cost(s.sload, clause1 + clause2)
  }

  /** The gas columns of the table of statuses. */
  function StatusCost(s: Schedule, status: Status): Cost {
    match status
    case Assigned => Cost(s.sload, 0)
    case Added => Cost(s.set_, 0)
    case Deleted => Cost(s.reset, s.clears)
    case Modified => Cost(s.reset, 0)
    case DeletedAdded => Cost(s.sload, -s.clears)
    case ModifiedDeleted => Cost(s.sload, s.clears)
    case DeletedRestored => Cost(s.sload, -s.clears + s.reset - s.sload)
    case AddedDeleted => Cost(s.sload, s.set_ - s.sload)
    case ModifiedRestored => Cost(s.sload, s.reset - s.sload)
  }

  /** The status alone determines what the specification charges and refunds. */
  lemma StatusCarriesCost(s: Schedule, original: word, current: word, value: word)
    ensures StatusCost(s, StatusOf(original, current, value)) == ClauseCost(s, original, current, value)
  {
  }

  /** What a slot with this original value and this current one has cost beyond SLOAD_GAS per write. */
  function Potential(s: Schedule, original: word, current: word): int {
    if current == original then 0
    else if original == ZERO then s.set_ - s.sload
    else if current == ZERO then s.reset - s.sload - s.clears
    else s.reset - s.sload
  }

  lemma NetCostOfWrite(s: Schedule, original: word, current: word, value: word)
    ensures var c := ClauseCost(s, original, current, value);
      c.gas - c.refund == s.sload + Potential(s, original, value) - Potential(s, original, current)
  {
  }
}
