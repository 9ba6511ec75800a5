/** The accounts of the mocked host: storage, balance and access records (mocked_host.hpp). */
module MockedHost {
  import opened Bits
  import opened Words
  import opened StorageStatus

  datatype Access = Cold | Warm

  datatype StorageValue = StorageValue(current: word, original: word, access: Access)

  datatype Account = Account(balance: word, storage: map<word, StorageValue>)

  type Accounts = map<word, Account>

  const NEW_ACCOUNT: Account := Account(ZERO, map[])
  const NEW_VALUE: StorageValue := StorageValue(ZERO, ZERO, Cold)

  /** The account's and the slot's value, default when missing, as the subscript operator creates them. */
  function AccountAt(accounts: Accounts, addr: word): Account {
    if addr in accounts then accounts[addr] else NEW_ACCOUNT
  }

  function ValueAt(accounts: Accounts, addr: word, key: word): StorageValue {
    var storage := AccountAt(accounts, addr).storage;
    if key in storage then storage[key] else NEW_VALUE
  }

  function WithValue(accounts: Accounts, addr: word, key: word, v: StorageValue): Accounts {
    var account := AccountAt(accounts, addr);
    accounts[addr := account.(storage := account.storage[key := v])]
  }

  lemma WithValueAt(accounts: Accounts, addr: word, key: word, v: StorageValue, a: word, k: word)
    ensures ValueAt(WithValue(accounts, addr, key, v), a, k) ==
      if a == addr && k == key then v else ValueAt(accounts, a, k)
  {
  }

  const MAX_RECORDED_ACCESSES: nat := 200

  class Host {
    var accounts: Accounts
    var recordedAccountAccesses: seq<word>
    /** All the accesses so far. */
    ghost var accesses: seq<word>

    /** The record is what was recorded of the accesses; it is not once the user has changed it. */
    ghost predicate Recorded()
      reads this`recordedAccountAccesses, this`accesses
    {
      recordedAccountAccesses == Record(accesses)
    }

    constructor ()
      ensures accounts == map[] && recordedAccountAccesses == []
      ensures Recorded() && accesses == []
    {
      accounts := map[];
      recordedAccountAccesses, accesses := [], [];
    }

    method RecordAccountAccess(addr: word)
      modifies this`recordedAccountAccesses, this`accesses
      ensures recordedAccountAccesses == RecordedWith(old(recordedAccountAccesses), addr)
      ensures accesses == old(accesses) + [addr] && (old(Recorded()) ==> Recorded())
    {
      accesses := accesses + [addr];
      if |recordedAccountAccesses| < MAX_RECORDED_ACCESSES {
        recordedAccountAccesses := recordedAccountAccesses + [addr];
      }
    }

    method GetStorage(addr: word, key: word) returns (value: word)
      modifies this`recordedAccountAccesses, this`accesses
      ensures value == ValueAt(accounts, addr, key).current
      ensures recordedAccountAccesses == RecordedWith(old(recordedAccountAccesses), addr)
      ensures accesses == old(accesses) + [addr] && (old(Recorded()) ==> Recorded())
    {
      RecordAccountAccess(addr);
      if addr !in accounts {
        return ZERO;
      }
      if key in accounts[addr].storage {
        return accounts[addr].storage[key].current;
      }
      return ZERO;
    }

    /** Only the slot's current value changes, and the status is that of the change; a slot that is missing had the
        value zero. */
    method SetStorage(addr: word, key: word, value: word) returns (status: Status)
      modifies this
      ensures var v := ValueAt(old(accounts), addr, key);
        && status == StatusOf(v.original, v.current, value)
        && accounts == Written(old(accounts), Write(addr, key, value))
      ensures addr !in old(accounts) || key !in old(accounts)[addr].storage ==>
        status == if value == Zeros(64) then Assigned else Added
      ensures recordedAccountAccesses == RecordedWith(old(recordedAccountAccesses), addr)
      ensures accesses == old(accesses) + [addr] && (old(Recorded()) ==> Recorded())
    {
      RecordAccountAccess(addr);
      if addr !in accounts {
        accounts := accounts[addr := NEW_ACCOUNT];
      }
      var account := accounts[addr];
      if key !in account.storage {
        account := account.(storage := account.storage[key := NEW_VALUE]);
      }
      var s := account.storage[key];
      status := ClauseTree(s.original, s.current, value);
      accounts := accounts[addr := account.(storage := account.storage[key := s.(current := value)])];
      ghost var before := AccountAt(old(accounts), addr).storage;
      assert account.storage[key := s.(current := value)] == before[key := s.(current := value)];
      assert accounts == Written(old(accounts), Write(addr, key, value));
    }

    /** The answer from the record, which is the one after all the accesses so far. */
    method AccessAccount(addr: word) returns (access: Access)
      modifies this`recordedAccountAccesses, this`accesses
      ensures access == Answer(old(recordedAccountAccesses), addr)
      ensures old(Recorded()) ==> access == Answer(Record(old(accesses)), addr)
      ensures recordedAccountAccesses == RecordedWith(old(recordedAccountAccesses), addr)
      ensures accesses == old(accesses) + [addr] && (old(Recorded()) ==> Recorded())
    {
      hide Value;
      var alreadyAccessed := addr in recordedAccountAccesses;
      RecordAccountAccess(addr);
      FromUint64Value(1);
      FromUint64Value(9);
      var below := Less(addr, FromUint64(1));
      var above := Less(FromUint64(9), addr);
      if !below && !above {
        return Warm;
      }
      access := if alreadyAccessed then Warm else Cold;
    }

    /** set_balance: the balance denotes the number. */
    method SetBalance(addr: word, x: uint64)
      modifies this`accounts
      ensures AccountAt(accounts, addr) == AccountAt(old(accounts), addr).(balance := FromUint64(x))
      ensures forall a :: a != addr ==> AccountAt(accounts, a) == AccountAt(old(accounts), a)
      ensures Value(AccountAt(accounts, addr).balance) == x
    {
      hide Value;
      var balance: word := ZERO;
      var i := 0;
      while i < 8
        invariant 0 <= i <= 8
        invariant balance == Zeros(64 - i) + LowBytes(x, i)
      {
        balance := balance[63 - i := Shr(x, 8 * i) % 0x100];
        assert balance == Zeros(63 - i) + LowBytes(x, i + 1);
        i := i + 1;
      }
      FromUint64Value(x);
      accounts := accounts[addr := AccountAt(accounts, addr).(balance := balance)];
    }
  }

  function RecordedWith(recorded: seq<word>, addr: word): seq<word> {
    if |recorded| < MAX_RECORDED_ACCESSES then recorded + [addr] else recorded
  }

  /** The record after a whole history of accesses. */
  function Record(history: seq<word>): seq<word> {
    if history == [] then [] else RecordedWith(Record(history[..|history| - 1]), history[|history| - 1])
  }

  lemma {:induction false} RecordIsPrefix(history: seq<word>)
    ensures Record(history) == if |history| <= MAX_RECORDED_ACCESSES then history else history[..MAX_RECORDED_ACCESSES]
  {
    if history != [] {
      var before := history[..|history| - 1];
      RecordIsPrefix(before);
      assert history == before + [history[|history| - 1]];
    }
  }

  /** The known addresses of precompiled contracts. */
  ghost predicate Precompiled(addr: word) {
    1 <= Value(addr) <= 9
  }

  /** What AccessAccount answers from the record. */
  ghost function Answer(recorded: seq<word>, addr: word): Access {
    if Precompiled(addr) || addr in recorded then Warm else Cold
  }

  /** What it is documented to answer: warm for precompiled contracts and for accounts accessed before. */
  ghost function Promised(history: seq<word>, addr: word): Access {
    if Precompiled(addr) || addr in history then Warm else Cold
  }

  /** The answer after any history is as promised exactly for precompiled contracts and for accounts whose first
      access, if any, is among the first 200 accesses of all. */
  lemma AccessReportExact(history: seq<word>, addr: word)
    ensures Answer(Record(history), addr) == Promised(history, addr) <==>
      || Precompiled(addr)
      || |history| <= 200
      || addr !in history[200..]
      || addr in history[..200]
  {
    hide Record, Precompiled;
    RecordIsPrefix(history);
    if |history| > MAX_RECORDED_ACCESSES {
      assert history == history[..MAX_RECORDED_ACCESSES] + history[MAX_RECORDED_ACCESSES..];
    }
  }

  /** It is wrong for the account 10 accessed after 200 accesses of the account 11. */
  lemma AccessReportFails() returns (history: seq<word>, addr: word)
    ensures !Precompiled(addr) && addr in history
    ensures Promised(history, addr) == Warm && Answer(Record(history), addr) == Cold
  {
    hide Value, Record, FromUint64;
    addr := FromUint64(10);
    FromUint64Value(10);
    FromUint64Value(11);
    var first: seq<word> := Repeated(FromUint64(11), MAX_RECORDED_ACCESSES);
    history := first + [addr];
    assert history[MAX_RECORDED_ACCESSES] == addr;
    assert history[..MAX_RECORDED_ACCESSES] == first;
    RecordIsPrefix(history);
  }

  function Repeated(addr: word, n: nat): (s: seq<word>)
    ensures |s| == n && forall a :: a in s ==> a == addr
  {
    if n == 0 then [] else Repeated(addr, n - 1) + [addr]
  }

  // ---------- sequences of writes ----------

  datatype Write = Write(addr: word, key: word, value: word)

  function Written(accounts: Accounts, w: Write): Accounts {
    WithValue(accounts, w.addr, w.key, ValueAt(accounts, w.addr, w.key).(current := w.value))
  }

  /** A write creates its account and its slot, if missing, with the value zero before; it changes the slot's current
      value and nothing else of any account. */
  lemma WriteExactly(accounts: Accounts, w: Write)
    ensures
      var after := Written(accounts, w);
      var missing := w.addr !in accounts || w.key !in accounts[w.addr].storage;
      && after.Keys == accounts.Keys + {w.addr}
      && (forall a :: a in accounts && a != w.addr ==> after[a] == accounts[a])
      && after[w.addr].balance == (if w.addr in accounts then accounts[w.addr].balance else Zeros(64))
      && after[w.addr].storage.Keys == (if w.addr in accounts then accounts[w.addr].storage.Keys else {}) + {w.key}
      && (forall k :: w.addr in accounts && k in accounts[w.addr].storage && k != w.key ==>
            after[w.addr].storage[k] == accounts[w.addr].storage[k])
      && after[w.addr].storage[w.key] ==
           if missing then StorageValue(w.value, Zeros(64), Cold)
           else accounts[w.addr].storage[w.key].(current := w.value)
  {
  }

  function AllWritten(accounts: Accounts, ws: seq<Write>): Accounts {
    if ws == [] then accounts else Written(AllWritten(accounts, ws[..|ws| - 1]), ws[|ws| - 1])
  }

  type Slot = (word, word)

  function SlotOf(w: Write): Slot {
    (w.addr, w.key)
  }

  function At(accounts: Accounts, slot: Slot): StorageValue {
    ValueAt(accounts, slot.0, slot.1)
  }

  /** What EIP-2200 charges and refunds for the write, by the status that SetStorage reports. */
  function WriteCost(s: Schedule, accounts: Accounts, w: Write): Cost {
    var v := At(accounts, SlotOf(w));
    StatusCost(s, StatusOf(v.original, v.current, w.value))
  }

  /** The number of writes to the slot, and their gas minus their refunds. */
  function WritesTo(ws: seq<Write>, slot: Slot): nat {
    if ws == [] then 0 else
      WritesTo(ws[..|ws| - 1], slot) + if SlotOf(ws[|ws| - 1]) == slot then 1 else 0
  }

  function NetCostOn(s: Schedule, accounts: Accounts, ws: seq<Write>, slot: Slot): int {
    if ws == [] then 0 else
      var before, w := ws[..|ws| - 1], ws[|ws| - 1];
      var c := WriteCost(s, AllWritten(accounts, before), w);
      NetCostOn(s, accounts, before, slot) + if SlotOf(w) == slot then c.gas - c.refund else 0
  }

  function PotentialAt(s: Schedule, accounts: Accounts, slot: Slot): int {
    Potential(s, At(accounts, slot).original, At(accounts, slot).current)
  }

  lemma AtWritten(accounts: Accounts, w: Write, slot: Slot)
    ensures At(Written(accounts, w), slot) ==
      if SlotOf(w) == slot then At(accounts, slot).(current := w.value) else At(accounts, slot)
  {
    WithValueAt(accounts, w.addr, w.key, At(accounts, SlotOf(w)).(current := w.value), slot.0, slot.1);
  }

  lemma WriteTelescopes(s: Schedule, accounts: Accounts, w: Write, slot: Slot)
    ensures var c := WriteCost(s, accounts, w);
      PotentialAt(s, Written(accounts, w), slot) ==
        PotentialAt(s, accounts, slot) + if SlotOf(w) == slot then c.gas - c.refund - s.sload else 0
    ensures At(Written(accounts, w), slot).original == At(accounts, slot).original
  {
    hide StatusOf, StatusCost, ClauseCost, Potential, At, Written;
    AtWritten(accounts, w, slot);
    var v := At(accounts, SlotOf(w));
    StatusCarriesCost(s, v.original, v.current, w.value);
    NetCostOfWrite(s, v.original, v.current, w.value);
  }

  /** However writes to any slots interleave, what those to one slot cost telescopes: SLOAD_GAS for each,
      plus the change of a potential that depends only on the slot's original and current values. */
  lemma CostTelescopes(s: Schedule, accounts: Accounts, ws: seq<Write>, slot: Slot)
    ensures NetCostOn(s, accounts, ws, slot) ==
      WritesTo(ws, slot) * s.sload + PotentialAt(s, AllWritten(accounts, ws), slot) - PotentialAt(s, accounts, slot)
    ensures At(AllWritten(accounts, ws), slot).original == At(accounts, slot).original
  {
    hide NetCostOn, WritesTo, PotentialAt, AllWritten, At;
    WritesTelescope(s, accounts, ws, slot);
  }

  function Times(n: nat, x: int): int {
    n * x
  }

  lemma OneMore(n: nat, x: int)
    ensures Times(0, x) == 0 && Times(n + 1, x) == Times(n, x) + x
  {
  }

  lemma {:induction false} WritesTelescope(s: Schedule, accounts: Accounts, ws: seq<Write>, slot: Slot)
    ensures NetCostOn(s, accounts, ws, slot) ==
      Times(WritesTo(ws, slot), s.sload)
        + PotentialAt(s, AllWritten(accounts, ws), slot) - PotentialAt(s, accounts, slot)
    ensures At(AllWritten(accounts, ws), slot).original == At(accounts, slot).original
  {
    hide Times, WriteCost, PotentialAt, At, Written, SlotOf;
    OneMore(0, s.sload);
    if ws != [] {
      hide NetCostOn, WritesTo, AllWritten;
      var before := ws[..|ws| - 1];
      WritesTelescope(s, accounts, before, slot);
      WriteTelescopes(s, AllWritten(accounts, before), ws[|ws| - 1], slot);
      LastWrite(s, accounts, ws, slot);
      OneMore(WritesTo(before, slot), s.sload);
    }
  }

  lemma LastWrite(s: Schedule, accounts: Accounts, ws: seq<Write>, slot: Slot)
    requires ws != []
    ensures
      var (before, w) := (ws[..|ws| - 1], ws[|ws| - 1]);
      var (c, here) := (WriteCost(s, AllWritten(accounts, before), w), SlotOf(w) == slot);
      && AllWritten(accounts, ws) == Written(AllWritten(accounts, before), w)
      && WritesTo(ws, slot) == WritesTo(before, slot) + (if here then 1 else 0)
      && NetCostOn(s, accounts, ws, slot) ==
           NetCostOn(s, accounts, before, slot) + if here then c.gas - c.refund else 0
  {
    hide WriteCost, Written, SlotOf;
  }

  /** Writes that leave a slot with its original value cost SLOAD_GAS each, whatever they wrote in between. */
  lemma RestoringCostsAccessOnly(s: Schedule, accounts: Accounts, ws: seq<Write>, slot: Slot)
    requires At(accounts, slot).current == At(accounts, slot).original
    requires At(AllWritten(accounts, ws), slot).current == At(accounts, slot).original
    ensures NetCostOn(s, accounts, ws, slot) == WritesTo(ws, slot) * s.sload
  {
    hide ValueAt, AllWritten, NetCostOn, WritesTo;
    CostTelescopes(s, accounts, ws, slot);
  }

  // ---------- the refund counter ----------

  function Refunds(s: Schedule, accounts: Accounts, ws: seq<Write>): int {
    if ws == [] then 0 else
      var before := ws[..|ws| - 1];
      Refunds(s, accounts, before) + WriteCost(s, AllWritten(accounts, before), ws[|ws| - 1]).refund
  }

  /** A slot whose refund for clearing is pending. */
  predicate Cleared(v: StorageValue) {
    v.original != ZERO && v.current == ZERO
  }

  function ClearedSlots(accounts: Accounts, slots: set<Slot>): set<Slot> {
    set slot | slot in slots && Cleared(At(accounts, slot))
  }

  predicate Reasonable(s: Schedule) {
    s.sload <= s.set_ && s.sload <= s.reset && 0 <= s.clears
  }

  lemma PublishedSchedulesReasonable()
    ensures Reasonable(EIP2200) && Reasonable(EIP2929)
  {
  }

  lemma RefundOfWrite(s: Schedule, v: StorageValue, value: word)
    requires Reasonable(s)
    ensures ClauseCost(s, v.original, v.current, value).refund >=
      (if Cleared(v.(current := value)) then s.clears else 0) - (if Cleared(v) then s.clears else 0)
  {
  }

  lemma ClearedElsewhere(accounts: Accounts, w: Write, slots: set<Slot>)
    ensures ClearedSlots(Written(accounts, w), slots) - {SlotOf(w)} == ClearedSlots(accounts, slots) - {SlotOf(w)}
  {
    hide At, Written, Cleared;
    forall x | x in slots && x != SlotOf(w)
      ensures At(Written(accounts, w), x) == At(accounts, x)
    {
      AtWritten(accounts, w, x);
    }
  }

  lemma ClearedSlotsWritten(accounts: Accounts, w: Write, slots: set<Slot>)
    requires SlotOf(w) in slots
    ensures |ClearedSlots(Written(accounts, w), slots)| ==
      |ClearedSlots(accounts, slots)| - (if Cleared(At(accounts, SlotOf(w))) then 1 else 0)
        + (if Cleared(At(accounts, SlotOf(w)).(current := w.value)) then 1 else 0)
  {
    hide At, Written, Cleared;
    ClearedElsewhere(accounts, w, slots);
    AtWritten(accounts, w, SlotOf(w));
    WithAndWithout(ClearedSlots(accounts, slots), SlotOf(w));
    WithAndWithout(ClearedSlots(Written(accounts, w), slots), SlotOf(w));
  }

  lemma WithAndWithout(slots: set<Slot>, slot: Slot)
    ensures |slots| == |slots - {slot}| + if slot in slots then 1 else 0
  {
    if slot in slots {
      assert slots == (slots - {slot}) + {slot};
    } else {
      assert slots == slots - {slot};
    }
  }

  /** The counter always covers the pending refunds for clearing, once it covers them at the start. */
  lemma {:induction false} RefundsCoverCleared(s: Schedule, accounts: Accounts, ws: seq<Write>, slots: set<Slot>)
    requires Reasonable(s) && forall i :: 0 <= i < |ws| ==> SlotOf(ws[i]) in slots
    ensures Refunds(s, accounts, ws) + s.clears * |ClearedSlots(accounts, slots)| >=
      s.clears * |ClearedSlots(AllWritten(accounts, ws), slots)|
  {
    if ws != [] {
      hide StatusOf, StatusCost, ClauseCost, ValueAt, Written, ClearedSlots;
      var before, w := AllWritten(accounts, ws[..|ws| - 1]), ws[|ws| - 1];
      RefundsCoverCleared(s, accounts, ws[..|ws| - 1], slots);
      ClearedSlotsWritten(before, w, slots);
      var v := At(before, SlotOf(w));
      StatusCarriesCost(s, v.original, v.current, w.value);
      RefundOfWrite(s, v, w.value);
      var n, n' := |ClearedSlots(before, slots)|, |ClearedSlots(Written(before, w), slots)|;
      Multiples(s.clears, n, n');
    }
  }

  lemma Multiples(x: int, n: nat, n': nat)
    ensures n' == n + 1 ==> x * n' == x * n + x
    ensures n' == n - 1 ==> x * n' == x * n - x
  {
  }

  lemma CleanNeverNegative(s: Schedule, accounts: Accounts, ws: seq<Write>)
    requires Reasonable(s) && (s.clears == 0 || forall slot :: !Cleared(At(accounts, slot)))
    ensures Refunds(s, accounts, ws) >= 0
  {
    hide ValueAt, Refunds, AllWritten;
    var slots := set w <- ws :: SlotOf(w);
    RefundsCoverCleared(s, accounts, ws, slots);
    if s.clears != 0 {
      assert ClearedSlots(accounts, slots) == {};
    }
  }

  /** The counter of a new host, which has no accounts, is never negative. */
  lemma NewHostNeverNegative(s: Schedule, ws: seq<Write>)
    requires Reasonable(s)
    ensures Refunds(s, map[], ws) >= 0
  {
    NothingCleared();
    hide Refunds, Cleared, At;
    CleanNeverNegative(s, map[], ws);
  }

  lemma NothingCleared()
    ensures forall slot :: !Cleared(At(map[], slot))
  {
  }

  lemma ClearedCanGoNegative(s: Schedule, accounts: Accounts, slot: Slot) returns (ws: seq<Write>)
    requires Reasonable(s) && s.clears > 0 && Cleared(At(accounts, slot))
    ensures Refunds(s, accounts, ws) < 0
  {
    var v := At(accounts, slot);
    var value := OtherNonZero(v.original);
    ws := [Write(slot.0, slot.1, value)];
    hide ValueAt, StatusOf, StatusCost;
    StatusCarriesCost(s, v.original, v.current, value);
    assert ws[..0] == [];
  }

  lemma OtherNonZero(w: word) returns (value: word)
    ensures value != ZERO && value != w
  {
    assert ZERO[63] == 0;
    var one: word := ZERO[63 := 1];
    var two: word := ZERO[63 := 2];
    assert one[63] == 1 && two[63] == 2;
    value := if w == one then two else one;
  }

  /** The running refund counter stays non-negative over every sequence of writes to any slots, exactly when no
      slot starts with its clearing refund already spent (or that refund is nothing). Clean slots never do. */
  lemma RefundsNonNegative(s: Schedule, accounts: Accounts)
    requires Reasonable(s)
    ensures (forall ws :: Refunds(s, accounts, ws) >= 0) <==>
      (s.clears == 0 || forall slot :: !Cleared(At(accounts, slot)))
  {
    hide Refunds, At, Cleared;
    if s.clears == 0 || forall slot :: !Cleared(At(accounts, slot)) {
      forall ws
        ensures Refunds(s, accounts, ws) >= 0
      {
        CleanNeverNegative(s, accounts, ws);
      }
    } else {
      var slot :| Cleared(At(accounts, slot));
      var ws := ClearedCanGoNegative(s, accounts, slot);
    }
  }
}
