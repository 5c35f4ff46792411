/**
 * The inventory matcher. On every inventory change of a player whose
 * auto-trash is enabled, it walks the change's transaction tree depth first,
 * records each slot that now holds an item named by an exact rule, adds up
 * per item id how much arrived, and keeps the first resulting stack seen for
 * each id. Only after the whole walk, and only when something positive
 * arrived, are the recorded slots emptied.
 */
module TrashSystem {
  import opened Wrappers
  import opened LinkedMaps
  import opened Inventory
  import FlatSettings

  /** One positive registration: which id, how much more of it the slot holds
      now, and the stack that is now there. */
  datatype Removal = Removal(itemId: string, delta: int, sample: Stack)

  /** What a part of the walk contributes: slots to clear, and registrations. */
  datatype Visit = Visit(slots: seq<int>, removals: seq<Removal>)

  const NoVisit := Visit([], [])

  function Join(a: Visit, b: Visit): Visit {
    Visit(a.slots + b.slots, a.removals + b.removals)
  }

  /** An exact rule matches: the stack is present, not empty, and its id is
      string-equal to some rule entry. */
  predicate Matches(stack: Option<Stack>, rules: seq<string>) {
    stack.Some? && !IsEmpty(stack.value) && stack.value.itemId in rules
  }

  /** How much more of the item the slot holds: the after quantity minus the
      before quantity, an empty before-stack counting as 0. */
  function Delta(before: Stack, after: Stack): (d: int)
    ensures d <= after.quantity
    ensures d == after.quantity <==> IsEmpty(before)
  {
    after.quantity - (if IsEmpty(before) then 0 else before.quantity)
  }

  // ---------------------------------------------------------------------------
  // Specification of the walk
  // ---------------------------------------------------------------------------

  /** The shared slot check: a removal, a slot outside the container, or a
      non-matching after-stack contributes nothing; otherwise the slot is
      recorded, and a positive delta over a present before-stack is registered. */
  function VisitSlot(rules: seq<string>, capacity: int, isRemove: bool, slot: int,
                     after: Option<Stack>, before: Option<Stack>): (v: Visit)
    ensures v.slots == (if !isRemove && 0 <= slot < capacity && Matches(after, rules) then [slot] else [])
    ensures v.removals != [] <==>
              v.slots != [] && before.Some? && Delta(before.value, after.value) > 0
    ensures v.removals != [] ==>
              v.removals == [Removal(after.value.itemId, Delta(before.value, after.value), after.value)]
  {
    if isRemove || slot < 0 || slot >= capacity || !Matches(after, rules) then NoVisit
    else if before.None? then Visit([slot], [])
    else
      var d := Delta(before.value, after.value);
      Visit([slot], if d <= 0 then [] else [Removal(after.value.itemId, d, after.value)])
  }

  /** A slot transaction: nothing when it failed, the slot check otherwise. */
  function VisitLeaf(rules: seq<string>, capacity: int, leaf: SlotTransaction): (v: Visit)
    ensures |v.removals| <= |v.slots| <= 1
  {
    if !leaf.succeeded then NoVisit
    else VisitSlot(rules, capacity, leaf.isRemove, leaf.slot, leaf.after, leaf.before)
  }

  /** The whole walk of one transaction. */
  function Walk(rules: seq<string>, capacity: int, t: Transaction): (v: Visit)
    decreases t, 1
  {
    if !t.Succeeded() then NoVisit
    else
      match t
      case SlotTx(leaf) => VisitLeaf(rules, capacity, leaf)
      case ListTx(_, children) => WalkList(rules, capacity, children)
      case MoveTx(_, remove, add) =>
        Join(VisitLeaf(rules, capacity, remove),
             if add.Some? then Walk(rules, capacity, add.value) else NoVisit)
      case OtherTx(_) => NoVisit
  }

  /** The walk of a list of transactions, in list order. */
  function WalkList(rules: seq<string>, capacity: int, ts: seq<Transaction>): (v: Visit)
    decreases ts, 0
  {
    if ts == [] then NoVisit
    else Join(WalkList(rules, capacity, ts[..|ts| - 1]), Walk(rules, capacity, ts[|ts| - 1]))
  }

  /** The per-item totals after registering `rs` in order (`getOrDefault` plus `put`). */
  function AddTotals(totals: Entries<string, int>, rs: seq<Removal>): Entries<string, int>
    decreases rs
  {
    if rs == [] then totals
    else AddTotals(Increment(totals, rs[0].itemId, rs[0].delta), rs[1..])
  }

  /** The total of `k` raised by `delta`: in place when `k` is stored, as a
      new last entry starting from 0 otherwise. `IncrementIsPut` shows this is
      `put(k, getOrDefault(k, 0) + delta)`. */
  function Increment(m: Entries<string, int>, k: string, delta: int): Entries<string, int> {
    if m == [] then [(k, delta)]
    else if m[0].0 == k then [(k, m[0].1 + delta)] + m[1..]
    else [m[0]] + Increment(m[1..], k, delta)
  }

  /** The per-item samples after registering `rs` in order (`putIfAbsent`). */
  function AddSamples(samples: Entries<string, Stack>, rs: seq<Removal>): Entries<string, Stack> {
    if rs == [] then samples
    else
      var r := rs[|rs| - 1];
      PutIfAbsent(AddSamples(samples, rs[..|rs| - 1]), r.itemId, r.sample)
  }

  /** The sum of the registered deltas: what the walk returns. */
  function SumDeltas(rs: seq<Removal>): int {
    if rs == [] then 0 else rs[0].delta + SumDeltas(rs[1..])
  }

  // ---------------------------------------------------------------------------
  // Properties of the walk
  // ---------------------------------------------------------------------------

  /** The slot transactions the walk reaches, in visit order: none below a
      failed transaction, and for a move its removal before its addition. */
  function Reached(t: Transaction): seq<SlotTransaction>
    decreases t, 1
  {
    if !t.Succeeded() then []
    else
      match t
      case SlotTx(leaf) => [leaf]
      case ListTx(_, children) => ReachedList(children)
      case MoveTx(_, remove, add) => [remove] + if add.Some? then Reached(add.value) else []
      case OtherTx(_) => []
  }

  function ReachedList(ts: seq<Transaction>): seq<SlotTransaction>
    decreases ts, 0
  {
    if ts == [] then [] else ReachedList(ts[..|ts| - 1]) + Reached(ts[|ts| - 1])
  }

  /** The slot check applied to each reached slot transaction in turn. */
  function VisitLeaves(rules: seq<string>, capacity: int, leaves: seq<SlotTransaction>): Visit {
    if leaves == [] then NoVisit
    else Join(VisitLeaves(rules, capacity, leaves[..|leaves| - 1]),
              VisitLeaf(rules, capacity, leaves[|leaves| - 1]))
  }

  lemma {:induction false} VisitLeavesAppend(rules: seq<string>, capacity: int, a: seq<SlotTransaction>, b: seq<SlotTransaction>)
    ensures VisitLeaves(rules, capacity, a + b)
            == Join(VisitLeaves(rules, capacity, a), VisitLeaves(rules, capacity, b))
  {
    if b == [] {
      assert a + b == a;
    } else {
      var init := b[..|b| - 1];
      VisitLeavesAppend(rules, capacity, a, init);
      VisitLeavesSnoc(rules, capacity, a, b);
      JoinAssociative(VisitLeaves(rules, capacity, a), VisitLeaves(rules, capacity, init),
                      VisitLeaf(rules, capacity, b[|b| - 1]));
    }
  }

  lemma VisitLeavesSnoc(rules: seq<string>, capacity: int, a: seq<SlotTransaction>, b: seq<SlotTransaction>)
    requires b != []
    ensures VisitLeaves(rules, capacity, a + b)
            == Join(VisitLeaves(rules, capacity, a + b[..|b| - 1]), VisitLeaf(rules, capacity, b[|b| - 1]))
  {
    var ab := a + b;
    assert ab[..|ab| - 1] == a + b[..|b| - 1];
  }

  lemma JoinAssociative(x: Visit, y: Visit, z: Visit)
    ensures Join(Join(x, y), z) == Join(x, Join(y, z))
  {
    assert x.slots + y.slots + z.slots == x.slots + (y.slots + z.slots);
    assert x.removals + y.removals + z.removals == x.removals + (y.removals + z.removals);
  }

  /** The tree walk is the slot check of every reached slot transaction, in
      depth-first order: nesting adds nothing and loses nothing. */
  lemma {:induction false} WalkIsPerLeaf(rules: seq<string>, capacity: int, t: Transaction)
    ensures Walk(rules, capacity, t) == VisitLeaves(rules, capacity, Reached(t))
    decreases t, 1
  {
    if t.Succeeded() {
      match t
      case SlotTx(leaf) =>
        VisitOneLeaf(rules, capacity, leaf);
      case ListTx(_, children) =>
        WalkListIsPerLeaf(rules, capacity, children);
      case MoveTx(_, _, _) =>
        WalkMoveIsPerLeaf(rules, capacity, t);
      case OtherTx(_) =>
    }
  }

  lemma {:induction false} WalkMoveIsPerLeaf(rules: seq<string>, capacity: int, t: Transaction)
    requires t.MoveTx? && t.Succeeded()
    ensures Walk(rules, capacity, t) == VisitLeaves(rules, capacity, Reached(t))
    decreases t, 0
  {
    var rest := if t.add.Some? then Reached(t.add.value) else [];
    if t.add.Some? {
      WalkIsPerLeaf(rules, capacity, t.add.value);
    }
    VisitLeavesAppend(rules, capacity, [t.remove], rest);
    VisitOneLeaf(rules, capacity, t.remove);
  }

  lemma VisitOneLeaf(rules: seq<string>, capacity: int, leaf: SlotTransaction)
    ensures VisitLeaves(rules, capacity, [leaf]) == VisitLeaf(rules, capacity, leaf)
  {
    assert [leaf][..0] == [];
  }

  lemma {:induction false} WalkListIsPerLeaf(rules: seq<string>, capacity: int, ts: seq<Transaction>)
    ensures WalkList(rules, capacity, ts) == VisitLeaves(rules, capacity, ReachedList(ts))
    decreases ts, 0
  {
    if ts != [] {
      var init := ts[..|ts| - 1];
      WalkListIsPerLeaf(rules, capacity, init);
      WalkIsPerLeaf(rules, capacity, ts[|ts| - 1]);
      VisitLeavesAppend(rules, capacity, ReachedList(init), Reached(ts[|ts| - 1]));
    }
  }

  /** A reached slot transaction whose slot gets recorded. */
  ghost predicate Records(rules: seq<string>, capacity: int, leaf: SlotTransaction, slot: int) {
    leaf.succeeded && !leaf.isRemove && leaf.slot == slot && 0 <= slot < capacity && Matches(leaf.after, rules)
  }

  lemma {:induction false} VisitLeavesSlots(rules: seq<string>, capacity: int, leaves: seq<SlotTransaction>, slot: int)
    ensures slot in VisitLeaves(rules, capacity, leaves).slots
            <==> exists j :: 0 <= j < |leaves| && Records(rules, capacity, leaves[j], slot)
  {
    if leaves != [] {
      var init := leaves[..|leaves| - 1];
      VisitLeavesSlots(rules, capacity, init, slot);
      if exists j :: 0 <= j < |init| && Records(rules, capacity, init[j], slot) {
        var j :| 0 <= j < |init| && Records(rules, capacity, init[j], slot);
        assert leaves[j] == init[j];
      }
      if exists j :: 0 <= j < |leaves| && Records(rules, capacity, leaves[j], slot) {
        var j :| 0 <= j < |leaves| && Records(rules, capacity, leaves[j], slot);
        if j < |init| { assert init[j] == leaves[j]; }
      }
    }
  }

  /** A slot is recorded exactly when some reached slot transaction succeeded,
      is not a removal, addresses that slot inside the container, and leaves a
      stack there that an exact rule matches. In particular a removal, a
      failed transaction or anything below a failed transaction never
      records a slot. */
  lemma RecordedSlotIff(rules: seq<string>, capacity: int, t: Transaction, slot: int)
    ensures slot in Walk(rules, capacity, t).slots
            <==> exists j :: 0 <= j < |Reached(t)| && Records(rules, capacity, Reached(t)[j], slot)
  {
    WalkIsPerLeaf(rules, capacity, t);
    VisitLeavesSlots(rules, capacity, Reached(t), slot);
  }

  /** No slot transaction anywhere in the tree succeeded. */
  ghost predicate NoLeafSucceeds(t: Transaction)
    decreases t
  {
    match t
    case SlotTx(leaf) => !leaf.succeeded
    case ListTx(_, children) => forall j :: 0 <= j < |children| ==> NoLeafSucceeds(children[j])
    case MoveTx(_, remove, add) => !remove.succeeded && (add.Some? ==> NoLeafSucceeds(add.value))
    case OtherTx(_) => true
  }

  /** A tree in which no slot transaction succeeded yields no slots, no totals
      and no samples, whatever the outcome of its composite transactions. */
  lemma {:induction false} NothingSucceededNothingCollected(rules: seq<string>, capacity: int, t: Transaction)
    requires NoLeafSucceeds(t)
    ensures Walk(rules, capacity, t) == NoVisit
    decreases t, 1
  {
    if t.Succeeded() {
      match t
      case SlotTx(_) =>
      case ListTx(_, children) =>
        NothingSucceededInList(rules, capacity, children);
      case MoveTx(_, _, add) =>
        if add.Some? { NothingSucceededNothingCollected(rules, capacity, add.value); }
      case OtherTx(_) =>
    }
  }

  lemma {:induction false} NothingSucceededInList(rules: seq<string>, capacity: int, ts: seq<Transaction>)
    requires forall j :: 0 <= j < |ts| ==> NoLeafSucceeds(ts[j])
    ensures WalkList(rules, capacity, ts) == NoVisit
    decreases ts, 0
  {
    if ts != [] {
      NothingSucceededInList(rules, capacity, ts[..|ts| - 1]);
      NothingSucceededNothingCollected(rules, capacity, ts[|ts| - 1]);
    }
  }

  /** Every registration is positive, names an id some rule matches, and
      carries the after-stack of that id. */
  ghost predicate WellFormed(rules: seq<string>, rs: seq<Removal>) {
    forall j :: 0 <= j < |rs| ==>
      rs[j].delta > 0 && rs[j].itemId in rules && rs[j].sample.itemId == rs[j].itemId
  }

  lemma {:induction false} VisitLeavesWellFormed(rules: seq<string>, capacity: int, leaves: seq<SlotTransaction>)
    ensures WellFormed(rules, VisitLeaves(rules, capacity, leaves).removals)
  {
    if leaves != [] {
      VisitLeavesWellFormed(rules, capacity, leaves[..|leaves| - 1]);
    }
  }

  /** Each leaf records at most one slot and registers only for a slot it
      records. */
  lemma {:induction false} VisitLeavesRegisterOnlyRecorded(rules: seq<string>, capacity: int, leaves: seq<SlotTransaction>)
    ensures |VisitLeaves(rules, capacity, leaves).removals| <= |VisitLeaves(rules, capacity, leaves).slots| <= |leaves|
  {
    if leaves != [] {
      VisitLeavesRegisterOnlyRecorded(rules, capacity, leaves[..|leaves| - 1]);
    }
  }

  /** A walk records at most one slot per reached slot transaction, and
      registers no more removals than it records slots. */
  lemma WalkRegistersOnlyRecorded(rules: seq<string>, capacity: int, t: Transaction)
    ensures |Walk(rules, capacity, t).removals| <= |Walk(rules, capacity, t).slots| <= |Reached(t)|
  {
    WalkIsPerLeaf(rules, capacity, t);
    VisitLeavesRegisterOnlyRecorded(rules, capacity, Reached(t));
  }

  /** Every registration of a walk is a positive delta of a matched id. */
  lemma WalkRegistersPositiveDeltas(rules: seq<string>, capacity: int, t: Transaction)
    ensures WellFormed(rules, Walk(rules, capacity, t).removals)
  {
    WalkIsPerLeaf(rules, capacity, t);
    VisitLeavesWellFormed(rules, capacity, Reached(t));
  }

  /** The sum of positive deltas is positive exactly when something was registered. */
  lemma {:induction false} SumPositiveIffRegistered(rules: seq<string>, rs: seq<Removal>)
    requires WellFormed(rules, rs)
    ensures SumDeltas(rs) >= 0
    ensures SumDeltas(rs) > 0 <==> rs != []
  {
    if rs != [] {
      SumPositiveIffRegistered(rules, rs[1..]);
    }
  }

  // ---------------------------------------------------------------------------
  // Totals and samples
  // ---------------------------------------------------------------------------

  /** The sum of the deltas registered for one id. */
  function SumFor(rs: seq<Removal>, id: string): int {
    if rs == [] then 0
    else (if rs[0].itemId == id then rs[0].delta else 0) + SumFor(rs[1..], id)
  }

  /** The sum of all stored totals. */
  function SumValues(m: Entries<string, int>): int {
    if m == [] then 0 else m[0].1 + SumValues(m[1..])
  }

  /** The update the source writes, `getOrDefault` then `put`, is `Increment`. */
  lemma {:induction false} IncrementIsPut(m: Entries<string, int>, k: string, delta: int)
    ensures Increment(m, k, delta) == Put(m, k, GetOrDefault(m, k, 0) + delta)
  {
    if m != [] {
      GetOrDefaultFront(m, k);
      PutFront(m, k, GetOrDefault(m, k, 0) + delta);
      if m[0].0 != k {
        IncrementIsPut(m[1..], k, delta);
      }
    }
  }

  /** Registering one removal is one increment. */
  lemma AddTotalsSingle(m: Entries<string, int>, r: Removal)
    ensures AddTotals(m, [r]) == Increment(m, r.itemId, r.delta)
  {
    assert [r][1..] == [];
  }

  /** Incrementing keeps the keys unique. */
  lemma IncrementKeepsKeysUnique(m: Entries<string, int>, k: string, delta: int)
    requires UniqueKeys(m)
    ensures UniqueKeys(Increment(m, k, delta))
  {
    IncrementIsPut(m, k, delta);
    PutKeepsKeysUnique(m, k, GetOrDefault(m, k, 0) + delta);
  }

  /** Incrementing changes the total of `k` by `delta` and no other total. */
  lemma {:induction false} IncrementGet(m: Entries<string, int>, k: string, delta: int, id: string)
    ensures GetOrDefault(Increment(m, k, delta), id, 0) == GetOrDefault(m, id, 0) + (if id == k then delta else 0)
  {
    var r := Increment(m, k, delta);
    GetOrDefaultFront(r, id);
    if m != [] {
      GetOrDefaultFront(m, id);
      if m[0].0 == k {
        assert r[1..] == m[1..];
      } else {
        IncrementGet(m[1..], k, delta, id);
        assert r[1..] == Increment(m[1..], k, delta);
      }
    }
  }

  /** `getOrDefault` looks at the first entry, then at the rest. */
  lemma GetOrDefaultFront(m: Entries<string, int>, id: string)
    ensures GetOrDefault(m, id, 0) == if m == [] then 0 else if m[0].0 == id then m[0].1 else GetOrDefault(m[1..], id, 0)
  {
  }

  /** Incrementing one total adds `delta` to the sum of all totals. */
  lemma {:induction false} IncrementSum(m: Entries<string, int>, k: string, delta: int)
    ensures SumValues(Increment(m, k, delta)) == SumValues(m) + delta
  {
    if m != [] {
      var r := Increment(m, k, delta);
      if m[0].0 == k {
        assert r[1..] == m[1..];
      } else {
        IncrementSum(m[1..], k, delta);
        assert r[1..] == Increment(m[1..], k, delta);
      }
    }
  }

  lemma {:induction false} TotalsKeepKeysUnique(m: Entries<string, int>, rs: seq<Removal>)
    requires UniqueKeys(m)
    ensures UniqueKeys(AddTotals(m, rs))
    decreases rs
  {
    if rs != [] {
      var r := rs[0];
      IncrementKeepsKeysUnique(m, r.itemId, r.delta);
      TotalsKeepKeysUnique(Increment(m, r.itemId, r.delta), rs[1..]);
    }
  }

  /** Totals per id accumulate across the registrations: the stored total of
      an id grows by exactly the deltas registered for it. */
  lemma {:induction false} TotalsAccumulate(m: Entries<string, int>, rs: seq<Removal>, id: string)
    requires UniqueKeys(m)
    ensures GetOrDefault(AddTotals(m, rs), id, 0) == GetOrDefault(m, id, 0) + SumFor(rs, id)
    decreases rs
  {
    if rs != [] {
      var r := rs[0];
      IncrementKeepsKeysUnique(m, r.itemId, r.delta);
      IncrementGet(m, r.itemId, r.delta, id);
      TotalsAccumulate(Increment(m, r.itemId, r.delta), rs[1..], id);
    }
  }

  /** The sum of all totals grows by the sum of all deltas, so with no
      earlier totals it equals what the walk returns. */
  lemma {:induction false} TotalsSum(m: Entries<string, int>, rs: seq<Removal>)
    ensures SumValues(AddTotals(m, rs)) == SumValues(m) + SumDeltas(rs)
    decreases rs
  {
    if rs != [] {
      IncrementSum(m, rs[0].itemId, rs[0].delta);
      TotalsSum(Increment(m, rs[0].itemId, rs[0].delta), rs[1..]);
    }
  }

  /** The first registered after-stack for `id`, searching from the front. */
  function FirstSample(rs: seq<Removal>, id: string): Option<Stack> {
    if rs == [] then None
    else if rs[0].itemId == id then Some(rs[0].sample)
    else FirstSample(rs[1..], id)
  }

  lemma {:induction false} FirstSampleAppend(rs: seq<Removal>, r: Removal, id: string)
    ensures FirstSample(rs + [r], id)
            == if FirstSample(rs, id).Some? then FirstSample(rs, id)
               else if r.itemId == id then Some(r.sample) else None
  {
    if rs != [] {
      FirstSampleAppend(rs[1..], r, id);
      assert (rs + [r])[1..] == rs[1..] + [r];
    }
  }

  /** The sample kept for each id is the one already stored, or else the
      first registered after-stack with that id. */
  lemma {:induction false} SamplesFirstSeen(m: Entries<string, Stack>, rs: seq<Removal>, id: string)
    requires UniqueKeys(m)
    ensures UniqueKeys(AddSamples(m, rs))
    ensures Get(AddSamples(m, rs), id) == if HasKey(m, id) then Get(m, id) else FirstSample(rs, id)
  {
    if rs != [] {
      var init := rs[..|rs| - 1];
      var r := rs[|rs| - 1];
      SamplesFirstSeen(m, init, id);
      SamplesFirstSeen(m, init, r.itemId);
      FirstSampleAppend(init, r, id);
      assert init + [r] == rs;
      var prev := AddSamples(m, init);
      if !HasKey(prev, r.itemId) {
        PutKeepsKeysUnique(prev, r.itemId, r.sample);
        assert Put(prev, r.itemId, r.sample) == prev + [(r.itemId, r.sample)];
      }
    }
  }

  lemma {:induction false} AddTotalsAppend(m: Entries<string, int>, a: seq<Removal>, b: seq<Removal>)
    ensures AddTotals(m, a + b) == AddTotals(AddTotals(m, a), b)
    decreases a
  {
    if a == [] {
      assert a + b == b;
    } else {
      AddTotalsAppend(Increment(m, a[0].itemId, a[0].delta), a[1..], b);
      RemovalsCons(a, b);
    }
  }

  lemma {:induction false} SumDeltasAppend(a: seq<Removal>, b: seq<Removal>)
    ensures SumDeltas(a + b) == SumDeltas(a) + SumDeltas(b)
  {
    if a == [] {
      assert a + b == b;
    } else {
      SumDeltasAppend(a[1..], b);
      RemovalsCons(a, b);
    }
  }

  /** The first registration of `a + b` is the first of `a`. */
  lemma RemovalsCons(a: seq<Removal>, b: seq<Removal>)
    requires a != []
    ensures (a + b)[0] == a[0] && (a + b)[1..] == a[1..] + b
  {
  }

  /** The last registration of `a + b` is the last of `b`. */
  lemma RemovalsSnoc(a: seq<Removal>, b: seq<Removal>)
    requires b != []
    ensures (a + b)[..|a + b| - 1] == a + b[..|b| - 1]
    ensures (a + b)[|a + b| - 1] == b[|b| - 1]
  {
  }

  lemma {:induction false} AddSamplesAppend(m: Entries<string, Stack>, a: seq<Removal>, b: seq<Removal>)
    ensures AddSamples(m, a + b) == AddSamples(AddSamples(m, a), b)
  {
    if b == [] {
      assert a + b == a;
    } else {
      AddSamplesAppend(m, a, b[..|b| - 1]);
      RemovalsSnoc(a, b);
    }
  }

  /** Collecting `a` and then `b` on top of some state collects `Join(a, b)`. */
  lemma ExtendJoin(s0: seq<int>, t0: Entries<string, int>, m0: Entries<string, Stack>, a: Visit, b: Visit)
    ensures s0 + a.slots + b.slots == s0 + Join(a, b).slots
    ensures AddTotals(AddTotals(t0, a.removals), b.removals) == AddTotals(t0, Join(a, b).removals)
    ensures AddSamples(AddSamples(m0, a.removals), b.removals) == AddSamples(m0, Join(a, b).removals)
    ensures SumDeltas(Join(a, b).removals) == SumDeltas(a.removals) + SumDeltas(b.removals)
  {
    AddTotalsAppend(t0, a.removals, b.removals);
    SumDeltasAppend(a.removals, b.removals);
    AddSamplesAppend(m0, a.removals, b.removals);
  }

  // ---------------------------------------------------------------------------
  // The matcher as the source runs it
  // ---------------------------------------------------------------------------

  /** `matchesRule`: scans the rule array for an entry equal to the stack's id. */
  method MatchesRule(itemStack: Option<Stack>, settings: FlatSettings.PlayerSettings) returns (matched: bool)
    ensures matched <==> itemStack.Some? && !IsEmpty(itemStack.value)
                         && exists i :: 0 <= i < settings.exactItems.Length
                                        && settings.exactItems[i] == itemStack.value.itemId
  {
    if itemStack.None? || IsEmpty(itemStack.value) {
      return false;
    }
    var itemId := itemStack.value.itemId;
    var rules := settings.GetExactItems();
    for i := 0 to rules.Length
      invariant forall j :: 0 <= j < i ==> rules[j] != itemId
    {
      if itemId == rules[i] {
        return true;
      }
    }
    return false;
  }

  /** The output lists and maps the walk fills in: slots to clear, totals by
      item id and sample stacks by item id, all in insertion order. */
  class TrashCollector {
    var slotsToRemove: seq<int>
    var totalsByItem: Entries<string, int>
    var samplesByItem: Entries<string, Stack>

    constructor ()
      ensures slotsToRemove == [] && totalsByItem == [] && samplesByItem == []
    {
      slotsToRemove, totalsByItem, samplesByItem := [], [], [];
    }

    /** The collected state after `v` was visited on top of the old state. */
    ghost predicate Extended(oldSlots: seq<int>, oldTotals: Entries<string, int>,
                             oldSamples: Entries<string, Stack>, v: Visit)
      reads this
    {
      && slotsToRemove == oldSlots + v.slots
      && totalsByItem == AddTotals(oldTotals, v.removals)
      && samplesByItem == AddSamples(oldSamples, v.removals)
    }

    /** `collectModifiedTrashSlots`: dispatch on the transaction class; returns
        the quantity registered below `t`. */
    method CollectModifiedTrashSlots(container: array<Option<Stack>>, t: Transaction,
                                     settings: FlatSettings.PlayerSettings) returns (removed: int)
      modifies this
      ensures Extended(old(slotsToRemove), old(totalsByItem), old(samplesByItem),
                       Walk(settings.exactItems[..], container.Length, t))
      ensures removed == SumDeltas(Walk(settings.exactItems[..], container.Length, t).removals)
      decreases t, 1
    {
      if !t.Succeeded() {
        return 0;
      }
      match t
      case SlotTx(leaf) =>
        removed := CollectFromSlotTransaction(container, leaf, settings);
      case ListTx(_, children) =>
        removed := CollectFromListTransaction(container, children, settings);
      case MoveTx(_, remove, add) =>
        ghost var rules, s0, t0, m0 := settings.exactItems[..], slotsToRemove, totalsByItem, samplesByItem;
        removed := CollectFromSlotTransaction(container, remove, settings);
        ghost var first := VisitLeaf(rules, container.Length, remove);
        ghost var rest := NoVisit;
        if add.Some? {
          var more := CollectModifiedTrashSlots(container, add.value, settings);
          removed := removed + more;
          rest := Walk(rules, container.Length, add.value);
        }
        ExtendJoin(s0, t0, m0, first, rest);
      case OtherTx(_) =>
        return 0;
    }

    /** `collectFromSlotTransaction` for a `SlotTransaction` or an
        `ItemStackSlotTransaction` (the two overloads do the same): nothing
        for a failed transaction, the shared slot check otherwise. */
    method CollectFromSlotTransaction(container: array<Option<Stack>>, leaf: SlotTransaction,
                                      settings: FlatSettings.PlayerSettings) returns (removed: int)
      modifies this
      ensures Extended(old(slotsToRemove), old(totalsByItem), old(samplesByItem),
                       VisitLeaf(settings.exactItems[..], container.Length, leaf))
      ensures removed == SumDeltas(VisitLeaf(settings.exactItems[..], container.Length, leaf).removals)
    {
      if !leaf.succeeded {
        return 0;
      }
      removed := CollectFromSlot(container, leaf.isRemove, leaf.slot, leaf.after, leaf.before, settings);
    }

    /** The shared slot check: record the slot of a matching addition inside
        the container, and register its quantity when there was a before-stack. */
    method CollectFromSlot(container: array<Option<Stack>>, isRemoveAction: bool, slot: int,
                           slotAfter: Option<Stack>, slotBefore: Option<Stack>,
                           settings: FlatSettings.PlayerSettings) returns (removed: int)
      modifies this
      ensures Extended(old(slotsToRemove), old(totalsByItem), old(samplesByItem),
                       VisitSlot(settings.exactItems[..], container.Length, isRemoveAction, slot, slotAfter, slotBefore))
      ensures removed == SumDeltas(VisitSlot(settings.exactItems[..], container.Length,
                                             isRemoveAction, slot, slotAfter, slotBefore).removals)
    {
      if isRemoveAction {
        return 0;
      }
      if slot < 0 || slot >= container.Length {
        return 0;
      }
      var matched := MatchesRule(slotAfter, settings);
      assert matched == Matches(slotAfter, settings.exactItems[..]);
      if !matched {
        return 0;
      }
      slotsToRemove := slotsToRemove + [slot];
      if slotBefore.None? {
        return 0;
      }
      removed := RegisterRemovedItem(slotBefore.value, slotAfter.value);
    }

    /** `collectFromListTransaction`: every child in list order. */
    method CollectFromListTransaction(container: array<Option<Stack>>, transactions: seq<Transaction>,
                                      settings: FlatSettings.PlayerSettings) returns (removed: int)
      modifies this
      ensures Extended(old(slotsToRemove), old(totalsByItem), old(samplesByItem),
                       WalkList(settings.exactItems[..], container.Length, transactions))
      ensures removed == SumDeltas(WalkList(settings.exactItems[..], container.Length, transactions).removals)
      decreases transactions, 0
    {
      ghost var rules := settings.exactItems[..];
      removed := 0;
      for i := 0 to |transactions|
        invariant Extended(old(slotsToRemove), old(totalsByItem), old(samplesByItem),
                           WalkList(rules, container.Length, transactions[..i]))
        invariant removed == SumDeltas(WalkList(rules, container.Length, transactions[..i]).removals)
      {
        ghost var before := WalkList(rules, container.Length, transactions[..i]);
        var more := CollectModifiedTrashSlots(container, transactions[i], settings);
        removed := removed + more;
        ghost var step := Walk(rules, container.Length, transactions[i]);
        assert transactions[..i + 1][..i] == transactions[..i];
        ExtendJoin(old(slotsToRemove), old(totalsByItem), old(samplesByItem), before, step);
      }
      assert transactions[..|transactions|] == transactions;
    }

    /** `registerRemovedItem`: a positive delta is added to the id's total and
        the after-stack becomes its sample unless it already has one. */
    method RegisterRemovedItem(slotBefore: Stack, slotAfter: Stack) returns (delta: int)
      modifies this
      ensures delta == (if Delta(slotBefore, slotAfter) > 0 then Delta(slotBefore, slotAfter) else 0)
      ensures slotsToRemove == old(slotsToRemove)
      ensures totalsByItem == if delta > 0 then AddTotals(old(totalsByItem), [Removal(slotAfter.itemId, delta, slotAfter)])
                              else old(totalsByItem)
      ensures samplesByItem == if delta > 0 then AddSamples(old(samplesByItem), [Removal(slotAfter.itemId, delta, slotAfter)])
                               else old(samplesByItem)
    {
      var itemId := slotAfter.itemId;
      var beforeQuantity := if IsEmpty(slotBefore) then 0 else slotBefore.quantity;
      delta := slotAfter.quantity - beforeQuantity;
      if delta <= 0 {
        return 0;
      }
      IncrementIsPut(totalsByItem, itemId, delta);
      AddTotalsSingle(totalsByItem, Removal(itemId, delta, slotAfter));
      totalsByItem := Put(totalsByItem, itemId, GetOrDefault(totalsByItem, itemId, 0) + delta);
      samplesByItem := PutIfAbsent(samplesByItem, itemId, slotAfter);
    }
  }

  /** Every recorded slot lies inside the container. */
  lemma WalkSlotsInRange(rules: seq<string>, capacity: int, t: Transaction)
    ensures InRange(Walk(rules, capacity, t).slots, capacity)
  {
    var slots := Walk(rules, capacity, t).slots;
    forall j | 0 <= j < |slots| ensures 0 <= slots[j] < capacity {
      RecordedSlotIff(rules, capacity, t, slots[j]);
    }
  }

  /** What one handled change produced: the walk's return value, the totals and
      samples it collected, and whether notifications were attempted. */
  datatype TrashReport = TrashReport(
    removedCount: int,
    totals: Entries<string, int>,
    samples: Entries<string, Stack>,
    notified: bool)

  /** The effect `removeTrashItems` has: the walk over the unchanged container,
      then, only when it returned a positive total, every recorded slot emptied
      in collection order; notifications only when also `notify` is on. */
  ghost predicate TrashRemoved(before: seq<Option<Stack>>, after: seq<Option<Stack>>,
                               rules: seq<string>, notify: bool, t: Transaction, report: TrashReport)
  {
    var v := Walk(rules, |before|, t);
    && InRange(v.slots, |before|)
    && report.removedCount == SumDeltas(v.removals)
    && report.totals == AddTotals([], v.removals)
    && report.samples == AddSamples([], v.removals)
    && after == (if report.removedCount > 0 then Cleared(before, v.slots) else before)
    && report.notified == (report.removedCount > 0 && notify && report.totals != [])
  }

  /** `removeTrashItems`: collect over the whole tree first, then clear. */
  method RemoveTrashItems(container: array<Option<Stack>>, transaction: Transaction,
                          settings: FlatSettings.PlayerSettings) returns (report: TrashReport)
    modifies container
    ensures TrashRemoved(old(container[..]), container[..], settings.exactItems[..], settings.notify,
                         transaction, report)
  {
    ghost var rules := settings.exactItems[..];
    ghost var v := Walk(rules, container.Length, transaction);
    var collector := new TrashCollector();
    var removedCount := collector.CollectModifiedTrashSlots(container, transaction, settings);
    assert collector.slotsToRemove == v.slots;
    WalkSlotsInRange(rules, container.Length, transaction);
    if removedCount > 0 {
      ClearSlots(container, collector.slotsToRemove);
    }
    assert settings.exactItems[..] == rules;
    var notified := removedCount > 0 && settings.notify && collector.totalsByItem != [];
    report := TrashReport(removedCount, collector.totalsByItem, collector.samplesByItem, notified);
  }

  /** `handleInventoryChange`: only a player's own inventory, with settings
      present and enabled, is touched; in every other case nothing changes. */
  method HandleInventoryChange(isPlayer: bool, container: array?<Option<Stack>>,
                               transaction: Option<Transaction>, inPlayerInventory: bool,
                               settings: FlatSettings.PlayerSettings?) returns (report: Option<TrashReport>)
    modifies container
    ensures report.None? <==> !isPlayer || container == null || transaction.None? || !inPlayerInventory
                              || settings == null || !settings.enabled
    ensures report.None? && container != null ==> container[..] == old(container[..])
    ensures report.Some? ==> TrashRemoved(old(container[..]), container[..], settings.exactItems[..],
                                          settings.notify, transaction.value, report.value)
  {
    if !isPlayer || container == null || transaction.None? || !inPlayerInventory {
      return None;
    }
    if settings == null || !settings.enabled {
      return None;
    }
    var r := RemoveTrashItems(container, transaction.value, settings);
    report := Some(r);
  }

  /** Something registered means some total is stored, so with positive
      deltas a positive count always comes with totals to notify about. */
  lemma RegisteredHasTotals(m: Entries<string, int>, rs: seq<Removal>)
    requires rs != []
    ensures AddTotals(m, rs) != []
  {
    TotalsNeverShrink(Increment(m, rs[0].itemId, rs[0].delta), rs[1..]);
  }

  /** Registering never removes a stored total. */
  lemma {:induction false} TotalsNeverShrink(m: Entries<string, int>, rs: seq<Removal>)
    ensures |AddTotals(m, rs)| >= |m|
    decreases rs
  {
    if rs != [] {
      IncrementNeverShrinks(m, rs[0].itemId, rs[0].delta);
      TotalsNeverShrink(Increment(m, rs[0].itemId, rs[0].delta), rs[1..]);
    }
  }

  lemma {:induction false} IncrementNeverShrinks(m: Entries<string, int>, k: string, delta: int)
    ensures |Increment(m, k, delta)| >= |m|
  {
    if m != [] && m[0].0 != k {
      IncrementNeverShrinks(m[1..], k, delta);
    }
  }

  // ---------------------------------------------------------------------------
  // Worked scenarios
  // ---------------------------------------------------------------------------

  /** One stack of Rock grows from 1 to 5 in slot 3 of a ten-slot container
      whose rules name Rock: slot 3 is recorded, the total for Rock is 4 and
      its sample is the five-stack. */
  lemma ScenarioRockGrows()
    ensures var t := SlotTx(SlotTransaction(true, false, 3, Some(Stack("Rock", 1)), Some(Stack("Rock", 5))));
            var v := Walk(["Rock"], 10, t);
            && v.slots == [3]
            && AddTotals([], v.removals) == [("Rock", 4)]
            && AddSamples([], v.removals) == [("Rock", Stack("Rock", 5))]
            && SumDeltas(v.removals) == 4
  {
    var t := SlotTx(SlotTransaction(true, false, 3, Some(Stack("Rock", 1)), Some(Stack("Rock", 5))));
    var v := Walk(["Rock"], 10, t);
    assert v.removals == [Removal("Rock", 4, Stack("Rock", 5))];
    assert v.removals[..0] == [];
  }

  /** A list of two additions, Rock by 2 and Dirt by 3, where only Rock is a
      rule: the Rock slot alone is recorded and only Rock has a total. */
  lemma ScenarioOnlyRuledItemCounts()
    ensures var rock := SlotTx(SlotTransaction(true, false, 1, Some(Stack("Rock", 1)), Some(Stack("Rock", 3))));
            var dirt := SlotTx(SlotTransaction(true, false, 2, Some(Stack("Dirt", 1)), Some(Stack("Dirt", 4))));
            var v := Walk(["Rock"], 10, ListTx(true, [rock, dirt]));
            && v.slots == [1]
            && AddTotals([], v.removals) == [("Rock", 2)]
  {
    var rock := SlotTx(SlotTransaction(true, false, 1, Some(Stack("Rock", 1)), Some(Stack("Rock", 3))));
    var dirt := SlotTx(SlotTransaction(true, false, 2, Some(Stack("Dirt", 1)), Some(Stack("Dirt", 4))));
    var ts := [rock, dirt];
    assert "Dirt" !in ["Rock"] by { assert "Dirt"[0] != "Rock"[0]; }
    assert Walk(["Rock"], 10, dirt) == NoVisit;
    var rockVisit := Visit([1], [Removal("Rock", 2, Stack("Rock", 3))]);
    assert Walk(["Rock"], 10, rock) == rockVisit;
    assert ts[..|ts| - 1] == [rock] && ts[|ts| - 1] == dirt && [rock][..0] == [];
    assert WalkList(["Rock"], 10, [rock]) == Join(NoVisit, rockVisit);
    assert WalkList(["Rock"], 10, ts) == rockVisit;
    assert rockVisit.removals[..0] == [];
  }

  /** A rule item placed into a slot whose before-stack is null is recorded,
      but with nothing registered the walk returns 0 and no slot is cleared. */
  lemma RecordedWithoutBeforeIsNotCleared(before: seq<Option<Stack>>, after: seq<Option<Stack>>, report: TrashReport)
    requires |before| == 10
    requires TrashRemoved(before, after, ["Rock"], true,
                          SlotTx(SlotTransaction(true, false, 3, None, Some(Stack("Rock", 5)))), report)
    ensures Walk(["Rock"], 10, SlotTx(SlotTransaction(true, false, 3, None, Some(Stack("Rock", 5))))).slots == [3]
    ensures report.removedCount == 0 && after == before && !report.notified
  {
  }
}
