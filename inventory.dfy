/**
 * The game library's inventory types as far as the plugin uses them: item
 * stacks, containers of optional stacks, and the transaction tree that an
 * inventory change event carries.
 */
module Inventory {
  import opened Wrappers

  /** An `ItemStack`: an opaque item id and a quantity. */
  datatype Stack = Stack(itemId: string, quantity: int)

  /** `ItemStack.isEmpty`: a stack holding nothing. The library's own test is
      not part of this model; a stack is taken to be empty when its quantity
      is not positive. */
  predicate IsEmpty(s: Stack) {
    s.quantity <= 0
  }

  /** A slot-level change (`SlotTransaction` and its subclass
      `ItemStackSlotTransaction`): whether it succeeded, whether its action
      is a removal, the slot, and the stacks before and after (null is None). */
  datatype SlotTransaction = SlotTransaction(
    succeeded: bool,
    isRemove: bool,
    slot: int,
    before: Option<Stack>,
    after: Option<Stack>)

  /** The transaction classes the matcher tells apart. */
  datatype Transaction =
    | SlotTx(leaf: SlotTransaction)
      // `ItemStackTransaction` (its slot transactions) and `ListTransaction` (its list)
    | ListTx(succeeded: bool, children: seq<Transaction>)
      // `MoveTransaction`: the removal from the source slot and, possibly, the addition elsewhere
    | MoveTx(succeeded: bool, remove: SlotTransaction, add: Option<Transaction>)
      // any other transaction class
    | OtherTx(succeeded: bool)
  {
    /** `Transaction.succeeded()` */
    predicate Succeeded() {
      match this
      case SlotTx(leaf) => leaf.succeeded
      case ListTx(ok, _) => ok
      case MoveTx(ok, _, _) => ok
      case OtherTx(ok) => ok
    }
  }

  /** Every slot index in `targets` addresses a slot of a container of `capacity` slots. */
  ghost predicate InRange(targets: seq<int>, capacity: int) {
    forall j :: 0 <= j < |targets| ==> 0 <= targets[j] < capacity
  }

  /** The container contents after emptying the slots of `targets`, one after
      another, in order. */
  function Cleared(slots: seq<Option<Stack>>, targets: seq<int>): (r: seq<Option<Stack>>)
    requires InRange(targets, |slots|)
    ensures |r| == |slots|
  {
    if targets == [] then slots
    else
      var k := targets[|targets| - 1];
      Cleared(slots, targets[..|targets| - 1])[k := None]
  }

  /** Clearing empties exactly the listed slots and leaves every other slot as it was. */
  lemma {:induction false} ClearedAt(slots: seq<Option<Stack>>, targets: seq<int>, i: int)
    requires InRange(targets, |slots|)
    requires 0 <= i < |slots|
    ensures Cleared(slots, targets)[i] == if i in targets then None else slots[i]
  {
    if targets != [] {
      var init := targets[..|targets| - 1];
      ClearedAt(slots, init, i);
      assert targets == init + [targets[|targets| - 1]];
    }
  }

  /** Clearing an already cleared set of slots changes nothing, and neither does
      listing a slot twice. */
  lemma ClearIdempotent(slots: seq<Option<Stack>>, targets: seq<int>, extra: seq<int>)
    requires InRange(targets, |slots|)
    requires forall j :: 0 <= j < |extra| ==> extra[j] in targets
    ensures Cleared(Cleared(slots, targets), targets) == Cleared(slots, targets)
    ensures Cleared(slots, targets + extra) == Cleared(slots, targets)
  {
    var once := Cleared(slots, targets);
    forall i | 0 <= i < |slots|
      ensures Cleared(once, targets)[i] == once[i]
      ensures Cleared(slots, targets + extra)[i] == once[i]
    {
      ClearedAt(once, targets, i);
      ClearedAt(slots, targets, i);
      ClearedAt(slots, targets + extra, i);
    }
  }

  /** `ItemContainer.removeItemStackFromSlot`: the slot becomes empty. */
  method RemoveItemStackFromSlot(container: array<Option<Stack>>, slot: int)
    requires 0 <= slot < container.Length
    modifies container
    ensures container[..] == old(container[..])[slot := None]
  {
    container[slot] := None;
  }

  /** Empties the slots of `targets` in order. */
  method ClearSlots(container: array<Option<Stack>>, targets: seq<int>)
    requires InRange(targets, container.Length)
    modifies container
    ensures container[..] == Cleared(old(container[..]), targets)
  {
    for i := 0 to |targets|
      invariant container[..] == Cleared(old(container[..]), targets[..i])
    {
      assert targets[..i + 1][..i] == targets[..i];
      RemoveItemStackFromSlot(container, targets[i]);
    }
    assert targets[..|targets|] == targets;
  }
}
