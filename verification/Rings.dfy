/**
 * One single-producer single-consumer ring of the AF_XDP socket, as it lies in
 * shared memory: two wrapping 32-bit counters and a power-of-two slot array.
 * `Holds` says which unbounded log of items a ring stands for.
 */
module Rings {
  import opened Words

  /** A slot of a umem ring holds an address, a slot of an Rx/Tx ring a descriptor. */
  datatype Slot = UmemSlot(addr: nat) | DescSlot(addr: nat, len: nat)

  datatype Ring = Ring(producer: nat, consumer: nat, slots: seq<Slot>)

  predicate GoodSize(n: nat) {
    IsPow2(n) && n <= 0x8000_0000
  }

  /** The index expression `i & uint32(N-1)`. */
  function SlotIndex(i: nat, n: nat): nat
    requires 0 < n
  {
    BitAnd(i, n - 1)
  }

  /** `NumFreeFillSlots` and `NumFreeTxSlots`, in 32-bit arithmetic with their clamp. */
  function NumFree(r: Ring): nat {
    var max := |r.slots| % WORD;
    var n := Sub32(max, Sub32(r.producer, r.consumer));
    if n > max then max else n
  }

  /** `NumReceived` and `NumCompleted`, in 32-bit arithmetic with their clamp. */
  function NumPending(r: Ring): nat {
    var max := |r.slots| % WORD;
    var n := Sub32(r.producer, r.consumer);
    if n > max then max else n
  }

  /**
   * Ring `r` of `n` slots stands for `log`: everything ever written to it in
   * order, of which the first `pub` are published and the first `freed` are
   * given back to the producer.
   */
  ghost predicate Holds(r: Ring, n: nat, log: seq<Slot>, pub: nat, freed: nat) {
    && GoodSize(n)
    && |r.slots| == n
    && freed <= pub <= |log| <= freed + n
    && r.producer == pub % WORD
    && r.consumer == freed % WORD
    && forall j {:trigger log[j]} :: freed <= j < |log| ==> r.slots[j % n] == log[j]
  }

  /** The masked wrapped counter selects the slot of the true counter. */
  lemma SlotOfTotal(total: nat, n: nat)
    requires GoodSize(n)
    ensures SlotIndex(total % WORD, n) == total % n < n
  {
    MaskIsMod(total % WORD, n);
    WrapMod(total, n);
  }

  lemma FreeArithmetic(n: nat, pub: nat, freed: nat)
    requires n <= 0x8000_0000 && freed <= pub <= freed + n
    ensures Sub32(n, Sub32(pub % WORD, freed % WORD)) == n - (pub - freed)
  {
    Sub32Exact(pub, freed);
  }

  /** The free-slot count is exact whatever the wrap-around; its clamp never fires. */
  lemma NumFreeExact(r: Ring, n: nat, log: seq<Slot>, pub: nat, freed: nat)
    requires Holds(r, n, log, pub, freed)
    ensures NumFree(r) == n - (pub - freed)
    ensures Sub32(n, Sub32(r.producer, r.consumer)) <= n
  {
    assert n % WORD == n;
    FreeArithmetic(n, pub, freed);
  }

  /** The pending count is exact whatever the wrap-around; its clamp never fires. */
  lemma NumPendingExact(r: Ring, n: nat, log: seq<Slot>, pub: nat, freed: nat)
    requires Holds(r, n, log, pub, freed)
    ensures NumPending(r) == pub - freed
    ensures Sub32(r.producer, r.consumer) <= n
  {
    assert n % WORD == n;
    assert Sub32(r.producer, r.consumer) == pub - freed by { Sub32Exact(pub, freed); }
  }

  /** Reading the slot of any item not yet given back yields that very item. */
  lemma ReadSlot(r: Ring, n: nat, log: seq<Slot>, pub: nat, freed: nat, j: nat)
    requires Holds(r, n, log, pub, freed) && freed <= j < |log|
    ensures SlotIndex(j % WORD, n) < n
    ensures r.slots[SlotIndex(j % WORD, n)] == log[j]
  {
    SlotOfTotal(j, n);
  }

  /**
   * Writing the next slot appends to the log. The slot written differs from the
   * slot of every item the other side has not given back.
   */
  lemma WriteSlot(r: Ring, n: nat, log: seq<Slot>, pub: nat, freed: nat, x: Slot)
    requires Holds(r, n, log, pub, freed) && |log| < freed + n
    ensures SlotIndex(|log| % WORD, n) < n
    ensures forall j {:trigger log[j]} :: freed <= j < |log| ==> SlotIndex(|log| % WORD, n) != j % n
    ensures Holds(r.(slots := r.slots[SlotIndex(|log| % WORD, n) := x]), n, log + [x], pub, freed)
  {
    var k := |log|;
    SlotOfTotal(k, n);
    forall j | freed <= j < k ensures j % n != k % n {
      ModDistinct(j, k, n);
    }
    var r' := r.(slots := r.slots[SlotIndex(k % WORD, n) := x]);
    var log' := log + [x];
    forall j {:trigger log'[j]} | freed <= j < |log'| ensures r'.slots[j % n] == log'[j] {
      if j < k {
        assert log'[j] == log[j];
        assert r.slots[j % n] == log[j];
      }
    }
  }

  lemma PublishSlots(r: Ring, n: nat, log: seq<Slot>, pub: nat, freed: nat, pub': nat)
    requires Holds(r, n, log, pub, freed) && pub <= pub' <= |log|
    ensures Holds(r.(producer := pub' % WORD), n, log, pub', freed)
  {
  }

  lemma FreeSlots(r: Ring, n: nat, log: seq<Slot>, pub: nat, freed: nat, freed': nat)
    requires Holds(r, n, log, pub, freed) && freed <= freed' <= pub
    ensures Holds(r.(consumer := freed' % WORD), n, log, pub, freed')
  {
  }

  /** A wrapped cursor meets the published end exactly when the true one does. */
  lemma CursorMeets(a: nat, b: nat)
    requires a <= b < a + WORD
    ensures (a % WORD == b % WORD) <==> a == b
  {
    Sub32Exact(b, a);
  }
}
