/** Which strings of the environment must be freed, and the books kept about it. */
module Ownership {
  import opened CText

  /** A C string in memory; the identity of the object is its address. */
  class CString {
    const text: Text

    constructor (text: Text)
      ensures this.text == text
    {
      this.text := text;
    }
  }

  /** An environment slot: the string and whether it was allocated for the environment. */
  datatype Slot = Slot(str: CString, owned: bool)

  /** Every string ever allocated, those not freed yet, and the record of frees. */
  datatype Ledger = Ledger(born: set<CString>, mine: set<CString>, freed: multiset<CString>)

  ghost function Allocated(k: Ledger, s: CString): Ledger {
    Ledger(k.born + {s}, k.mine + {s}, k.freed)
  }

  ghost function Freed(k: Ledger, s: CString): Ledger {
    Ledger(k.born, k.mine - {s}, k.freed + multiset{s})
  }

  /** Each allocated string is either still held or was freed exactly once, and nothing that was
      not allocated here was ever freed. */
  ghost predicate Sound(k: Ledger) {
    && k.mine <= k.born
    && (forall s: CString :: s in k.born ==> k.freed[s] == if s in k.mine then 0 else 1)
    && (forall s: CString :: s in k.freed ==> s in k.born)
  }

  /** An owned slot holds a string not freed yet; any other slot holds a string that is not ours. */
  ghost predicate Flagged(slots: seq<Slot>, k: Ledger) {
    forall i :: 0 <= i < |slots| ==> if slots[i].owned then slots[i].str in k.mine else slots[i].str !in k.born
  }

  /** No two owned slots hold the same string. */
  ghost predicate Distinct(slots: seq<Slot>) {
    forall i, j :: 0 <= i < j < |slots| && slots[i].owned && slots[j].owned ==> slots[i].str != slots[j].str
  }

  /** No string is forgotten. */
  ghost predicate Covered(slots: seq<Slot>, k: Ledger) {
    forall s: CString :: s in k.mine ==> Slot(s, true) in slots
  }

  ghost predicate Balanced(slots: seq<Slot>, k: Ledger) {
    Sound(k) && Flagged(slots, k) && Distinct(slots) && Covered(slots, k)
  }

  function InsertAt(slots: seq<Slot>, i: nat, x: Slot): seq<Slot>
    requires i <= |slots|
  {
    slots[..i] + [x] + slots[i..]
  }

  function RemoveAt(slots: seq<Slot>, i: nat): seq<Slot>
    requires i < |slots|
  {
    slots[..i] + slots[i + 1..]
  }

  ghost function AfterInsert(k: Ledger, x: Slot): Ledger { if x.owned then Allocated(k, x.str) else k }

  ghost function AfterRemove(k: Ledger, x: Slot): Ledger { if x.owned then Freed(k, x.str) else k }

  lemma InsertIndex(slots: seq<Slot>, i: nat, x: Slot, j: nat)
    requires i <= |slots| && j <= |slots|
    ensures InsertAt(slots, i, x)[j] == if j < i then slots[j] else if j == i then x else slots[j - 1]
  {
  }

  /** A new string, just allocated or the caller's own, takes a slot. */
  lemma InsertBalanced(slots: seq<Slot>, k: Ledger, i: nat, x: Slot)
    requires Balanced(slots, k) && i <= |slots| && x.str !in k.born
    requires x.owned ==> forall j :: 0 <= j < |slots| ==> slots[j].str != x.str
    ensures Balanced(InsertAt(slots, i, x), AfterInsert(k, x))
  {
    var r, k2 := InsertAt(slots, i, x), AfterInsert(k, x);
    assert Sound(k2);
    forall j | 0 <= j < |r|
      ensures r[j] == if j < i then slots[j] else if j == i then x else slots[j - 1]
    {
      InsertIndex(slots, i, x, j);
    }
    assert Distinct(r);
    assert Covered(r, k2) by {
      assert forall y :: y in slots ==> y in r;
      assert r[i] == x;
    }
    assert Flagged(r, k2);
  }

  lemma RemoveIndex(slots: seq<Slot>, i: nat, j: nat)
    requires i < |slots| && j < |slots| - 1
    ensures RemoveAt(slots, i)[j] == if j < i then slots[j] else slots[j + 1]
  {
  }

  /** A slot is given up: its string is freed if it is ours and left alone if it is not. */
  lemma RemoveBalanced(slots: seq<Slot>, k: Ledger, i: nat)
    requires Balanced(slots, k) && i < |slots|
    ensures Balanced(RemoveAt(slots, i), AfterRemove(k, slots[i]))
  {
    var x, r, k2 := slots[i], RemoveAt(slots, i), AfterRemove(k, slots[i]);
    assert Sound(k2);
    forall j | 0 <= j < |r|
      ensures r[j] == if j < i then slots[j] else slots[j + 1]
    {
      RemoveIndex(slots, i, j);
    }
    hide RemoveAt;
    assert Distinct(r);
    assert Flagged(r, k2);
    forall s: CString | s in k2.mine
      ensures Slot(s, true) in r
    {
      var j :| 0 <= j < |slots| && slots[j] == Slot(s, true);
      assert r[if j < i then j else j - 1] == Slot(s, true);
    }
  }

  /** Replacing is giving up a slot and taking it again. */
  lemma ReplaceBalanced(slots: seq<Slot>, k: Ledger, i: nat, x: Slot)
    requires Balanced(slots, k) && i < |slots| && x.str !in k.born
    requires x.owned ==> forall j :: 0 <= j < |slots| ==> slots[j].str != x.str
    ensures Balanced(slots[i := x], AfterRemove(AfterInsert(k, x), slots[i]))
  {
    RemoveBalanced(slots, k, i);
    InsertBalanced(RemoveAt(slots, i), AfterRemove(k, slots[i]), i, x);
    assert InsertAt(RemoveAt(slots, i), i, x) == slots[i := x];
    assert AfterRemove(AfterInsert(k, x), slots[i]) == AfterInsert(AfterRemove(k, slots[i]), x);
  }

  /** With no slot left, every string ever allocated has been freed exactly once and no other
      string has been freed. */
  lemma AllFreed(k: Ledger)
    requires Balanced([], k)
    ensures k.mine == {} && (forall s: CString :: k.freed[s] == if s in k.born then 1 else 0)
  {
  }
}
