/** The process environment of user/libc/environ.c: a growing NULL-terminated array of strings with
    a flag for each string that must be freed. */
module Environment {
  import opened CText
  import opened EnvironmentList
  import opened Ownership

  /** Pair the strings of an array with their flags. */
  function Zip(strings: seq<CString?>, flags: seq<bool>): (slots: seq<Slot>)
    requires |strings| == |flags| && null !in strings
    ensures |slots| == |strings|
  {
    if strings == [] then []
    else
      var last := |strings| - 1;
      Zip(strings[..last], flags[..last]) + [Slot(strings[last], flags[last])]
  }

  function TextsOf(slots: seq<Slot>): (l: seq<string>)
    ensures |l| == |slots|
  {
    seq(|slots|, i requires 0 <= i < |slots| => slots[i].str.text)
  }

  lemma {:induction false} ZipAt(strings: seq<CString?>, flags: seq<bool>)
    requires |strings| == |flags| && null !in strings
    ensures forall i :: 0 <= i < |strings| ==> Zip(strings, flags)[i] == Slot(strings[i], flags[i])
  {
    if strings != [] {
      var last := |strings| - 1;
      ZipAt(strings[..last], flags[..last]);
    }
  }

  /** A call that changes the environment. */
  datatype Call =
    | Set(name: Text, value: Option<Text>, overwrite: bool)
    | Put(str: CString)
    | Unset(name: Text)
    | Clear
  {
    /** What the call does to the list of texts; a missing value counts as an empty one. */
    function Op(): EnvironmentList.Op {
      match this
      case Set(name, value, overwrite) => Setenv(name, if value.Some? then value.value else "", overwrite)
      case Put(str) => Putenv(str.text)
      case Unset(name) => Unsetenv(name)
      case Clear => Clearenv
    }

    /** A string given to putenv is not one of the environment's. */
    ghost predicate Foreign(k: Ledger) { Put? ==> str !in k.born }
  }

  function OpsOf(calls: seq<Call>): (ops: seq<EnvironmentList.Op>)
    ensures |ops| == |calls|
  {
    seq(|calls|, i requires 0 <= i < |calls| => calls[i].Op())
  }

  class Environment {
    var environ: array?<CString?>
    var entries: array?<CString?>
    var owned: array?<bool>
    var count: nat
    var capacity: nat
    var storageOwned: bool
    ghost var ledger: Ledger

    /** Slot `count` of the current array is NULL and every slot before it is not; once the arrays
        are our own they have room for the terminator. */
    ghost predicate Shape()
      reads this, environ, entries, owned
    {
      && (environ == null ==> count == 0)
      && (environ != null ==> count < environ.Length && environ[count] == null && null !in environ[..count])
      && if !storageOwned then entries == null && owned == null
         else
           && entries != null && owned != null && environ == entries
           && entries.Length == owned.Length == capacity + 1 && count <= capacity
    }

    ghost function Slots(): (slots: seq<Slot>)
      requires Shape()
      reads this, environ, entries, owned
      ensures |slots| == count
    {
      Zip(if environ == null then [] else environ[..count],
          if storageOwned then owned[..count] else seq(count, _ => false))
    }

    /** The slots are what the arrays hold. */
    lemma SlotsAt()
      requires Shape()
      ensures forall i :: 0 <= i < count ==> environ != null && Slots()[i].str == environ[i]
      ensures forall i :: 0 <= i < count ==> Slots()[i].owned == (storageOwned && owned[i])
    {
      ZipAt(if environ == null then [] else environ[..count],
            if storageOwned then owned[..count] else seq(count, _ => false));
    }

    ghost predicate Valid()
      reads this, environ, entries, owned
    {
      Shape() && Balanced(Slots(), ledger)
    }

    ghost function Texts(): seq<string>
      requires Shape()
      reads this, environ, entries, owned
    {
      TextsOf(Slots())
    }

    twostate predicate NewOrSame()
      reads this
    {
      && (entries == old(entries) || (entries != null && fresh(entries)))
      && (owned == old(owned) || (owned != null && fresh(owned)))
    }

    /** __menios_env_init on the envp the kernel passed. */
    constructor (envp: array?<CString?>, ghost n: nat)
      requires envp == null ==> n == 0
      requires envp != null ==> n < envp.Length && envp[n] == null && null !in envp[..n]
      ensures Valid() && count == n && !storageOwned && environ == envp
      ensures ledger == Ledger({}, {}, multiset{})
    {
      environ, entries, owned := envp, null, null;
      capacity, storageOwned := 0, false;
      ledger := Ledger({}, {}, multiset{});
      var total := 0;
      if envp != null {
        assert forall i :: 0 <= i < n ==> envp[i] == envp[..n][i];
        while envp[total] != null
          invariant 0 <= total <= n
          decreases n - total
        {
          total := total + 1;
        }
      }
      count := total;
      new;
      SlotsAt();
    }

    /** env_find_index. */
    method FindIndex(name: string) returns (r: int)
      requires Shape()
      ensures r == if FindKey(Texts(), name) < count then FindKey(Texts(), name) else -1
    {
      if environ == null {
        return -1;
      }
      SlotsAt();
      var i := 0;
      while environ[i] != null
        invariant 0 <= i <= count
        invariant forall j :: 0 <= j < i ==> !Matches(Texts()[j], name)
        decreases count - i
      {
        assert i < count;
        if Matches(environ[i].text, name) {
          FindKeyIs(Texts(), name, i);
          return i;
        }
        i := i + 1;
      }
      assert i == count;
      FindKeyIs(Texts(), name, count);
      r := -1;
    }

    /** getenv. */
    method Getenv(name: string) returns (r: Option<string>)
      requires Shape()
      ensures r == if IsValidName(name) then Lookup(Texts(), name) else None
    {
      if !IsValidName(name) {
        return None;
      }
      var i := FindIndex(name);
      if i < 0 {
        return None;
      }
      SlotsAt();
      r := Some(environ[i].text[|name| + 1..]);
    }

    /** env_clone_into_owned: the first change copies every string into arrays of our own. */
    method CloneIntoOwned(extra: nat) returns (hangs: bool)
      requires Valid() && !storageOwned
      modifies this
      ensures hangs <==> AnyLong(old(Texts()))
      ensures hangs ==> unchanged(this)
      ensures Valid() && NewOrSame() && count == old(count) && Texts() == old(Texts())
      ensures !hangs ==> storageOwned && count + extra <= capacity
      ensures old(ledger.born) <= ledger.born && fresh(ledger.born - old(ledger.born)) && ledger.freed == old(ledger.freed)
    {
      hide Balanced;
      hide Zip;
      hide TextsOf;
      var required := count + extra;
      var newCapacity := if required < 8 then 8 else required + 4;
      var newEntries := new CString?[newCapacity + 1](_ => null);
      var newOwned := new bool[newCapacity + 1](_ => false);
      ghost var slots, k := [], ledger;
      SlotsAt();
      NothingOwned(Slots(), k);
      TextsAt(Slots());
      hangs := false;
      if environ != null {
        hangs, slots, k := CopyStrings(environ, count, newEntries, newOwned, k);
        if hangs {
          return;
        }
      }
      SameTexts(slots, Slots());
      Adopt(newEntries, newOwned, newCapacity, slots, k);
    }

    /** Switch over to new arrays that hold the slots. */
    method Adopt(newEntries: array<CString?>, newOwned: array<bool>, newCapacity: nat,
                 ghost slots: seq<Slot>, ghost k: Ledger)
      requires newEntries.Length == newOwned.Length == newCapacity + 1 && count <= newCapacity
      requires |slots| == count && Balanced(slots, k)
      requires forall i :: 0 <= i < count ==> newEntries[i] == slots[i].str && newOwned[i] == slots[i].owned
      modifies this, newEntries, newOwned
      ensures Valid() && storageOwned && Slots() == slots && ledger == k
      ensures entries == newEntries && owned == newOwned && count == old(count) && capacity == newCapacity
    {
      hide Balanced;
      hide Zip;
      newEntries[count], newOwned[count] := null, false;
      environ, entries, owned := newEntries, newEntries, newOwned;
      capacity, storageOwned := newCapacity, true;
      ledger := k;
      ZipIs(newEntries[..count], newOwned[..count], slots);
    }

    /** env_ensure_capacity. */
    method EnsureCapacity(extra: nat) returns (hangs: bool)
      requires Valid()
      modifies this
      ensures hangs <==> !old(storageOwned) && AnyLong(old(Texts()))
      ensures hangs ==> unchanged(this)
      ensures Valid() && NewOrSame() && count == old(count) && Texts() == old(Texts())
      ensures !hangs ==> storageOwned && count + extra <= capacity
      ensures old(ledger.born) <= ledger.born && fresh(ledger.born - old(ledger.born)) && ledger.freed == old(ledger.freed)
    {
      hide Balanced;
      hide Zip;
      hide TextsOf;
      hide AnyLong;
      hangs := false;
      if !storageOwned {
        hangs := CloneIntoOwned(extra);
        return;
      }
      if count + extra < capacity {
        return;
      }
      var required := count + extra;
      var newCapacity := if capacity != 0 then capacity * 2 else required + 4;
      if newCapacity < required + 4 {
        newCapacity := required + 4;
      }
      Reallocate(newCapacity);
    }

    /** The two reallocarray calls. */
    method Reallocate(newCapacity: nat)
      requires Valid() && storageOwned && capacity <= newCapacity
      modifies this
      ensures Valid() && storageOwned && NewOrSame()
      ensures count == old(count) && capacity == newCapacity && Slots() == old(Slots()) && ledger == old(ledger)
    {
      hide Balanced;
      hide Zip;
      var newEntries := new CString?[newCapacity + 1](_ => null);
      var newOwned := new bool[newCapacity + 1](_ => false);
      forall i | 0 <= i <= capacity {
        newEntries[i] := entries[i];
      }
      forall i | 0 <= i <= capacity {
        newOwned[i] := owned[i];
      }
      SlotsAt();
      ghost var slots, k := Slots(), ledger;
      Adopt(newEntries, newOwned, newCapacity, slots, k);
    }

    /** env_release_entry, then the new string in its place. */
    method ReplaceEntry(i: nat, str: CString, flag: bool)
      requires Valid() && storageOwned && i < count && str !in ledger.born
      requires flag ==> forall j :: 0 <= j < count ==> Slots()[j].str != str
      modifies this`ledger, entries, owned
      ensures Valid() && Slots() == old(Slots())[i := Slot(str, flag)]
      ensures ledger.born == old(ledger.born) + if flag then {str} else {}
    {
      hide Balanced;
      hide Zip;
      SlotsAt();
      ghost var slots, x := Slots(), Slot(str, flag);
      ReplaceBalanced(slots, ledger, i, x);
      ledger := AfterRemove(AfterInsert(ledger, x), slots[i]);
      entries[i], owned[i] := str, flag;
      ZipIs(entries[..count], owned[..count], slots[i := x]);
    }

    /** A new last entry and a new terminator. */
    method AppendEntry(str: CString, flag: bool)
      requires Valid() && storageOwned && count < capacity && str !in ledger.born
      requires flag ==> forall j :: 0 <= j < count ==> Slots()[j].str != str
      modifies this`ledger, this`count, entries, owned
      ensures Valid() && count == old(count) + 1 && Slots() == old(Slots()) + [Slot(str, flag)]
      ensures ledger.born == old(ledger.born) + if flag then {str} else {}
    {
      hide Balanced;
      hide Zip;
      SlotsAt();
      ghost var slots, x := Slots(), Slot(str, flag);
      InsertBalanced(slots, ledger, count, x);
      assert InsertAt(slots, count, x) == slots + [x];
      ledger := AfterInsert(ledger, x);
      entries[count], owned[count] := str, flag;
      count := count + 1;
      entries[count], owned[count] := null, false;
      ZipIs(entries[..count], owned[..count], slots + [x]);
    }

    /** setenv. */
    method Setenv(name: Text, value: Option<Text>, overwrite: bool) returns (r: int, hangs: bool)
      requires Valid()
      modifies this, entries, owned
      ensures Valid() && NewOrSame() && old(ledger.born) <= ledger.born && fresh(ledger.born - old(ledger.born))
      ensures var op := EnvironmentList.Setenv(name, if value.Some? then value.value else "", overwrite);
              && (hangs <==> Hangs(old(Texts()), old(storageOwned), op))
              && (hangs ==> Texts() == old(Texts()))
              && (!hangs ==> r == (if IsValidName(name) then 0 else -1) && Changed(op))
    {
      hide Balanced, Zip, TextsOf, FindKey, AnyLong;
      hangs := false;
      if !IsValidName(name) {
        return -1, false;
      }
      var length;
      length, hangs := LengthOf(name);
      if hangs {
        return 0, true;
      }
      var existing := FindIndex(name);
      if existing >= 0 && !overwrite {
        return 0, false;
      }
      hangs := Update(name, value, existing);
      r := 0;
    }

    /** The part of setenv that changes something: room for one more, a measured value, a new entry. */
    method Update(name: Text, value: Option<Text>, existing: int) returns (hangs: bool)
      requires Valid() && IsValidName(name)
      requires existing == if FindKey(Texts(), name) < count then FindKey(Texts(), name) else -1
      modifies this, entries, owned
      ensures Valid() && NewOrSame() && old(ledger.born) <= ledger.born && fresh(ledger.born - old(ledger.born))
      ensures var text := if value.Some? then value.value else "";
              && (hangs <==> (!old(storageOwned) && AnyLong(old(Texts()))) || Long(text))
              && (hangs ==> Texts() == old(Texts()))
              && (!hangs ==> storageOwned && Texts() == WithEntry(old(Texts()), name, Entry(name, text)))
    {
      hide Balanced, Zip, TextsOf, FindKey, AnyLong, WithEntry, Slots;
      hangs := EnsureCapacity(1);
      if hangs {
        return;
      }
      if value.Some? {
        var length;
        length, hangs := LengthOf(value.value);
        if hangs {
          return;
        }
      }
      SetInPlace(name, if value.Some? then value.value else "", existing);
    }

    /** The list and the ownership of the arrays after a call that returned. */
    twostate predicate Changed(op: EnvironmentList.Op)
      requires old(Shape()) && Shape()
      reads this, environ, entries, owned
    {
      && Texts() == Apply(old(Texts()), op)
      && storageOwned == (old(storageOwned) || Changes(old(Texts()), op))
    }

    /** A new string of ours replaces the first entry for the name or becomes the last entry. */
    method SetInPlace(name: Text, value: Text, existing: int)
      requires Valid() && storageOwned && count < capacity
      requires existing == if FindKey(Texts(), name) < count then FindKey(Texts(), name) else -1
      modifies this`ledger, this`count, entries, owned
      ensures Valid() && Texts() == WithEntry(old(Texts()), name, Entry(name, value))
      ensures old(ledger.born) <= ledger.born && fresh(ledger.born - old(ledger.born))
    {
      hide Balanced, Zip, TextsOf, FindKey;
      var entry := new CString(Entry(name, value));
      UpdatedTexts(Slots(), name, Slot(entry, true));
      SlotsAt();
      if existing >= 0 {
        ReplaceEntry(existing, entry, true);
        return;
      }
      AppendEntry(entry, true);
    }

    /** putenv with a string that has not been freed. The string is borrowed; but one that the
        environment itself allocated is released and then kept, so the books stay balanced exactly
        for strings of the caller's own. */
    method Putenv(str: CString) returns (r: int, hangs: bool)
      requires Valid() && str !in ledger.freed
      modifies this, entries, owned
      ensures Shape() && NewOrSame() && old(ledger.born) <= ledger.born && fresh(ledger.born - old(ledger.born))
      ensures var op := EnvironmentList.Putenv(str.text);
              && (hangs <==> Hangs(old(Texts()), old(storageOwned), op))
              && (hangs ==> Valid() && Texts() == old(Texts()))
              && (!hangs ==> r == (if Changes(old(Texts()), op) then 0 else -1) && Changed(op))
      ensures !hangs ==> (Valid() <==> r == -1 || str !in old(ledger.born))
      ensures !hangs && r == 0 && str in old(ledger.born) ==> Slot(str, false) in Slots()
      ensures !hangs && r == 0 && str in old(ledger.born) && Unique(old(Texts())) ==> str in ledger.freed
    {
      hide Balanced, Zip, TextsOf, FindKey, Unique, AnyLong;
      hangs := false;
      var equals := IndexOfEquals(str.text);
      if equals == |str.text| || equals == 0 {
        return -1, false;
      }
      hangs := EnsureCapacity(1);
      if hangs {
        return 0, true;
      }
      PutInPlace(str, str.text[..equals]);
      r := 0;
    }

    /** The string replaces the first entry for its name or becomes the last entry. */
    method PutInPlace(str: CString, name: string)
      requires Valid() && storageOwned && count < capacity
      requires Matches(str.text, name) && '=' !in name && str !in ledger.freed
      modifies this`ledger, this`count, entries, owned
      ensures Shape() && ledger.born == old(ledger.born)
      ensures Texts() == WithEntry(old(Texts()), name, str.text)
      ensures Valid() <==> str !in ledger.born
      ensures str in ledger.born ==> Slot(str, false) in Slots()
      ensures str in ledger.born && Unique(old(Texts())) ==> str in ledger.freed
    {
      hide Balanced, Zip, TextsOf, FindKey, Unique;
      if str in ledger.born {
        OwnedIsListed(Slots(), ledger, str, name);
      }
      UpdatedTexts(Slots(), name, Slot(str, false));
      var existing := FindIndex(name);
      if existing >= 0 {
        PutEntry(existing, str);
        return;
      }
      AppendEntry(str, false);
    }

    /** The entry is released and the string takes its slot, borrowed. */
    method PutEntry(i: nat, str: CString)
      requires Valid() && storageOwned && i < count && str !in ledger.freed
      modifies this`ledger, entries, owned
      ensures Shape() && Slots() == old(Slots())[i := Slot(str, false)]
      ensures Slot(str, false) in Slots() && ledger == AfterRemove(old(ledger), old(Slots()[i]))
      ensures Valid() <==> str !in old(ledger.born)
    {
      hide Zip;
      SlotsAt();
      ghost var slots, x := Slots(), Slot(str, false);
      if str !in ledger.born {
        ReplaceBalanced(slots, ledger, i, x);
      }
      hide Balanced;
      ledger := AfterRemove(ledger, slots[i]);
      entries[i], owned[i] := str, false;
      ZipIs(entries[..count], owned[..count], slots[i := x]);
      assert Slots()[i] == x;
      NotOurs(Slots(), ledger, i);
    }

    /** Free the entry's string if it is ours and close the gap. */
    method RemoveEntry(index: nat)
      requires Valid() && storageOwned && index < count
      modifies this`ledger, this`count, entries, owned
      ensures Valid() && count == old(count) - 1 && Slots() == RemoveAt(old(Slots()), index)
      ensures ledger.born == old(ledger.born)
    {
      hide Balanced;
      hide Zip;
      ghost var slots := Slots();
      RemoveBalanced(slots, ledger, index);
      ZipRemove(entries[..count], owned[..count], index);
      ledger := AfterRemove(ledger, slots[index]);
      ShiftDown(entries, owned, index, count);
      count := count - 1;
      entries[count] := null;
      owned[count] := false;
    }

    /** unsetenv. */
    method Unsetenv(name: Text) returns (r: int, hangs: bool)
      requires Valid()
      modifies this, entries, owned
      ensures Valid() && NewOrSame() && old(ledger.born) <= ledger.born && fresh(ledger.born - old(ledger.born))
      ensures var op := EnvironmentList.Unsetenv(name);
              && (hangs <==> Hangs(old(Texts()), old(storageOwned), op))
              && (hangs ==> Texts() == old(Texts()))
              && (!hangs ==> r == (if IsValidName(name) then 0 else -1) && Changed(op))
    {
      hide Balanced, Zip, TextsOf, FindKey, AnyLong;
      hangs := false;
      if !IsValidName(name) {
        return -1, false;
      }
      hangs := EnsureCapacity(0);
      if hangs {
        return 0, true;
      }
      var length;
      length, hangs := LengthOf(name);
      if hangs {
        return 0, true;
      }
      var index := FindIndex(name);
      if index < 0 {
        return 0, false;
      }
      RemovedTexts(Slots(), index);
      RemoveEntry(index);
      r := 0;
    }

    /** clearenv and the end of the program free each string of ours, in order, and no other. */
    method ReleaseAll()
      requires Valid() && storageOwned
      modifies this`ledger, this`count, entries, owned
      ensures Valid() && count == 0 && Slots() == [] && ledger.born == old(ledger.born) && ledger.mine == {}
    {
      hide Balanced;
      hide Zip;
      SlotsAt();
      ghost var slots, k := Slots(), ledger;
      assert slots[0..] == slots;
      for i := 0 to count
        invariant Balanced(slots[i..], k) && k.born == ledger.born
        invariant unchanged(`count) && unchanged(`ledger)
        invariant forall j :: i <= j < count ==> entries[j] == slots[j].str && owned[j] == slots[j].owned
      {
        RemoveBalanced(slots[i..], k, 0);
        assert RemoveAt(slots[i..], 0) == slots[i + 1..];
        if owned[i] {
          k := Freed(k, slots[i].str);
        }
        entries[i] := null;
        owned[i] := false;
      }
      ledger := k;
      count := 0;
      entries[0], owned[0] := null, false;
      assert slots[|slots|..] == [];
      AllFreed(k);
      ZipIs(entries[..count], owned[..count], []);
    }

    /** clearenv. */
    method Clearenv() returns (r: int, hangs: bool)
      requires Valid()
      modifies this, entries, owned
      ensures Valid() && NewOrSame() && old(ledger.born) <= ledger.born && fresh(ledger.born - old(ledger.born))
      ensures var op := EnvironmentList.Clearenv;
              && (hangs <==> Hangs(old(Texts()), old(storageOwned), op))
              && (hangs ==> Texts() == old(Texts()))
              && (!hangs ==> r == 0 && ledger.mine == {} && Changed(op))
    {
      hide AnyLong;
      hangs := EnsureCapacity(0);
      if hangs {
        return 0, true;
      }
      ReleaseAll();
      r := 0;
    }

    /** Any sequence of calls, putenv with any strings of the caller's own, repeatedly too, up to the
        first that hangs. */
    method Run(calls: seq<Call>) returns (hangs: bool)
      requires Valid() && forall i :: 0 <= i < |calls| ==> calls[i].Foreign(ledger)
      modifies this, entries, owned
      ensures Valid() && NewOrSame() && old(ledger.born) <= ledger.born && fresh(ledger.born - old(ledger.born))
      ensures hangs <==> RunHangs(old(Texts()), old(storageOwned), OpsOf(calls))
      ensures !hangs ==> Texts() == EnvironmentList.Run(old(Texts()), OpsOf(calls))
    {
      hide Balanced, Shape, Slots, Apply, Hangs, Changes;
      ghost var ops := OpsOf(calls);
      assert ops[0..] == ops;
      for i := 0 to |calls|
        invariant Valid() && NewOrSame() && old(ledger.born) <= ledger.born && fresh(ledger.born - old(ledger.born))
        invariant EnvironmentList.Run(Texts(), ops[i..]) == EnvironmentList.Run(old(Texts()), ops)
        invariant RunHangs(Texts(), storageOwned, ops[i..]) == RunHangs(old(Texts()), old(storageOwned), ops)
      {
        assert ops[i..][0] == calls[i].Op() && ops[i..][1..] == ops[i + 1..];
        hangs := Perform(calls[i]);
        if hangs {
          return;
        }
      }
      assert ops[|calls|..] == [];
      hangs := false;
    }

    method Perform(call: Call) returns (hangs: bool)
      requires Valid() && call.Foreign(ledger)
      modifies this, entries, owned
      ensures Valid() && NewOrSame() && old(ledger.born) <= ledger.born && fresh(ledger.born - old(ledger.born))
      ensures hangs <==> Hangs(old(Texts()), old(storageOwned), call.Op())
      ensures !hangs ==> Changed(call.Op())
    {
      hide Shape, Slots, Apply, Hangs, Changes;
      var r;
      match call
      case Set(name, value, overwrite) => r, hangs := Setenv(name, value, overwrite);
      case Put(str) =>
        FreedIsOurs(Slots(), ledger, str);
        r, hangs := Putenv(str);
      case Unset(name) => r, hangs := Unsetenv(name);
      case Clear => r, hangs := Clearenv();
    }

    /** After any sequence of calls that returned, getenv reads what the same calls leave in a finite
        map. */
    method RunThenGet(calls: seq<Call>, name: string, ghost m: map<string, string>)
      returns (r: Option<string>, hangs: bool)
      requires forall i :: 0 <= i < |calls| ==> calls[i].Foreign(ledger)
      requires Valid() && Unique(Texts()) && Represents(Texts(), m)
      requires forall key :: key in m ==> IsValidName(key)
      modifies this, entries, owned
      ensures Valid() && fresh(ledger.born - old(ledger.born))
      ensures hangs <==> RunHangs(old(Texts()), old(storageOwned), OpsOf(calls))
      ensures !hangs ==>
                var after := RunOnMap(m, OpsOf(calls));
                && Unique(Texts())
                && r == if IsValidName(name) && name in after then Some(after[name]) else None
    {
      hide Balanced, Shape, Slots, Unique, Lookup, RunOnMap, RunHangs;
      RunRefinesMap(Texts(), m, OpsOf(calls));
      hangs := Run(calls);
      if hangs {
        return None, true;
      }
      r := Getenv(name);
    }

    /** __menios_env_fini: afterwards every string the environment ever allocated has been freed
        exactly once, and no string of anyone else's has been freed. */
    method Fini()
      requires Valid()
      modifies this, entries, owned
      ensures environ == null && entries == null && owned == null && count == 0 && !storageOwned
      ensures ledger.born == old(ledger.born) && ledger.mine == {}
      ensures forall s: CString :: allocated(s) ==> ledger.freed[s] == if s in ledger.born then 1 else 0
    {
      if storageOwned {
        ReleaseAll();
        AllFreed(ledger);
      } else {
        SlotsAt();
        NothingOwned(Slots(), ledger);
        AllFreed(ledger);
      }
      environ, entries, owned := null, null, null;
      count, capacity, storageOwned := 0, 0, false;
    }
  }

  /** The strdup loop: a fresh owned copy of each string, up to one that cannot be measured. */
  method CopyStrings(source: array<CString?>, n: nat, entries: array<CString?>, owned: array<bool>, ghost k: Ledger)
    returns (hangs: bool, ghost slots: seq<Slot>, ghost k2: Ledger)
    requires n <= source.Length && null !in source[..n]
    requires n <= entries.Length == owned.Length && entries != source && Balanced([], k)
    modifies entries, owned
    ensures hangs <==> exists i :: 0 <= i < n && source[i] != null && Long(source[i].text)
    ensures k.born <= k2.born && fresh(k2.born - k.born) && k2.freed == k.freed
    ensures !hangs ==>
              && |slots| == n && Balanced(slots, k2)
              && (forall i :: 0 <= i < n ==> entries[i] == slots[i].str && owned[i] == slots[i].owned)
              && (forall i :: 0 <= i < n ==> source[i] != null && slots[i].str.text == source[i].text)
  {
    hide Balanced;
    slots, k2 := [], k;
    for i := 0 to n
      invariant |slots| == i && Balanced(slots, k2)
      invariant k.born <= k2.born && fresh(k2.born - k.born) && k2.freed == k.freed
      invariant forall j :: 0 <= j < i ==> entries[j] == slots[j].str && owned[j] == slots[j].owned
      invariant forall j :: 0 <= j < i ==> source[j] != null && slots[j].str.text == source[j].text
      invariant forall j :: 0 <= j < i ==> !Long(slots[j].str.text)
    {
      assert source[i] == source[..n][i];
      var length;
      length, hangs := LengthOf(source[i].text);
      if hangs {
        return;
      }
      var copy := new CString(source[i].text);
      ghost var x := Slot(copy, true);
      InsertBalanced(slots, k2, i, x);
      entries[i], owned[i] := copy, true;
      assert InsertAt(slots, i, x) == slots + [x];
      slots, k2 := slots + [x], AfterInsert(k2, x);
    }
    hangs := false;
  }

  /** Move the entries behind `index` down by one. */
  method ShiftDown(entries: array<CString?>, owned: array<bool>, index: nat, count: nat)
    requires index < count <= entries.Length == owned.Length
    modifies entries, owned
    ensures entries[..count - 1] == old(entries[..count])[..index] + old(entries[..count])[index + 1..]
    ensures owned[..count - 1] == old(owned[..count])[..index] + old(owned[..count])[index + 1..]
  {
    ghost var es, os := entries[..count], owned[..count];
    var i := index;
    while i + 1 < count
      invariant index <= i < count
      invariant forall k :: 0 <= k < i ==> entries[k] == es[Skip(k, index)] && owned[k] == os[Skip(k, index)]
      invariant forall k :: i < k < count ==> entries[k] == es[k] && owned[k] == os[k]
    {
      entries[i] := entries[i + 1];
      owned[i] := owned[i + 1];
      i := i + 1;
    }
    Shifted(entries[..count - 1], es, index);
    Shifted(owned[..count - 1], os, index);
  }

  lemma Shifted<T>(now: seq<T>, was: seq<T>, index: nat)
    requires index < |was| == |now| + 1 && forall k :: 0 <= k < |now| ==> now[k] == was[Skip(k, index)]
    ensures now == was[..index] + was[index + 1..]
  {
  }

  /** The place in a list that stands at k once the entry at `index` is gone. */
  function Skip(k: nat, index: nat): nat { if k < index then k else k + 1 }

  lemma ZipRemove(strings: seq<CString?>, flags: seq<bool>, i: nat)
    requires |strings| == |flags| && null !in strings && i < |strings|
    ensures var e, o := strings[..i] + strings[i + 1..], flags[..i] + flags[i + 1..];
            null !in e && Zip(e, o) == RemoveAt(Zip(strings, flags), i)
  {
    var e, o := strings[..i] + strings[i + 1..], flags[..i] + flags[i + 1..];
    ZipAt(strings, flags);
    hide Zip;
    var slots := Zip(strings, flags);
    forall j | 0 <= j < |e|
      ensures e[j] == RemoveAt(slots, i)[j].str && o[j] == RemoveAt(slots, i)[j].owned
    {
      RemoveIndex(slots, i, j);
    }
    ZipIs(e, o, RemoveAt(slots, i));
  }

  lemma ZipIs(strings: seq<CString?>, flags: seq<bool>, slots: seq<Slot>)
    requires |strings| == |flags| == |slots| && null !in strings
    requires forall i :: 0 <= i < |slots| ==> strings[i] == slots[i].str && flags[i] == slots[i].owned
    ensures Zip(strings, flags) == slots
  {
    ZipAt(strings, flags);
  }

  /** Replacing or appending a slot is the list update. */
  lemma UpdatedTexts(slots: seq<Slot>, name: string, x: Slot)
    ensures var i := FindKey(TextsOf(slots), name);
            WithEntry(TextsOf(slots), name, x.str.text)
            == TextsOf(if i < |slots| then slots[i := x] else slots + [x])
  {
  }

  lemma RemovedTexts(slots: seq<Slot>, i: nat)
    requires i < |slots|
    ensures TextsOf(RemoveAt(slots, i)) == TextsOf(slots)[..i] + TextsOf(slots)[i + 1..]
  {
  }

  lemma SameTexts(a: seq<Slot>, b: seq<Slot>)
    requires |a| == |b| && forall i :: 0 <= i < |a| ==> a[i].str.text == b[i].str.text
    ensures TextsOf(a) == TextsOf(b)
  {
  }

  lemma TextsAt(slots: seq<Slot>)
    ensures forall i :: 0 <= i < |slots| ==> TextsOf(slots)[i] == slots[i].str.text
  {
  }

  /** What is not ours has never been freed. */
  lemma FreedIsOurs(slots: seq<Slot>, k: Ledger, str: CString)
    requires Balanced(slots, k) && str !in k.born
    ensures str !in k.freed
  {
  }

  /** A slot that holds one of our strings without owning it spoils the books. */
  lemma NotOurs(slots: seq<Slot>, k: Ledger, i: nat)
    requires i < |slots|
    ensures Balanced(slots, k) && !slots[i].owned ==> slots[i].str !in k.born
  {
  }

  /** A string of ours that is not freed stands in the list, so its name is found. */
  lemma OwnedIsListed(slots: seq<Slot>, k: Ledger, str: CString, name: string)
    requires Balanced(slots, k) && str in k.born && str !in k.freed && Matches(str.text, name)
    ensures Slot(str, true) in slots && FindKey(TextsOf(slots), name) < |slots|
    ensures Unique(TextsOf(slots)) && '=' !in name ==> slots[FindKey(TextsOf(slots), name)] == Slot(str, true)
  {
    var j :| 0 <= j < |slots| && slots[j] == Slot(str, true);
    assert TextsOf(slots)[j] == str.text;
  }

  /** A balanced array without owned slots has nothing to free. */
  lemma NothingOwned(slots: seq<Slot>, k: Ledger)
    requires Balanced(slots, k) && forall i :: 0 <= i < |slots| ==> !slots[i].owned
    ensures Balanced([], k)
  {
    assert k.mine == {};
  }
}
