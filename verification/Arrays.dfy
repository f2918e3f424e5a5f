/** `EFArray` as a buffer of slots: the growable array refines a sequence. Element callbacks are in `ObjectRuntime`. */
module Arrays {
  import opened Allocation
  import opened Memory

  datatype Option<+T> = None | Some(value: T)

  /** `__LONG_MAX__`, the greatest `EFIndex`. */
  const LONG_MAX: int := 0x7FFF_FFFF_FFFF_FFFF

  /** A signed 64-bit index. */
  type EFIndex = i: int | -LONG_MAX - 1 <= i <= LONG_MAX

  /** How many slots a full array gains when it is reallocated. */
  const GROWTH: nat := 5

  /** The values in the first slots. */
  function Values<T>(slots: seq<Option<T>>): (values: seq<T>)
    requires forall i :: 0 <= i < |slots| ==> slots[i].Some?
    ensures |values| == |slots|
    ensures forall i :: 0 <= i < |slots| ==> values[i] == slots[i].value
  {
    seq(|slots|, i requires 0 <= i < |slots| => slots[i].value)
  }

  /** Opening a gap with `memmove` and storing into it inserts a value. */
  lemma InsertedSlots<T>(slots: seq<Option<T>>, index: nat, count: nat, value: Option<T>)
    requires index <= count < |slots| && value.Some?
    requires forall i :: 0 <= i < count ==> slots[i].Some?
    ensures var moved := Splice(slots, index + 1, slots[index..count])[index := value];
            && (forall i :: 0 <= i < count + 1 ==> moved[i].Some?)
            && Values(moved[..count + 1]) ==
               Values(slots[..count])[..index] + [value.value] + Values(slots[..count])[index..]
  {
    var moved := Splice(slots, index + 1, slots[index..count])[index := value];
    assert forall i :: 0 <= i < index ==> moved[i] == slots[i];
    assert forall i :: index < i < count + 1 ==> moved[i] == slots[i - 1];
  }

  /** Closing the gap with `memmove` removes a value. */
  lemma RemovedSlots<T>(slots: seq<Option<T>>, index: nat, count: nat)
    requires index < count <= |slots| && forall i :: 0 <= i < count ==> slots[i].Some?
    ensures var moved := Splice(slots, index, slots[index + 1..count]);
            && (forall i :: 0 <= i < count - 1 ==> moved[i].Some?)
            && Values(moved[..count - 1]) == Values(slots[..count])[..index] + Values(slots[..count])[index + 1..]
  {
    var moved := Splice(slots, index, slots[index + 1..count]);
    assert forall i :: 0 <= i < index ==> moved[i] == slots[i];
    assert forall i :: index <= i < count - 1 ==> moved[i] == slots[i + 1];
  }

  class EFArray<T> {
    var isMutable: bool
    var items: array<Option<T>>
    var count: nat

    /** A NULL slot is `None`; the slots in use are never NULL. */
    ghost predicate Valid()
      reads this, items
    {
      && count <= items.Length <= LONG_MAX
      && forall i :: 0 <= i < count ==> items[i].Some?
    }

    ghost function Contents(): (values: seq<T>)
      requires Valid()
      reads this, items
      ensures |values| == count
    {
      Values(items[..count])
    }

    constructor (items: array<Option<T>>)
      ensures this.items == items && count == 0 && isMutable
    {
      this.items := items;
      count := 0;
      isMutable := true;
    }

    /** `EFArrayGetValueAtIndex`. */
    function GetValueAtIndex(index: nat): (value: Option<T>)
      requires Valid()
      reads this, items
      ensures value == if index < |Contents()| then Some(Contents()[index]) else None
    {
      if count <= index then None else items[index]
    }

    /** `__EFArrayResizeIfNeededForOneMoreIndex`. */
    method ResizeIfNeededForOneMoreIndex(a: Allocator) returns (ok: bool)
      requires Valid()
      modifies this, items, a
      ensures a.failures >= old(a.failures)
      ensures Valid() && Contents() == old(Contents()) && isMutable == old(isMutable) && count == old(count)
      ensures items == old(items) || fresh(items)
      ensures count < old(items.Length) ==> ok && items == old(items) && a.failures == old(a.failures)
      ensures ok ==> count < items.Length && a.failures == old(a.failures)
      ensures ok && items != old(items) ==> items.Length == old(items.Length) + 5
      ensures !ok ==> items == old(items) && (a.failures > old(a.failures) || items.Length + 5 > LONG_MAX)
      ensures a.history ==
              old(a.history) + if old(items.Length <= count && items.Length + 5 <= LONG_MAX) then [ok] else []
    {
      var neededCap := count + 1;
      if items.Length >= neededCap {
        return true;
      }
      var newCap := items.Length + GROWTH;
      if newCap > LONG_MAX {
        return false;
      }
      var granted := a.Request();
      if !granted {
        return false;
      }
      ghost var values := Contents();
      var newPtr := Realloc(a, items, newCap, None);
      items := newPtr;
      assert Contents() == values;
      return true;
    }

    /** `EFArrayAppendValue`. */
    method AppendValue(a: Allocator, value: Option<T>) returns (ok: bool)
      requires Valid()
      modifies this, items, a
      ensures a.failures >= old(a.failures) && (items == old(items) || fresh(items))
      ensures Valid() && isMutable == old(isMutable)
      ensures ok ==> value.Some? && isMutable && old(count) < LONG_MAX && a.failures == old(a.failures)
      ensures Contents() == if ok then old(Contents()) + [value.value] else old(Contents())
      ensures ok ==> items.Length == old(items.Length) + if old(count < items.Length) then 0 else 5
      ensures !ok ==> items == old(items)
      ensures if value.Some? && isMutable && old(count) < LONG_MAX then
                && (old(count < items.Length) ==> ok && items == old(items))
                && (!ok ==> a.failures > old(a.failures) || items.Length + 5 > LONG_MAX)
                && a.history ==
                   old(a.history) + if old(items.Length <= count && items.Length + 5 <= LONG_MAX) then [ok] else []
              else !ok && a.history == old(a.history) && a.failures == old(a.failures)
    {
      if value.None? || !isMutable || count >= LONG_MAX {
        return false;
      }
      ghost var values := Contents();
      ok := ResizeIfNeededForOneMoreIndex(a);
      if !ok {
        return false;
      }
      var idx := count;
      count := count + 1;
      items[idx] := value;
      assert Contents() == values + [value.value];
    }

    /** Opens a gap at `index` and stores the value there. */
    method StoreAt(index: nat, value: Option<T>)
      requires Valid() && value.Some? && index <= count < items.Length
      modifies this`count, items
      ensures Valid() && Contents() == old(Contents())[..index] + [value.value] + old(Contents())[index..]
    {
      ghost var slots := items[..];
      assert slots[..count] == items[..count];
      InsertedSlots(slots, index, count, value);
      Memmove(items, index + 1, items, index, count - index);
      items[index] := value;
      count := count + 1;
      assert items[..] == Splice(slots, index + 1, slots[index..count - 1])[index := value];
      assert items[..][..count] == items[..count];
    }

    /** `EFArrayInsertValueAtIndex`. */
    method InsertValueAtIndex(a: Allocator, index: nat, value: Option<T>) returns (ok: bool)
      requires Valid()
      modifies this, items, a
      ensures a.failures >= old(a.failures) && (items == old(items) || fresh(items))
      ensures Valid() && isMutable == old(isMutable)
      ensures ok ==> value.Some? && isMutable && index <= old(count) && old(count) < LONG_MAX
      ensures ok ==> a.failures == old(a.failures)
      ensures Contents() == if ok then old(Contents())[..index] + [value.value] + old(Contents())[index..]
                            else old(Contents())
      ensures if value.Some? && isMutable && index <= old(count) && old(count) < LONG_MAX then
                !ok ==> a.failures > old(a.failures) || old(items.Length) + 5 > LONG_MAX
              else !ok && a.history == old(a.history) && a.failures == old(a.failures)
    {
      if value.None? || !isMutable || index > count || count >= LONG_MAX {
        return false;
      }
      ok := ResizeIfNeededForOneMoreIndex(a);
      if !ok {
        return false;
      }
      StoreAt(index, value);
    }

    /** `EFArrayRemoveValueAtIndex`. */
    method RemoveValueAtIndex(index: nat)
      requires Valid()
      modifies this, items
      ensures Valid() && isMutable == old(isMutable) && items == old(items)
      ensures Contents() == if old(isMutable) && index < old(count)
                            then old(Contents())[..index] + old(Contents())[index + 1..]
                            else old(Contents())
    {
      if !isMutable || index >= count {
        return;
      }
      ghost var slots := items[..];
      assert slots[..count] == items[..count];
      RemovedSlots(slots, index, count);
      Memmove(items, index, items, index + 1, count - index - 1);
      count := count - 1;
      assert items[..] == Splice(slots, index, slots[index + 1..count + 1]);
      assert items[..][..count] == items[..count];
    }
  }

  /** An array with a capacity needs memory for its slots and for the object, an empty one for the object. */
  function CreationRequests(capacity: nat): nat {
    if capacity > 0 then 2 else 1
  }

  /** `EFArrayCreateMutable`. */
  method CreateMutable<T>(a: Allocator, capacity: nat) returns (r: EFArray?<T>)
    requires capacity <= LONG_MAX
    modifies a
    ensures r != null ==> a.history == old(a.history) + Granted(CreationRequests(capacity))
    ensures r == null ==>
              exists n :: 0 <= n < CreationRequests(capacity) && a.history == old(a.history) + Granted(n) + [false]
    ensures r != null <==> a.failures == old(a.failures)
    ensures a.failures >= old(a.failures)
    ensures r != null ==>
              fresh(r) && fresh(r.items) && r.Valid() && r.isMutable && r.Contents() == [] && r.items.Length == capacity
  {
    GrantedMore(0);
    if capacity > 0 {
      var granted := a.Request();
      if !granted {
        assert a.history == old(a.history) + Granted(0) + [false];
        return null;
      }
    }
    ghost var n := CreationRequests(capacity) - 1;
    assert a.history == old(a.history) + Granted(n);
    GrantedMore(n);
    var slots := new Option<T>[capacity](_ => None);
    var granted := a.Request();
    if !granted {
      return null;
    }
    r := new EFArray(slots);
  }

  /** `__EFArrayCreateCopy`: room for exactly the source's values, so that no append in the loop reallocates. */
  method CreateCopy<T>(a: Allocator, source: EFArray?<T>, isMutable: bool) returns (r: EFArray?<T>)
    requires source != null ==> source.Valid()
    modifies a
    ensures source == null ==> r == null
    ensures a.failures >= old(a.failures)
    ensures source != null ==> (r != null <==> a.failures == old(a.failures))
    ensures r != null ==>
              fresh(r) && fresh(r.items) && r.Valid() && r.isMutable == isMutable && r.Contents() == source.Contents()
  {
    if source == null {
      return null;
    }
    r := CreateMutable(a, source.count);
    if r == null {
      return null;
    }
    var index := 0;
    while index < source.count
      invariant index <= source.count == r.items.Length && source.Valid()
      invariant fresh(r) && fresh(r.items) && r.Valid() && r.isMutable
      invariant r.Contents() == source.Contents()[..index]
      invariant a.failures == old(a.failures)
    {
      var ok := r.AppendValue(a, source.items[index]);
      assert ok;  // there is a free slot, so the failure path of the loop is never taken
      index := index + 1;
    }
    r.isMutable := isMutable;
  }
}
