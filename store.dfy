/** store.c: the fixed table of `MAX_VECTS` named vectors.

    The first half states what the table means as functions over the
    sequence of slots; the class `Store` is the table the program changes in
    place, and each of its methods is proved to do what those functions say. */
module Store {
  import opened Wrappers
  import opened Vectors

  /** What `store_init` leaves in a slot. */
  function Empty<N>(zero: N): Vect<N>
  {
    Vect("", Triple(zero, zero, zero), false)
  }

  /** The whole table after `store_init`. */
  function EmptyTable<N>(zero: N): seq<Vect<N>>
  {
    seq(MAX_VECTS, _ => Empty(zero))
  }

  /** The slot condition `store_find` tests. */
  predicate Holds<N>(v: Vect<N>, name: string)
  {
    v.inUse && v.name == name
  }

  /** No two slots in use share a name. */
  ghost predicate Unique<N>(s: seq<Vect<N>>)
  {
    forall i, j :: 0 <= i < |s| && 0 <= j < |s| && s[i].inUse && s[j].inUse && s[i].name == s[j].name ==> i == j
  }

  /** The table's invariant: ten slots, unique names among the slots in use,
      and every free slot exactly as `store_init` left it (no operation ever
      frees one slot on its own). */
  ghost predicate Wf<N>(s: seq<Vect<N>>, zero: N)
  {
    && |s| == MAX_VECTS
    && Unique(s)
    && forall i :: 0 <= i < |s| && !s[i].inUse ==> s[i] == Empty(zero)
  }

  /** The scan of `store_find` from index `i` on. */
  function FindFrom<N>(s: seq<Vect<N>>, name: string, i: nat): (r: int)
    requires i <= |s|
    decreases |s| - i
    ensures r == -1 || i <= r < |s|
    ensures r >= 0 ==> Holds(s[r], name)
    ensures forall j :: i <= j < |s| && (r == -1 || j < r) ==> !Holds(s[j], name)
  {
    if i == |s| then -1
    else if Holds(s[i], name) then i
    else FindFrom(s, name, i + 1)
  }

  /** `store_find`: the lowest index of a slot in use under `name`, or -1. */
  function FindIndex<N>(s: seq<Vect<N>>, name: string): (r: int)
    ensures -1 <= r < |s|
    ensures r >= 0 ==> Holds(s[r], name) && forall j :: 0 <= j < r ==> !Holds(s[j], name)
    ensures r == -1 <==> forall j :: 0 <= j < |s| ==> !Holds(s[j], name)
  {
    FindFrom(s, name, 0)
  }

  /** The scan of `first_empty` from index `i` on. */
  function FreeFrom<N>(s: seq<Vect<N>>, i: nat): (r: int)
    requires i <= |s|
    decreases |s| - i
    ensures r == -1 || i <= r < |s|
    ensures r >= 0 ==> !s[r].inUse
    ensures forall j :: i <= j < |s| && (r == -1 || j < r) ==> s[j].inUse
  {
    if i == |s| then -1
    else if !s[i].inUse then i
    else FreeFrom(s, i + 1)
  }

  /** `first_empty`: the lowest index of a free slot, or -1. */
  function FirstFree<N>(s: seq<Vect<N>>): (r: int)
    ensures -1 <= r < |s|
    ensures r >= 0 ==> !s[r].inUse && forall j :: 0 <= j < r ==> s[j].inUse
    ensures r == -1 <==> forall j :: 0 <= j < |s| ==> s[j].inUse
  {
    FreeFrom(s, 0)
  }

  /** `store_add_or_replace`: the index written (or -1) and the new table. */
  function Insert<N>(s: seq<Vect<N>>, value: Vect<N>): (int, seq<Vect<N>>)
  {
    var idx := FindIndex(s, value.name);
    if idx >= 0 then (idx, s[idx := value.(inUse := true)])
    else
      var free := FirstFree(s);
      if free >= 0 then (free, s[free := value.(inUse := true)])
      else (-1, s)
  }

  /** `strncpy(value.name, name, VNAME_LEN - 1)` followed by the terminator:
      the first 15 characters of `name`. */
  function Truncate(name: string): (r: Name)
    ensures |r| == if |name| < VNAME_LEN then |name| else VNAME_LEN - 1
    ensures r == name[..|r|]
  {
    if |name| < VNAME_LEN then name else name[..VNAME_LEN - 1]
  }

  /** `store_set`: whether it succeeded, and the new table. */
  function Put<N>(s: seq<Vect<N>>, name: string, value: Vect<N>): (bool, seq<Vect<N>>)
  {
    var (idx, s') := Insert(s, value.(name := Truncate(name)));
    (idx >= 0, s')
  }

  /** `store_get`: a copy of the slot in use under `name`, if there is one. */
  function Lookup<N>(s: seq<Vect<N>>, name: string): Option<Vect<N>>
  {
    var idx := FindIndex(s, name);
    if idx >= 0 then Some(s[idx]) else None
  }

  /** The indices of the slots in use from index `i` on, in increasing order. */
  function OccupiedFrom<N>(s: seq<Vect<N>>, i: nat): (idx: seq<nat>)
    requires i <= |s|
    decreases |s| - i
    ensures forall k :: 0 <= k < |idx| ==> i <= idx[k] < |s| && s[idx[k]].inUse
    ensures forall k, l :: 0 <= k < l < |idx| ==> idx[k] < idx[l]
  {
    if i == |s| then []
    else if s[i].inUse then [i] + OccupiedFrom(s, i + 1)
    else OccupiedFrom(s, i + 1)
  }

  /** What `store_list` prints, one entry per slot in use, in slot order. */
  function Listing<N>(s: seq<Vect<N>>): seq<Vect<N>>
  {
    var idx := OccupiedFrom(s, 0);
    seq(|idx|, k requires 0 <= k < |idx| => s[idx[k]])
  }

  /** The number of slots in use (the `count` of `store_list`). */
  function InUseCount<N>(s: seq<Vect<N>>): nat
  {
    if s == [] then 0 else (if s[0].inUse then 1 else 0) + InUseCount(s[1..])
  }

  // ---------------------------------------------------------------------
  // Properties of the table operations

  /** After `store_init` (and so after `store_clear`) no slot is in use,
      every name is empty and every component is zero. */
  lemma EmptyTableIsClear<N>(zero: N)
    ensures Wf(EmptyTable(zero), zero)
    ensures forall i :: 0 <= i < MAX_VECTS ==>
      !EmptyTable(zero)[i].inUse && EmptyTable(zero)[i].name == "" &&
      EmptyTable(zero)[i].v == Triple(zero, zero, zero)
    ensures Listing(EmptyTable(zero)) == []
    ensures forall name :: Lookup(EmptyTable(zero), name) == None
  {
    ListingIsInUseSlots(EmptyTable(zero));
  }

  /** In a table with unique names, `Find` is the one slot in use under
      that name. */
  lemma FindIsTheSlot<N>(s: seq<Vect<N>>, name: string, i: nat)
    requires Unique(s) && i < |s| && Holds(s[i], name)
    ensures FindIndex(s, name) == i
  {
  }

  /** Where `store_add_or_replace` writes, and that it writes nothing else:
      - a name already in use is overwritten in its own slot, whether or
        not the table is full, so the slot keeps its position;
      - a new name goes into the lowest free slot;
      - it fails exactly when the name is new and no slot is free, and then
        the table is unchanged;
      - on success the written slot holds the value, marked in use, and every
        other slot is unchanged. */
  lemma InsertPlacement<N>(s: seq<Vect<N>>, value: Vect<N>)
    ensures var (idx, s') := Insert(s, value);
      && (forall i :: 0 <= i < |s| && Holds(s[i], value.name) && Unique(s) ==> idx == i)
      && (idx >= 0 && !s[idx].inUse ==>
            (forall j :: 0 <= j < |s| ==> !Holds(s[j], value.name)) &&
            (forall j :: 0 <= j < idx ==> s[j].inUse))
      && (idx >= 0 && (forall j :: 0 <= j < |s| ==> !Holds(s[j], value.name)) ==>
            idx == FirstFree(s) && !s[idx].inUse)
      && (idx == -1 <==>
            (forall j :: 0 <= j < |s| ==> !Holds(s[j], value.name)) &&
            (forall j :: 0 <= j < |s| ==> s[j].inUse))
      && (idx == -1 ==> s' == s)
      && (idx >= 0 ==>
            && idx < |s| && |s'| == |s| && s'[idx] == value.(inUse := true)
            && forall j :: 0 <= j < |s| && j != idx ==> s'[j] == s[j])
  {
  }

  /** `store_add_or_replace` keeps the table's invariant: in particular no
      two slots in use ever share a name. */
  lemma InsertPreservesWf<N>(s: seq<Vect<N>>, zero: N, value: Vect<N>)
    requires Wf(s, zero)
    ensures Wf(Insert(s, value).1, zero)
  {
    InsertPlacement(s, value);
  }

  /** After a successful insert the name is found in the slot written,
      holding the value; every other name is found where it was before. */
  lemma InsertThenFind<N>(s: seq<Vect<N>>, value: Vect<N>, other: string)
    requires Insert(s, value).0 >= 0
    ensures FindIndex(Insert(s, value).1, value.name) == Insert(s, value).0
    ensures Lookup(Insert(s, value).1, value.name) == Some(value.(inUse := true))
    ensures other != value.name ==> FindIndex(Insert(s, value).1, other) == FindIndex(s, other)
  {
    InsertFindsValue(s, value);
    if other != value.name {
      InsertKeepsOthers(s, value, other);
    }
  }

  /** The slot a successful insert writes is the first one holding the name. */
  lemma InsertFindsValue<N>(s: seq<Vect<N>>, value: Vect<N>)
    requires Insert(s, value).0 >= 0
    ensures FindIndex(Insert(s, value).1, value.name) == Insert(s, value).0
  {
    var (idx, s') := Insert(s, value);
    InsertPlacement(s, value);
    assert Holds(s'[idx], value.name);
    forall j | 0 <= j < idx ensures !Holds(s'[j], value.name) {
      assert s'[j] == s[j];
    }
  }

  /** A successful insert does not move any other name. */
  lemma InsertKeepsOthers<N>(s: seq<Vect<N>>, value: Vect<N>, other: string)
    requires Insert(s, value).0 >= 0 && other != value.name
    ensures FindIndex(Insert(s, value).1, other) == FindIndex(s, other)
  {
    var (idx, s') := Insert(s, value);
    InsertPlacement(s, value);
    var f := FindIndex(s, other);
    forall j | 0 <= j < |s| && (f == -1 || j < f)
      ensures !Holds(s'[j], other)
    {
      if j != idx { assert s'[j] == s[j]; }
    }
    if f >= 0 && f != idx {
      assert s'[f] == s[f];
    }
  }

  /** `store_set` only looks at the components of the value it is given:
      the name is replaced by the truncated argument and `in_use` is forced. */
  lemma SetUsesOnlyComponents<N>(s: seq<Vect<N>>, name: string, a: Vect<N>, b: Vect<N>)
    requires a.v == b.v
    ensures Put(s, name, a) == Put(s, name, b)
  {
    assert a.(name := Truncate(name)).(inUse := true) == b.(name := Truncate(name)).(inUse := true);
  }

  /** Round trip: for a name of at most 15 characters, a successful
      `store_set(name, v)` is followed by a `store_get(name)` that returns
      `v`'s components under that name, marked in use. Other names keep
      what they returned. */
  lemma SetThenLookup<N>(s: seq<Vect<N>>, name: string, value: Vect<N>, other: string)
    requires |name| < VNAME_LEN
    requires Put(s, name, value).0
    ensures Lookup(Put(s, name, value).1, name) == Some(Vect(name, value.v, true))
    ensures other != name ==> Lookup(Put(s, name, value).1, other) == Lookup(s, other)
  {
    var named := value.(name := Truncate(name));
    InsertThenFind(s, named, other);
    InsertPlacement(s, named);
    if other != name {
      var (idx, s') := Insert(s, named);
      var f := FindIndex(s, other);
      if f >= 0 {
        assert f != idx;
        assert s'[f] == s[f];
      }
    }
  }

  /** A name longer than 15 characters is filed under its 15-character
      prefix, and a later `store_get` with the full name does not find it. */
  lemma LongNameFiledUnderPrefix<N>(s: seq<Vect<N>>, name: string, value: Vect<N>)
    requires |name| >= VNAME_LEN
    requires Put(s, name, value).0
    ensures Lookup(Put(s, name, value).1, name[..VNAME_LEN - 1]) == Some(Vect(name[..VNAME_LEN - 1], value.v, true))
    ensures Lookup(Put(s, name, value).1, name) == None
  {
    InsertThenFind(s, value.(name := Truncate(name)), name);
  }

  /** `store_set` fails exactly when the truncated name is new and every
      slot is in use, and then the table is unchanged. */
  lemma SetFailsOnlyWhenFull<N>(s: seq<Vect<N>>, name: string, value: Vect<N>)
    ensures !Put(s, name, value).0 <==>
      (forall j :: 0 <= j < |s| ==> s[j].inUse && s[j].name != Truncate(name))
    ensures !Put(s, name, value).0 ==> Put(s, name, value).1 == s
  {
    InsertPlacement(s, value.(name := Truncate(name)));
  }

  /** The listing visits exactly the slots in use, in increasing index order,
      and it is empty exactly when no slot is in use. */
  lemma ListingIsInUseSlots<N>(s: seq<Vect<N>>)
    ensures |Listing(s)| == InUseCount(s)
    ensures forall k :: 0 <= k < |Listing(s)| ==> Listing(s)[k] == s[OccupiedFrom(s, 0)[k]]
    ensures forall i :: 0 <= i < |s| && s[i].inUse ==> s[i] in Listing(s)
    ensures forall e :: e in Listing(s) ==> e.inUse
    ensures Listing(s) == [] <==> forall i :: 0 <= i < |s| ==> !s[i].inUse
  {
    OccupiedCount(s, 0);
    forall i | 0 <= i < |s| && s[i].inUse ensures s[i] in Listing(s) {
      var idx := OccupiedFrom(s, 0);
      OccupiedComplete(s, 0, i);
      var k :| 0 <= k < |idx| && idx[k] == i;
      assert Listing(s)[k] == s[i];
    }
  }

  /** One step of the listing loop: slot `i` in use is the next index listed. */
  lemma ListStep<N>(s: seq<Vect<N>>, visited: seq<nat>, i: nat)
    requires i < |s| && s[i].inUse
    ensures visited + OccupiedFrom(s, i) == (visited + [i]) + OccupiedFrom(s, i + 1)
  {
    assert OccupiedFrom(s, i) == [i] + OccupiedFrom(s, i + 1);
  }

  /** The entries gathered at the indices `OccupiedFrom(s, 0)` are the listing. */
  lemma ListingOf<N>(s: seq<Vect<N>>, visited: seq<nat>, entries: seq<Vect<N>>)
    requires visited + OccupiedFrom(s, |s|) == OccupiedFrom(s, 0)
    requires |entries| == |visited|
    requires forall k :: 0 <= k < |visited| ==> visited[k] < |s| && entries[k] == s[visited[k]]
    ensures entries == Listing(s)
  {
    var idx := OccupiedFrom(s, 0);
    assert visited == visited + OccupiedFrom(s, |s|) == idx;
    var l := Listing(s);
    forall k | 0 <= k < |l| ensures l[k] == entries[k] {
      assert l[k] == s[idx[k]];
    }
  }

  /** The listing is empty exactly when no slot is in use. */
  lemma ListingEmptyIff<N>(s: seq<Vect<N>>)
    ensures Listing(s) == [] <==> forall i :: 0 <= i < |s| ==> !s[i].inUse
  {
    ListingIsInUseSlots(s);
  }

  /** `OccupiedFrom(s, i)` misses no slot in use from `i` on. */
  lemma {:induction false} OccupiedComplete<N>(s: seq<Vect<N>>, i: nat, j: nat)
    requires i <= j < |s| && s[j].inUse
    ensures j in OccupiedFrom(s, i)
    decreases |s| - i
  {
    if i < j {
      OccupiedComplete(s, i + 1, j);
    }
  }

  /** The number of slots in use from `i` on is the length of `OccupiedFrom`. */
  lemma {:induction false} OccupiedCount<N>(s: seq<Vect<N>>, i: nat)
    requires i <= |s|
    decreases |s| - i
    ensures |OccupiedFrom(s, i)| == InUseCount(s[i..])
  {
    if i < |s| {
      OccupiedCount(s, i + 1);
      assert s[i..][1..] == s[i + 1..];
    }
  }

  // ---------------------------------------------------------------------
  // The table the program changes in place (`static vect g_store[MAX_VECTS]`)

  class Store<N> {
    /** The value `store_init` writes into each component. */
    const zero: N
    const slots: array<Vect<N>>

    ghost predicate Valid()
      reads this, slots
    {
      slots.Length == MAX_VECTS && Wf(slots[..], zero)
    }

    /** The zero-initialised static table. */
    constructor (zero: N)
      ensures Valid() && fresh(slots) && this.zero == zero
      ensures slots[..] == EmptyTable(zero)
    {
      this.zero := zero;
      slots := new Vect<N>[MAX_VECTS](_ => Empty(zero));
      new;
      assert slots[..] == EmptyTable(zero);
      EmptyTableIsClear(zero);
    }

    /** `store_init`: every slot free, with an empty name and zero components. */
    method Init()
      requires slots.Length == MAX_VECTS
      modifies slots
      ensures Valid()
      ensures slots[..] == EmptyTable(zero)
    {
      for i := 0 to MAX_VECTS
        invariant forall j :: 0 <= j < i ==> slots[j] == Empty(zero)
      {
        slots[i] := slots[i].(inUse := false, name := "", v := Triple(zero, zero, zero));
      }
      assert slots[..] == EmptyTable(zero);
      EmptyTableIsClear(zero);
    }

    /** `store_clear`. */
    method Clear()
      requires slots.Length == MAX_VECTS
      modifies slots
      ensures Valid()
      ensures slots[..] == EmptyTable(zero)
    {
      Init();
    }

    /** `first_empty`. */
    method FirstEmpty() returns (idx: int)
      requires Valid()
      ensures idx == FirstFree(slots[..])
    {
      for i := 0 to MAX_VECTS
        invariant FreeFrom(slots[..], i) == FirstFree(slots[..])
      {
        if !slots[i].inUse {
          return i;
        }
      }
      return -1;
    }

    /** `store_find`. */
    method Find(name: string) returns (idx: int)
      requires Valid()
      ensures idx == FindIndex(slots[..], name)
    {
      for i := 0 to MAX_VECTS
        invariant FindFrom(slots[..], name, i) == FindIndex(slots[..], name)
      {
        if slots[i].inUse && slots[i].name == name {
          return i;
        }
      }
      return -1;
    }

    /** `store_add_or_replace`. */
    method AddOrReplace(value: Vect<N>) returns (idx: int)
      requires Valid()
      modifies slots
      ensures Valid()
      ensures (idx, slots[..]) == Insert(old(slots[..]), value)
    {
      ghost var s := slots[..];
      InsertPreservesWf(s, zero, value);
      idx := Find(value.name);
      if idx >= 0 {
        slots[idx] := value;
        slots[idx] := slots[idx].(inUse := true);
        assert slots[..] == s[idx := value.(inUse := true)];
        return;
      }
      idx := FirstEmpty();
      if idx < 0 {
        return;
      }
      slots[idx] := value;
      slots[idx] := slots[idx].(inUse := true);
      assert slots[..] == s[idx := value.(inUse := true)];
    }

    /** `store_get`: on success `out` is a copy of the slot; otherwise it is
        `prior`, the caller's variable left untouched. */
    method Get(name: string, prior: Vect<N>) returns (found: bool, out: Vect<N>)
      requires Valid()
      ensures found == Lookup(slots[..], name).Some?
      ensures found ==> out == Lookup(slots[..], name).value
      ensures !found ==> out == prior
    {
      var idx := Find(name);
      if idx < 0 {
        return false, prior;
      }
      return true, slots[idx];
    }

    /** `store_set`. */
    method Set(name: string, value: Vect<N>) returns (ok: bool)
      requires Valid()
      modifies slots
      ensures Valid()
      ensures (ok, slots[..]) == Put(old(slots[..]), name, value)
    {
      var named := value.(name := Truncate(name));
      var idx := AddOrReplace(named);
      ok := idx >= 0;
    }

    /** The enumeration of `store_list`: the slots in use, in slot order,
        and their count. */
    method List() returns (entries: seq<Vect<N>>, count: nat)
      requires Valid()
      ensures entries == Listing(slots[..])
      ensures count == |entries|
      ensures count == 0 <==> forall i :: 0 <= i < slots.Length ==> !slots[i].inUse
    {
      ghost var s := slots[..];
      ghost var visited: seq<nat> := [];
      entries, count := [], 0;
      for i := 0 to MAX_VECTS
        invariant visited + OccupiedFrom(s, i) == OccupiedFrom(s, 0)
        invariant count == |entries| == |visited|
        invariant forall k :: 0 <= k < |visited| ==> visited[k] < |s| && entries[k] == s[visited[k]]
      {
        assert slots[i] == s[i];
        if !slots[i].inUse {
          assert OccupiedFrom(s, i) == OccupiedFrom(s, i + 1);
          continue;
        }
        ListStep(s, visited, i);
        count := count + 1;
        entries := entries + [slots[i]];
        visited := visited + [i];
      }
      ListingOf(s, visited, entries);
      ListingEmptyIff(s);
    }
  }
}
