/**
 * Arrays as Json::Value stores them: a map from indices to values that may have holes. The
 * operations are specified for every such map; on arrays without holes each is the operation
 * on sequences it stands for. The one assertion in the source holds exactly when the last
 * index that is kept is present.
 */
module ArrayValues {
  // ---------------------------------------------------------------- size and contents

  /** The highest index plus one, or 0 for an empty map. */
  ghost predicate IsSize<T>(m: map<nat, T>, n: nat) {
    if m == map[] then n == 0
    else n > 0 && n - 1 in m && forall k | k in m :: k < n
  }

  lemma {:induction false} FindSize<T>(m: map<nat, T>) returns (n: nat)
    ensures IsSize(m, n)
    decreases |m|
  {
    if m == map[] {
      return 0;
    }
    var k :| k in m;
    var rest := m - {k};
    assert |rest| < |m| by {
      assert rest.Keys == m.Keys - {k};
    }
    n := FindSize(rest);
    if rest == map[] {
      assert m.Keys == {k} by {
        assert forall j | j in m.Keys :: j != k ==> j in rest;
      }
      n := k + 1;
    } else {
      assert forall j | j in m :: j == k || j in rest;
      if n <= k {
        n := k + 1;
      }
    }
  }

  lemma SizeExists<T>(m: map<nat, T>)
    ensures exists n: nat :: IsSize(m, n)
  {
    var n := FindSize(m);
  }

  ghost function SizeOf<T>(m: map<nat, T>): (n: nat)
    ensures IsSize(m, n)
  {
    SizeExists(m);
    var n: nat :| IsSize(m, n);
    n
  }

  ghost predicate Dense<T>(m: map<nat, T>) {
    forall k: nat | k < SizeOf(m) :: k in m
  }

  /** The sequence that a dense map stores. */
  ghost function Contents<T>(m: map<nat, T>): (s: seq<T>)
    requires Dense(m)
    ensures |s| == SizeOf(m)
  {
    seq(SizeOf(m), i requires 0 <= i < SizeOf(m) => m[i])
  }

  /** `m` has exactly the indices below |s|, with the elements of `s`. */
  ghost predicate Stores<T>(m: map<nat, T>, s: seq<T>) {
    && (forall k | k in m :: k < |s|)
    && (forall k: nat | k < |s| :: k in m && m[k] == s[k])
  }

  lemma StoresIsContents<T>(m: map<nat, T>, s: seq<T>)
    requires Stores(m, s)
    ensures Dense(m) && Contents(m) == s
  {
    if s == [] {
      assert m == map[];
    } else {
      assert |s| - 1 in m;
    }
    assert SizeOf(m) == |s|;
  }

  lemma SizeBounds<T>(m: map<nat, T>, n: nat)
    requires n == SizeOf(m)
    ensures forall k | k in m :: k < n
  {
  }

  lemma DenseStores<T>(m: map<nat, T>)
    requires Dense(m)
    ensures Stores(m, Contents(m))
  {
  }

  // ---------------------------------------------------------------- operations on maps with or without holes

  /** What indexing finds: the entry, or the empty one that it inserts. */
  function At<T>(m: map<nat, T>, k: nat, empty: T): T {
    if k in m then m[k] else empty
  }

  /** `m` with `value` inserted at `index`: the entries from there on move up, their holes filled. */
  function Inserted<T>(m: map<nat, T>, size: nat, index: nat, value: T, empty: T): map<nat, T> {
    map k: nat | k <= size && (k >= index || k in m) ::
      if k < index then m[k] else if k == index then value else At(m, k - 1, empty)
  }

  /** `m` without the entry at `index`: the entries above it move down, their holes filled. */
  function Removed<T>(m: map<nat, T>, size: nat, index: nat, empty: T): map<nat, T> {
    map k: nat | k + 1 < size && (k >= index || k in m) :: if k < index then m[k] else At(m, k + 1, empty)
  }

  /** Below `index` nothing changes. */
  ghost predicate SameBelow<T>(m: map<nat, T>, m': map<nat, T>, index: nat) {
    forall k: nat | k < index :: (k in m' <==> k in m) && (k in m ==> m'[k] == m[k])
  }

  /** `s` while insert is moving the entries of `m` up: those from `i` on are moved. */
  ghost predicate MovedUp<T>(m: map<nat, T>, s: map<nat, T>, i: nat, size: nat, empty: T) {
    && SameBelow(m, s, i)
    && (forall k: nat | i < k <= size :: k in s && s[k] == At(m, k - 1, empty))
    && (forall k | k in s :: k <= size)
  }

  lemma NothingMoved<T>(m: map<nat, T>, size: nat, empty: T)
    requires forall k | k in m :: k < size
    ensures MovedUp(m, m, size, size, empty)
  {
  }

  lemma MoveStep<T>(m: map<nat, T>, s: map<nat, T>, i: nat, size: nat, empty: T)
    requires MovedUp(m, s, i, size, empty) && 0 < i <= size
    ensures MovedUp(m, s[i := At(s, i - 1, empty)][i - 1 := At(s, i, empty)], i - 1, size, empty)
  {
  }

  lemma MovedIsInserted<T>(m: map<nat, T>, s: map<nat, T>, index: nat, size: nat, value: T, empty: T)
    requires MovedUp(m, s, index, size, empty) && index <= size
    ensures s[index := value] == Inserted(m, size, index, value, empty)
    ensures s[index := empty][index := value] == s[index := value]
  {
    var a, b := s[index := value], Inserted(m, size, index, value, empty);
    assert a.Keys == b.Keys;
  }

  /** `s` while removeIndex is copying the entries of `m` down: those below `i` are copied. */
  ghost predicate MovedDown<T>(m: map<nat, T>, s: map<nat, T>, index: nat, i: nat, empty: T) {
    && SameBelow(m, s, index) && i in s
    && (forall k: nat | index <= k < i :: k in s && s[k] == At(m, k + 1, empty))
    && (forall k: nat | i < k :: (k in s <==> k in m) && (k in m ==> s[k] == m[k]))
  }

  lemma NothingCopied<T>(m: map<nat, T>, index: nat, empty: T)
    requires index in m
    ensures MovedDown(m, m, index, index, empty)
  {
  }

  lemma CopyStep<T>(m: map<nat, T>, s: map<nat, T>, index: nat, i: nat, empty: T)
    requires MovedDown(m, s, index, i, empty) && index <= i
    ensures var touched := if i + 1 in s then s else s[i + 1 := empty];
            MovedDown(m, touched[i := touched[i + 1]], index, i + 1, empty)
  {
  }

  lemma MovedIsRemoved<T>(m: map<nat, T>, s: map<nat, T>, index: nat, size: nat, empty: T)
    requires index < size && MovedDown(m, s, index, size - 1, empty) && forall k | k in m :: k < size
    ensures s - {size - 1} == Removed(m, size, index, empty)
  {
    var a, b := s - {size - 1}, Removed(m, size, index, empty);
    assert a.Keys == b.Keys;
  }

  // ---------------------------------------------------------------- the value

  class ArrayValue<T> {
    /** What an entry holds before anything is assigned to it. */
    const empty: T
    /** The type is nullValue; otherwise it is arrayValue. */
    var isNull: bool
    var slots: map<nat, T>

    constructor (empty: T)
      ensures this.empty == empty && isNull && slots == map[]
    {
      this.empty := empty;
      isNull := true;
      slots := map[];
    }

    ghost predicate Valid()
      reads this
    {
      isNull ==> slots == map[]
    }

    /** size(): the last key plus one. */
    method Size() returns (n: nat)
      ensures n == SizeOf(slots)
    {
      n := 0;
      var keys := slots.Keys;
      while keys != {}
        invariant keys <= slots.Keys
        invariant forall k | k in slots && k !in keys :: k < n
        invariant n > 0 ==> n - 1 in slots
        decreases |keys|
      {
        var k :| k in keys;
        if k >= n {
          n := k + 1;
        }
        keys := keys - {k};
      }
    }

    /** operator[](index): inserts an empty entry if there is none; indexing past the end leaves a hole. */
    method Touch(index: nat)
      requires Valid()
      modifies this
      ensures slots == if index in old(slots) then old(slots) else old(slots)[index := empty]
      ensures !isNull && Valid()
    {
      if isNull {
        isNull := false;
        slots := map[];
      }
      if index !in slots {
        slots := slots[index := empty];
      }
    }

    method Append(value: T)
      requires Valid()
      modifies this
      ensures Valid() && !isNull && slots == old(slots)[SizeOf(old(slots)) := value]
    {
      isNull := false;
      var n := Size();
      slots := slots[n := value];
    }

    /** Move-assignment of entry `j` to entry `i` swaps them; indexing inserts what is missing. */
    method MoveTo(i: nat, j: nat)
      requires Valid() && i != j
      modifies this
      ensures Valid() && !isNull
      ensures slots == old(slots)[i := At(old(slots), j, empty)][j := At(old(slots), i, empty)]
    {
      Touch(j);
      Touch(i);
      slots := slots[i := slots[j]][j := slots[i]];
    }

    /** insert: moves the entries above `index` upwards one by one. */
    method Insert(index: nat, newValue: T) returns (ok: bool)
      requires Valid()
      modifies this
      ensures Valid() && ok == (index <= SizeOf(old(slots)))
      ensures slots == if ok then Inserted(old(slots), SizeOf(old(slots)), index, newValue, empty) else old(slots)
    {
      hide IsSize, MovedUp, Inserted;
      ghost var m := slots;
      var length := Size();
      SizeBounds(m, length);
      NothingMoved(m, length, empty);
      if index > length {
        return false;
      }
      var i := length;
      while i > index
        invariant index <= i <= length && Valid()
        invariant MovedUp(m, slots, i, length, empty)
      {
        MoveStep(m, slots, i, length, empty);
        MoveTo(i, i - 1);
        i := i - 1;
      }
      MovedIsInserted(m, slots, index, length, newValue, empty);
      Touch(index);
      slots := slots[index := newValue];
      ok := true;
    }

    /** removeIndex: copies the entries above `index` down and erases the last. */
    method RemoveIndex(index: nat) returns (ok: bool, removed: T)
      requires Valid()
      modifies this
      ensures Valid() && ok == (index in old(slots))
      ensures slots == if ok then Removed(old(slots), SizeOf(old(slots)), index, empty) else old(slots)
      ensures ok ==> removed == old(slots)[index]
    {
      hide IsSize, MovedDown, Removed;
      ghost var m := slots;
      removed := empty;
      if isNull || index !in slots {
        return false, removed;
      }
      removed := slots[index];
      var oldSize := Size();
      SizeBounds(m, oldSize);
      NothingCopied(m, index, empty);
      var i := index;
      while i < oldSize - 1
        invariant index <= i <= oldSize - 1 && Valid() && !isNull
        invariant MovedDown(m, slots, index, i, empty)
      {
        CopyStep(m, slots, index, i, empty);
        Touch(i + 1);
        slots := slots[i := slots[i + 1]];
        i := i + 1;
      }
      MovedIsRemoved(m, slots, index, oldSize, empty);
      slots := slots - {oldSize - 1};
      ok := true;
    }

    /**
     * resize on any array, with holes or without; `held` says whether the assertion at its end
     * held. Growing fills with empty entries, shrinking erases.
     */
    method Resize(newSize: nat) returns (held: bool)
      requires Valid()
      modifies this
      ensures Valid()
      ensures held <==> newSize == 0 || newSize > SizeOf(old(slots)) || newSize - 1 in old(slots)
      ensures forall k: nat :: k in slots <==> (k in old(slots) && k < newSize) || SizeOf(old(slots)) <= k < newSize
      ensures forall k | k in slots :: slots[k] == if k in old(slots) then old(slots)[k] else empty
    {
      if isNull {
        isNull := false;
      }
      var oldSize := Size();
      ghost var m := slots;
      held := true;
      if newSize == 0 {
        slots := map[];
      } else if newSize > oldSize {
        var i := oldSize;
        while i < newSize
          invariant oldSize <= i <= newSize && !isNull
          invariant forall k: nat :: k in slots <==> k in m || oldSize <= k < i
          invariant forall k | k in slots :: slots[k] == if k in m then m[k] else empty
        {
          Touch(i);
          i := i + 1;
        }
      } else {
        var index := newSize;
        while index < oldSize
          invariant newSize <= index <= oldSize && !isNull
          invariant forall k: nat :: k in slots <==> k in m && (k < newSize || index <= k)
          invariant forall k | k in slots :: slots[k] == m[k]
        {
          slots := slots - {index};
          index := index + 1;
        }
        var n := Size();
        held := n == newSize;
      }
    }

    /** How readArray fills an array: operator[] with indices counted up from zero. */
    method Fill(values: seq<T>)
      requires Valid() && slots == map[]
      modifies this
      ensures Valid() && Dense(slots) && Contents(slots) == values
    {
      isNull := false;
      var index := 0;
      while index < |values|
        invariant 0 <= index <= |values| && Valid()
        invariant Stores(slots, values[..index])
      {
        Touch(index);
        slots := slots[index := values[index]];
        index := index + 1;
      }
      assert values[..|values|] == values;
      StoresIsContents(slots, values);
    }
  }

  // ---------------------------------------------------------------- arrays without holes are sequences

  /** What append, insert and removeIndex do to the sequence that an array without holes stores. */
  lemma AppendIsSequenceAppend<T>(m: map<nat, T>, value: T)
    requires Dense(m)
    ensures var m' := m[SizeOf(m) := value]; Dense(m') && Contents(m') == Contents(m) + [value]
  {
    DenseStores(m);
    StoresIsContents(m[SizeOf(m) := value], Contents(m) + [value]);
  }

  lemma InsertedAt<T>(m: map<nat, T>, size: nat, index: nat, value: T, empty: T, k: nat)
    requires k <= size && (k >= index || k in m)
    ensures k in Inserted(m, size, index, value, empty)
    ensures Inserted(m, size, index, value, empty)[k] ==
            if k < index then m[k] else if k == index then value else At(m, k - 1, empty)
  {
  }

  lemma RemovedAt<T>(m: map<nat, T>, size: nat, index: nat, empty: T, k: nat)
    requires k + 1 < size && (k >= index || k in m)
    ensures k in Removed(m, size, index, empty)
    ensures Removed(m, size, index, empty)[k] == if k < index then m[k] else At(m, k + 1, empty)
  {
  }

  lemma InsertedStores<T>(m: map<nat, T>, s: seq<T>, index: nat, value: T, empty: T)
    requires Stores(m, s) && index <= |s|
    ensures Stores(Inserted(m, |s|, index, value, empty), s[..index] + [value] + s[index..])
  {
    var m', r := Inserted(m, |s|, index, value, empty), s[..index] + [value] + s[index..];
    forall k: nat | k < |r| ensures k in m' && m'[k] == r[k] {
      if k > index {
        var j := k - 1;
        assert j in m && r[k] == s[j] == m[j];
      } else if k < index {
        assert k in m && r[k] == s[k] == m[k];
      }
      InsertedAt(m, |s|, index, value, empty, k);
    }
  }

  lemma RemovedStores<T>(m: map<nat, T>, s: seq<T>, index: nat, empty: T)
    requires Stores(m, s) && index < |s|
    ensures Stores(Removed(m, |s|, index, empty), s[..index] + s[index + 1..])
  {
    var m', r := Removed(m, |s|, index, empty), s[..index] + s[index + 1..];
    forall k: nat | k < |r| ensures k in m' && m'[k] == r[k] {
      if k >= index {
        var j := k + 1;
        assert j in m && r[k] == s[j] == m[j];
      } else {
        assert k in m && r[k] == s[k] == m[k];
      }
      RemovedAt(m, |s|, index, empty, k);
    }
  }

  lemma InsertIsSequenceInsert<T>(m: map<nat, T>, index: nat, value: T, empty: T)
    requires Dense(m) && index <= SizeOf(m)
    ensures var m' := Inserted(m, SizeOf(m), index, value, empty);
            Dense(m') && Contents(m') == Contents(m)[..index] + [value] + Contents(m)[index..]
  {
    hide Dense, Contents, IsSize;
    DenseStores(m);
    InsertedStores(m, Contents(m), index, value, empty);
    var s := Contents(m);
    StoresIsContents(Inserted(m, |s|, index, value, empty), s[..index] + [value] + s[index..]);
  }

  lemma RemoveIsSequenceRemove<T>(m: map<nat, T>, index: nat, empty: T)
    requires Dense(m) && index in m
    ensures var m' := Removed(m, SizeOf(m), index, empty);
            index < |Contents(m)| && Dense(m') && Contents(m') == Contents(m)[..index] + Contents(m)[index + 1..]
  {
    hide Dense, Contents, IsSize;
    DenseStores(m);
    RemovedStores(m, Contents(m), index, empty);
    var s := Contents(m);
    StoresIsContents(Removed(m, |s|, index, empty), s[..index] + s[index + 1..]);
  }

  function Repeat<T>(x: T, n: nat): (s: seq<T>)
    ensures |s| == n && forall i | 0 <= i < n :: s[i] == x
  {
    seq(n, _ => x)
  }

  /** What the contract of Resize means for an array without holes. */
  lemma ResizeIsSequenceResize<T>(m: map<nat, T>, m': map<nat, T>, newSize: nat, empty: T)
    requires Dense(m)
    requires forall k: nat :: k in m' <==> (k in m && k < newSize) || SizeOf(m) <= k < newSize
    requires forall k | k in m' :: m'[k] == if k in m then m[k] else empty
    ensures Dense(m')
    ensures Contents(m') == if newSize <= |Contents(m)| then Contents(m)[..newSize]
                            else Contents(m) + Repeat(empty, newSize - |Contents(m)|)
    ensures newSize == 0 || newSize > SizeOf(m) || newSize - 1 in m
  {
    DenseStores(m);
    var s := Contents(m);
    var r := if newSize <= |s| then s[..newSize] else s + Repeat(empty, newSize - |s|);
    StoresIsContents(m', r);
  }

  /** The assertion fails on an array with a hole: indices 0 and 5, shrunk to 3. */
  method ResizeCanFail<T>(empty: T) returns (held: bool)
    ensures !held
  {
    var a := new ArrayValue<T>(empty);
    a.Touch(0);
    a.Touch(5);
    assert 5 in a.slots && 2 !in a.slots;
    held := a.Resize(3);
  }
}
