/**
 * Value::operator<, operator== and compare. Containers of equal size are compared as the
 * library compares std::map: entry by entry, asking `<` both ways.
 */
module ValueOrder {
  import opened Bytes
  import opened Values

  /** Comparison of doubles, which is left to the hardware. */
  datatype Doubles = Doubles(less: (nat, nat) -> bool, equal: (nat, nat) -> bool)

  function TypeRank(v: Value): nat {
    match v
    case Leaf(Null) => 0
    case Leaf(Int(_)) => 1
    case Leaf(UInt(_)) => 2
    case Leaf(Real(_)) => 3
    case Leaf(Str(_)) => 4
    case Leaf(Bool(_)) => 5
    case Arr(_) => 6
    case Obj(_) => 7
  }

  predicate ScalarLess(f: Doubles, a: Scalar, b: Scalar) {
    match (a, b)
    case (Int(i), Int(j)) => i < j
    case (UInt(i), UInt(j)) => i < j
    case (Real(i), Real(j)) => f.less(i, j)
    case (Str(s), Str(t)) => KeyLess(s, t)
    case (Bool(p), Bool(q)) => !p && q
    case _ => false
  }

  predicate ScalarEqual(f: Doubles, a: Scalar, b: Scalar) {
    match (a, b)
    case (Null, Null) => true
    case (Int(i), Int(j)) => i == j
    case (UInt(i), UInt(j)) => i == j
    case (Real(i), Real(j)) => f.equal(i, j)
    case (Str(s), Str(t)) => KeyEqual(s, t)
    case (Bool(p), Bool(q)) => p == q
    case _ => false
  }

  lemma {:induction false} ElementDepth(es: seq<Value>, i: nat, k: nat)
    requires k <= i < |es|
    ensures Depth(es[i]) <= ElementsDepth(es, k)
    decreases i - k
  {
    hide Depth;
    if k < i {
      ElementDepth(es, i, k + 1);
    }
  }

  lemma {:induction false} MemberDepth(ms: seq<Entry<Value>>, i: nat, k: nat)
    requires k <= i < |ms|
    ensures Depth(ms[i].val) <= MembersDepth(ms, k)
    decreases i - k
  {
    hide Depth;
    if k < i {
      MemberDepth(ms, i, k + 1);
    }
  }

  /** Value::operator<. */
  predicate Less(f: Doubles, a: Value, b: Value)
    decreases Depth(a) + Depth(b), 0
  {
    if TypeRank(a) != TypeRank(b) then TypeRank(a) < TypeRank(b)
    else
      match a
      case Leaf(s) => ScalarLess(f, s, b.scalar)
      case Arr(es) => if |es| != |b.elems| then |es| < |b.elems| else LessElements(f, es, b.elems, 0)
      case Obj(ms) => if |ms| != |b.members| then |ms| < |b.members| else LessMembers(f, ms, b.members, 0)
  }

  predicate LessElements(f: Doubles, a: seq<Value>, b: seq<Value>, i: nat)
    requires |a| == |b| && i <= |a|
    decreases ElementsDepth(a, 0) + ElementsDepth(b, 0), |a| - i + 1
  {
    if i == |a| then false
    else
      ElementDepth(a, i, 0);
      ElementDepth(b, i, 0);
      Less(f, a[i], b[i]) || (!Less(f, b[i], a[i]) && LessElements(f, a, b, i + 1))
  }

  /** The order of std::pair on two entries. */
  predicate EntryLess(f: Doubles, x: Entry<Value>, y: Entry<Value>)
    decreases Depth(x.val) + Depth(y.val), 1
  {
    KeyLess(x.key, y.key) || (!KeyLess(y.key, x.key) && Less(f, x.val, y.val))
  }

  predicate LessMembers(f: Doubles, a: seq<Entry<Value>>, b: seq<Entry<Value>>, i: nat)
    requires |a| == |b| && i <= |a|
    decreases MembersDepth(a, 0) + MembersDepth(b, 0), |a| - i + 2
  {
    if i == |a| then false
    else
      MemberDepth(a, i, 0);
      MemberDepth(b, i, 0);
      EntryLess(f, a[i], b[i]) || (!EntryLess(f, b[i], a[i]) && LessMembers(f, a, b, i + 1))
  }

  /** Value::operator==. */
  predicate Equal(f: Doubles, a: Value, b: Value)
    decreases a
  {
    TypeRank(a) == TypeRank(b) &&
    match a
    case Leaf(s) => ScalarEqual(f, s, b.scalar)
    case Arr(es) => |es| == |b.elems| && forall i | 0 <= i < |es| :: Equal(f, es[i], b.elems[i])
    case Obj(ms) =>
      |ms| == |b.members| &&
      forall i | 0 <= i < |ms| :: KeyEqual(ms[i].key, b.members[i].key) && Equal(f, ms[i].val, b.members[i].val)
  }

  function Compare(f: Doubles, a: Value, b: Value): int {
    if Less(f, a, b) then -1 else if Less(f, b, a) then 1 else 0
  }

  ghost predicate RealFree(v: Value) {
    match v
    case Leaf(s) => !s.Real?
    case Arr(es) => forall e | e in es :: RealFree(e)
    case Obj(ms) => forall m | m in ms :: RealFree(m.val)
  }

  // ---------------------------------------------------------------- equality

  /** On trees without doubles, operator== is equality. */
  lemma {:induction false} EqualIsEquality(f: Doubles, a: Value, b: Value)
    requires RealFree(a) && RealFree(b)
    ensures Equal(f, a, b) <==> a == b
    decreases a
  {
    if TypeRank(a) == TypeRank(b) {
      match a
      case Leaf(s) =>
        if s.Str? {
          KeyEqualIsEquality(s.s, b.scalar.s);
        }
      case Arr(es) =>
        if |es| == |b.elems| {
          forall i | 0 <= i < |es| ensures Equal(f, es[i], b.elems[i]) <==> es[i] == b.elems[i] {
            EqualIsEquality(f, es[i], b.elems[i]);
          }
        }
      case Obj(ms) =>
        if |ms| == |b.members| {
          forall i | 0 <= i < |ms|
            ensures ms[i] == b.members[i] <==>
                    KeyEqual(ms[i].key, b.members[i].key) && Equal(f, ms[i].val, b.members[i].val)
          {
            KeyEqualIsEquality(ms[i].key, b.members[i].key);
            assert ms[i] in ms && b.members[i] in b.members;
            EqualIsEquality(f, ms[i].val, b.members[i].val);
          }
        }
    }
  }

  // ---------------------------------------------------------------- exactly one of <, ==, >

  /** Exactly one of three. */
  predicate One(p: bool, q: bool, r: bool) {
    (p || q || r) && !(p && q) && !(p && r) && !(q && r)
  }

  lemma ScalarTrichotomy(f: Doubles, a: Scalar, b: Scalar)
    requires !a.Real? && !b.Real? && TypeRank(Leaf(a)) == TypeRank(Leaf(b))
    ensures One(ScalarLess(f, a, b), a == b, ScalarLess(f, b, a))
  {
    if a.Str? {
      KeyTrichotomy(a.s, b.s);
      KeyIrreflexive(a.s);
    }
  }

  lemma {:induction false} Trichotomy(f: Doubles, a: Value, b: Value)
    requires RealFree(a) && RealFree(b)
    ensures One(Less(f, a, b), a == b, Less(f, b, a))
    decreases Depth(a) + Depth(b), 0
  {
    hide LessElements, LessMembers, ScalarLess;
    if TypeRank(a) == TypeRank(b) {
      match a
      case Leaf(s) => ScalarTrichotomy(f, s, b.scalar);
      case Arr(es) =>
        if |es| == |b.elems| {
          ElementsTrichotomy(f, es, b.elems, 0);
        }
      case Obj(ms) =>
        if |ms| == |b.members| {
          MembersTrichotomy(f, ms, b.members, 0);
        }
    }
  }

  lemma {:induction false} ElementsTrichotomy(f: Doubles, a: seq<Value>, b: seq<Value>, i: nat)
    requires |a| == |b| && i <= |a| && (forall e | e in a :: RealFree(e)) && (forall e | e in b :: RealFree(e))
    ensures One(LessElements(f, a, b, i), a[i..] == b[i..], LessElements(f, b, a, i))
    decreases ElementsDepth(a, 0) + ElementsDepth(b, 0), |a| - i + 1
  {
    hide Less, RealFree, Depth;
    if i < |a| {
      ElementDepth(a, i, 0);
      ElementDepth(b, i, 0);
      Trichotomy(f, a[i], b[i]);
      ElementsTrichotomy(f, a, b, i + 1);
      SameTail(a, b, i);
    }
  }

  lemma EntryTrichotomy(f: Doubles, x: Entry<Value>, y: Entry<Value>)
    requires One(Less(f, x.val, y.val), x.val == y.val, Less(f, y.val, x.val))
    ensures One(EntryLess(f, x, y), x == y, EntryLess(f, y, x))
  {
    hide Less, KeyLess;
    KeyTrichotomy(x.key, y.key);
    KeyIrreflexive(x.key);
  }

  lemma {:induction false} MembersTrichotomy(f: Doubles, a: seq<Entry<Value>>, b: seq<Entry<Value>>, i: nat)
    requires |a| == |b| && i <= |a| && (forall m | m in a :: RealFree(m.val)) && (forall m | m in b :: RealFree(m.val))
    ensures One(LessMembers(f, a, b, i), a[i..] == b[i..], LessMembers(f, b, a, i))
    decreases MembersDepth(a, 0) + MembersDepth(b, 0), |a| - i + 1
  {
    hide Less, RealFree, Depth, EntryLess;
    if i < |a| {
      MemberDepth(a, i, 0);
      MemberDepth(b, i, 0);
      assert a[i] in a && b[i] in b;
      Trichotomy(f, a[i].val, b[i].val);
      EntryTrichotomy(f, a[i], b[i]);
      MembersTrichotomy(f, a, b, i + 1);
      SameTail(a, b, i);
    }
  }

  lemma SameTail<T>(a: seq<T>, b: seq<T>, i: nat)
    requires |a| == |b| && i < |a|
    ensures a[i..] == b[i..] <==> a[i] == b[i] && a[i + 1..] == b[i + 1..]
  {
    assert a[i..] == [a[i]] + a[i + 1..] && b[i..] == [b[i]] + b[i + 1..];
  }

  // ---------------------------------------------------------------- transitivity

  lemma ScalarTransitive(f: Doubles, a: Scalar, b: Scalar, c: Scalar)
    requires !a.Real? && !b.Real? && !c.Real?
    requires ScalarLess(f, a, b) && ScalarLess(f, b, c)
    ensures ScalarLess(f, a, c)
  {
    if a.Str? {
      KeyTransitive(a.s, b.s, c.s);
    }
  }

  lemma {:induction false} Transitivity(f: Doubles, a: Value, b: Value, c: Value)
    requires RealFree(a) && RealFree(b) && RealFree(c)
    requires Less(f, a, b) && Less(f, b, c)
    ensures Less(f, a, c)
    decreases Depth(a) + Depth(b) + Depth(c), 0
  {
    hide LessElements, LessMembers, ScalarLess;
    if TypeRank(a) == TypeRank(b) == TypeRank(c) {
      match a
      case Leaf(s) => ScalarTransitive(f, s, b.scalar, c.scalar);
      case Arr(es) =>
        if |es| == |b.elems| == |c.elems| {
          ElementsTransitive(f, es, b.elems, c.elems, 0);
        }
      case Obj(ms) =>
        if |ms| == |b.members| == |c.members| {
          MembersTransitive(f, ms, b.members, c.members, 0);
        }
    }
  }

  lemma {:induction false} ElementsTransitive(f: Doubles, a: seq<Value>, b: seq<Value>, c: seq<Value>, i: nat)
    requires |a| == |b| == |c| && i <= |a|
    requires (forall e | e in a :: RealFree(e)) && (forall e | e in b :: RealFree(e))
    requires forall e | e in c :: RealFree(e)
    requires LessElements(f, a, b, i) && LessElements(f, b, c, i)
    ensures LessElements(f, a, c, i)
    decreases ElementsDepth(a, 0) + ElementsDepth(b, 0) + ElementsDepth(c, 0), |a| - i + 1
  {
    hide Less, RealFree, Depth;
    ElementDepth(a, i, 0);
    ElementDepth(b, i, 0);
    ElementDepth(c, i, 0);
    Trichotomy(f, a[i], b[i]);
    Trichotomy(f, b[i], c[i]);
    Trichotomy(f, a[i], c[i]);
    if Less(f, a[i], b[i]) && Less(f, b[i], c[i]) {
      Transitivity(f, a[i], b[i], c[i]);
    } else if a[i] == b[i] == c[i] {
      ElementsTransitive(f, a, b, c, i + 1);
    }
  }

  lemma EntryTransitive(f: Doubles, x: Entry<Value>, y: Entry<Value>, z: Entry<Value>)
    requires EntryLess(f, x, y) && EntryLess(f, y, z)
    requires Less(f, x.val, y.val) && Less(f, y.val, z.val) ==> Less(f, x.val, z.val)
    ensures EntryLess(f, x, z)
  {
    hide Less, KeyLess;
    KeyTrichotomy(x.key, y.key);
    KeyTrichotomy(y.key, z.key);
    KeyTrichotomy(x.key, z.key);
    if KeyLess(x.key, y.key) && KeyLess(y.key, z.key) {
      KeyTransitive(x.key, y.key, z.key);
    }
  }

  lemma {:induction false} MembersTransitive(f: Doubles, a: seq<Entry<Value>>, b: seq<Entry<Value>>,
                                             c: seq<Entry<Value>>, i: nat)
    requires |a| == |b| == |c| && i <= |a|
    requires (forall m | m in a :: RealFree(m.val)) && (forall m | m in b :: RealFree(m.val))
        && (forall m | m in c :: RealFree(m.val))
    requires LessMembers(f, a, b, i) && LessMembers(f, b, c, i)
    ensures LessMembers(f, a, c, i)
    decreases MembersDepth(a, 0) + MembersDepth(b, 0) + MembersDepth(c, 0), |a| - i + 1
  {
    hide Less, RealFree, Depth, EntryLess;
    MemberDepth(a, i, 0);
    MemberDepth(b, i, 0);
    MemberDepth(c, i, 0);
    assert a[i] in a && b[i] in b && c[i] in c;
    Trichotomy(f, a[i].val, b[i].val);
    Trichotomy(f, b[i].val, c[i].val);
    Trichotomy(f, a[i].val, c[i].val);
    EntryTrichotomy(f, a[i], b[i]);
    EntryTrichotomy(f, b[i], c[i]);
    EntryTrichotomy(f, a[i], c[i]);
    if EntryLess(f, a[i], b[i]) && EntryLess(f, b[i], c[i]) {
      if Less(f, a[i].val, b[i].val) && Less(f, b[i].val, c[i].val) {
        Transitivity(f, a[i].val, b[i].val, c[i].val);
      }
      EntryTransitive(f, a[i], b[i], c[i]);
    } else if a[i] == b[i] == c[i] {
      MembersTransitive(f, a, b, c, i + 1);
    }
  }

  /**
   * On trees without doubles operator< is a strict total order that agrees with operator==,
   * and compare returns 0 exactly on equal values.
   */
  lemma StrictTotalOrder(f: Doubles, a: Value, b: Value, c: Value)
    requires RealFree(a) && RealFree(b) && RealFree(c)
    ensures !Less(f, a, a)
    ensures One(Less(f, a, b), Equal(f, a, b), Less(f, b, a))
    ensures Less(f, a, b) && Less(f, b, c) ==> Less(f, a, c)
    ensures Compare(f, a, b) == 0 <==> Equal(f, a, b)
    ensures Compare(f, a, b) == -Compare(f, b, a)
  {
    hide Less, Equal, RealFree;
    Trichotomy(f, a, a);
    Trichotomy(f, a, b);
    EqualIsEquality(f, a, b);
    if Less(f, a, b) && Less(f, b, c) {
      Transitivity(f, a, b, c);
    }
  }

  // ---------------------------------------------------------------- what the order is

  /** The types in ascending order, whatever the values. */
  lemma TypesAreOrdered(f: Doubles, a: Value, b: Value)
    requires TypeRank(a) != TypeRank(b)
    ensures a == Leaf(Null) ==> Less(f, a, b)
    ensures a.Leaf? && a.scalar.Int? && b != Leaf(Null) ==> Less(f, a, b)
    ensures a.Leaf? && a.scalar.UInt? && (b.Leaf? ==> !b.scalar.Null? && !b.scalar.Int?) ==> Less(f, a, b)
    ensures a.Leaf? && a.scalar.Real? && (b.Leaf? ==> b.scalar.Str? || b.scalar.Bool?) ==> Less(f, a, b)
    ensures a.Leaf? && a.scalar.Str? && (b.Leaf? ==> b.scalar.Bool?) ==> Less(f, a, b)
    ensures a.Leaf? && !b.Leaf? ==> Less(f, a, b)
    ensures a.Arr? && b.Obj? ==> Less(f, a, b)
    ensures Less(f, a, b) != Less(f, b, a)
  {
  }

  /** Within a type: numbers by value, false before true, strings by their bytes. */
  lemma ScalarsAreOrdered(f: Doubles, i: int, j: int, u: nat, w: nat, p: bool, q: bool, s: Bytes, t: Bytes)
    ensures Less(f, Leaf(Int(i)), Leaf(Int(j))) <==> i < j
    ensures Less(f, Leaf(UInt(u)), Leaf(UInt(w))) <==> u < w
    ensures Less(f, Leaf(Bool(p)), Leaf(Bool(q))) <==> !p && q
    ensures Less(f, Leaf(Str(s)), Leaf(Str(t))) <==>
            (s != t && s <= t) || exists k :: BytesDiffer(s, t, k) && s[k] < t[k]
  {
    hide KeyLess;
    KeyLessIs(s, t);
  }

  /** `a` and `b` agree before `k` and differ there. */
  predicate BytesDiffer(a: Bytes, b: Bytes, k: int) {
    0 <= k < |a| && k < |b| && (forall j | 0 <= j < k :: a[j] == b[j]) && a[k] != b[k]
  }

  /** Bytes compare at the first difference; a proper prefix comes first. */
  lemma {:induction false} KeyLessIs(a: Bytes, b: Bytes)
    ensures KeyLess(a, b) <==> (a != b && a <= b) || exists k :: BytesDiffer(a, b, k) && a[k] < b[k]
    decreases |a|
  {
    if a != [] && b != [] {
      KeyLessStep(a, b);
      if a[0] == b[0] {
        KeyLessIs(a[1..], b[1..]);
        SameFirst(a, b);
      } else {
        assert BytesDiffer(a, b, 0);
      }
    }
  }

  lemma SameFirst(a: Bytes, b: Bytes)
    requires a != [] && b != [] && a[0] == b[0]
    ensures a <= b <==> a[1..] <= b[1..]
    ensures a == b <==> a[1..] == b[1..]
    ensures (exists k :: BytesDiffer(a, b, k) && a[k] < b[k]) <==>
            exists k :: BytesDiffer(a[1..], b[1..], k) && a[1..][k] < b[1..][k]
  {
    assert a == [a[0]] + a[1..] && b == [b[0]] + b[1..];
    forall k | BytesDiffer(a, b, k) && a[k] < b[k] ensures BytesDiffer(a[1..], b[1..], k - 1) {
    }
    forall k | BytesDiffer(a[1..], b[1..], k) ensures BytesDiffer(a, b, k + 1) {
    }
  }

  /** Arrays of equal size agree before `k` and are ordered by the element there. */
  predicate ElementsDiffer(f: Doubles, a: seq<Value>, b: seq<Value>, i: nat, k: int) {
    i <= k < |a| && |a| == |b| && (forall j | i <= j < k :: a[j] == b[j]) && Less(f, a[k], b[k])
  }

  lemma SkipEqual(f: Doubles, a: seq<Value>, b: seq<Value>, i: nat, next: nat)
    requires |a| == |b| && i < |a| && next == i + 1 && a[i] == b[i] && !Less(f, a[i], b[i])
    ensures (exists k :: ElementsDiffer(f, a, b, i, k)) <==> exists k :: ElementsDiffer(f, a, b, next, k)
  {
    hide Less;
    forall k ensures ElementsDiffer(f, a, b, next, k) <==> ElementsDiffer(f, a, b, i, k) {
    }
  }

  lemma {:induction false} FirstDifference(f: Doubles, a: seq<Value>, b: seq<Value>, i: nat)
    requires |a| == |b| && i <= |a| && (forall e | e in a :: RealFree(e)) && (forall e | e in b :: RealFree(e))
    ensures LessElements(f, a, b, i) <==> exists k :: ElementsDiffer(f, a, b, i, k)
    decreases |a| - i
  {
    hide Less, RealFree;
    if i < |a| {
      Trichotomy(f, a[i], b[i]);
      FirstDifference(f, a, b, i + 1);
      if Less(f, a[i], b[i]) {
        assert ElementsDiffer(f, a, b, i, i);
      } else if a[i] == b[i] {
        SkipEqual(f, a, b, i, i + 1);
      } else {
        forall k ensures !ElementsDiffer(f, a, b, i, k) {
        }
      }
    }
  }

  /** Objects of equal size agree before `k`; there the names decide, and then the values. */
  predicate EntriesDiffer(f: Doubles, a: seq<Entry<Value>>, b: seq<Entry<Value>>, i: nat, k: int) {
    && i <= k < |a| && |a| == |b| && (forall j | i <= j < k :: a[j] == b[j])
    && (KeyLess(a[k].key, b[k].key) || (a[k].key == b[k].key && Less(f, a[k].val, b[k].val)))
  }

  lemma EntryLessIs(f: Doubles, x: Entry<Value>, y: Entry<Value>)
    ensures EntryLess(f, x, y) <==> KeyLess(x.key, y.key) || (x.key == y.key && Less(f, x.val, y.val))
  {
    hide Less, KeyLess;
    KeyTrichotomy(x.key, y.key);
    KeyIrreflexive(x.key);
  }

  lemma SkipEntry(f: Doubles, a: seq<Entry<Value>>, b: seq<Entry<Value>>, i: nat, next: nat)
    requires |a| == |b| && i < |a| && next == i + 1 && a[i] == b[i]
    requires !Less(f, a[i].val, b[i].val) && !KeyLess(a[i].key, b[i].key)
    ensures (exists k :: EntriesDiffer(f, a, b, i, k)) <==> exists k :: EntriesDiffer(f, a, b, next, k)
  {
    hide Less, KeyLess;
    forall k ensures EntriesDiffer(f, a, b, next, k) <==> EntriesDiffer(f, a, b, i, k) {
    }
  }

  lemma {:induction false} FirstEntry(f: Doubles, a: seq<Entry<Value>>, b: seq<Entry<Value>>, i: nat)
    requires |a| == |b| && i <= |a| && (forall m | m in a :: RealFree(m.val)) && (forall m | m in b :: RealFree(m.val))
    ensures LessMembers(f, a, b, i) <==> exists k :: EntriesDiffer(f, a, b, i, k)
    decreases |a| - i
  {
    hide Less, RealFree, EntryLess, KeyLess;
    if i < |a| {
      assert a[i] in a && b[i] in b;
      Trichotomy(f, a[i].val, b[i].val);
      EntryTrichotomy(f, a[i], b[i]);
      EntryLessIs(f, a[i], b[i]);
      EntryLessIs(f, b[i], a[i]);
      FirstEntry(f, a, b, i + 1);
      if EntryLess(f, a[i], b[i]) {
        assert EntriesDiffer(f, a, b, i, i);
      } else if a[i] == b[i] {
        SkipEntry(f, a, b, i, i + 1);
      } else {
        forall k ensures !EntriesDiffer(f, a, b, i, k) {
        }
      }
    }
  }

  /** Containers: the smaller one first, and those of equal size by their first difference. */
  lemma ContainersAreOrdered(f: Doubles, a: Value, b: Value)
    requires RealFree(a) && RealFree(b)
    ensures a.Arr? && b.Arr? ==>
              (Less(f, a, b) <==>
               |a.elems| < |b.elems| || exists k :: ElementsDiffer(f, a.elems, b.elems, 0, k))
    ensures a.Obj? && b.Obj? ==>
              (Less(f, a, b) <==>
               |a.members| < |b.members| || exists k :: EntriesDiffer(f, a.members, b.members, 0, k))
  {
    hide LessElements, LessMembers;
    if a.Arr? && b.Arr? && |a.elems| == |b.elems| {
      FirstDifference(f, a.elems, b.elems, 0);
    } else if a.Obj? && b.Obj? && |a.members| == |b.members| {
      FirstEntry(f, a.members, b.members, 0);
    }
  }
}
