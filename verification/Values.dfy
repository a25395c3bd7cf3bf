/**
 * Json::Value as a tree. An object is the contents of its std::map: the entries in ascending
 * key order. An array is the list of its elements (see ArrayValues for the index-keyed map
 * that stores them). A double is its bit pattern.
 */
module Values {
  import opened Bytes

  // ---------------------------------------------------------------- keys

  /** memcmp on the first `n` bytes. */
  function MemCmp(a: Bytes, b: Bytes, n: nat): int
    requires n <= |a| && n <= |b|
  {
    if n == 0 then 0
    else if a[0] != b[0] then a[0] as int - b[0] as int
    else MemCmp(a[1..], b[1..], n - 1)
  }

  /** CZString::operator<, and the order of string values. */
  predicate KeyLess(a: Bytes, b: Bytes) {
    var n := if |a| < |b| then |a| else |b|;
    MemCmp(a, b, n) < 0 || (MemCmp(a, b, n) == 0 && |a| < |b|)
  }

  /** CZString::operator==, and equality of string values. */
  predicate KeyEqual(a: Bytes, b: Bytes) {
    |a| == |b| && MemCmp(a, b, |a|) == 0
  }

  lemma KeyLessStep(a: Bytes, b: Bytes)
    requires a != [] && b != []
    ensures KeyLess(a, b) <==> a[0] < b[0] || (a[0] == b[0] && KeyLess(a[1..], b[1..]))
  {
  }

  lemma {:induction false} KeyEqualIsEquality(a: Bytes, b: Bytes)
    ensures KeyEqual(a, b) <==> a == b
  {
    if a != [] && |a| == |b| {
      KeyEqualIsEquality(a[1..], b[1..]);
      assert a == [a[0]] + a[1..] && b == [b[0]] + b[1..];
    }
  }

  lemma {:induction false} KeyIrreflexive(a: Bytes)
    ensures !KeyLess(a, a)
  {
    KeyEqualIsEquality(a, a);
  }

  lemma {:induction false} KeyTrichotomy(a: Bytes, b: Bytes)
    ensures KeyLess(a, b) || a == b || KeyLess(b, a)
    ensures !(KeyLess(a, b) && KeyLess(b, a))
  {
    if a != [] && b != [] {
      KeyLessStep(a, b);
      KeyLessStep(b, a);
      KeyTrichotomy(a[1..], b[1..]);
      assert a == [a[0]] + a[1..] && b == [b[0]] + b[1..];
    }
  }

  lemma {:induction false} KeyTransitive(a: Bytes, b: Bytes, c: Bytes)
    requires KeyLess(a, b) && KeyLess(b, c)
    ensures KeyLess(a, c)
  {
    if a != [] && b != [] && c != [] {
      KeyLessStep(a, b);
      KeyLessStep(b, c);
      KeyLessStep(a, c);
      if a[0] == b[0] == c[0] {
        KeyTransitive(a[1..], b[1..], c[1..]);
      }
    }
  }

  // ---------------------------------------------------------------- std::map contents

  datatype Entry<V> = Entry(key: Bytes, val: V)

  predicate Ascending<V>(m: seq<Entry<V>>) {
    forall i, j | 0 <= i < j < |m| :: KeyLess(m[i].key, m[j].key)
  }

  /** Position of `k`, or of the first entry with a larger key. */
  function LowerBound<V>(m: seq<Entry<V>>, k: Bytes): (p: nat)
    ensures p <= |m|
    ensures forall i | 0 <= i < p :: KeyLess(m[i].key, k)
    ensures p < |m| ==> !KeyLess(m[p].key, k)
  {
    if m != [] && KeyLess(m[0].key, k) then 1 + LowerBound(m[1..], k) else 0
  }

  predicate Has<V>(m: seq<Entry<V>>, k: Bytes) {
    LowerBound(m, k) < |m| && m[LowerBound(m, k)].key == k
  }

  /** The value stored under `k`, or `default`. */
  function Get<V>(m: seq<Entry<V>>, k: Bytes, default: V): V {
    if Has(m, k) then m[LowerBound(m, k)].val else default
  }

  /** Assigns to the entry of `k`, inserting it if there is none. */
  function Put<V>(m: seq<Entry<V>>, k: Bytes, v: V): seq<Entry<V>> {
    var p := LowerBound(m, k);
    m[..p] + [Entry(k, v)] + m[if Has(m, k) then p + 1 else p..]
  }

  /** The map that results from assigning the entries in turn. */
  function PutAll<V>(m: seq<Entry<V>>, es: seq<Entry<V>>): seq<Entry<V>>
    decreases |es|
  {
    if es == [] then m else Put(PutAll(m, es[..|es| - 1]), es[|es| - 1].key, es[|es| - 1].val)
  }

  function KeysOf<V>(m: seq<Entry<V>>): (r: seq<Bytes>)
    ensures |r| == |m| && forall i | 0 <= i < |m| :: r[i] == m[i].key
  {
    seq(|m|, i requires 0 <= i < |m| => m[i].key)
  }

  lemma LowerBoundAfter<V>(m: seq<Entry<V>>, k: Bytes, i: nat)
    requires Ascending(m) && LowerBound(m, k) <= i < |m|
    ensures m[i].key == k || KeyLess(k, m[i].key)
    ensures i > LowerBound(m, k) ==> KeyLess(k, m[i].key)
  {
    var p := LowerBound(m, k);
    KeyTrichotomy(m[p].key, k);
    if i > p {
      assert KeyLess(m[p].key, m[i].key);
      if m[p].key != k {
        KeyTransitive(k, m[p].key, m[i].key);
      }
    }
  }

  /** Where the entry at position `i` after an assignment comes from. */
  function PutSource<V>(m: seq<Entry<V>>, k: Bytes, i: nat): int {
    var p := LowerBound(m, k);
    if i < p then i else if i == p then -1 else if Has(m, k) then i else i - 1
  }

  lemma PutAt<V>(m: seq<Entry<V>>, k: Bytes, v: V, i: nat)
    requires i < |Put(m, k, v)|
    ensures PutSource(m, k, i) < |m|
    ensures Put(m, k, v)[i] == if PutSource(m, k, i) < 0 then Entry(k, v) else m[PutSource(m, k, i)]
  {
    hide LowerBound;
  }

  lemma PutIsAscending<V>(m: seq<Entry<V>>, k: Bytes, v: V)
    requires Ascending(m)
    ensures Ascending(Put(m, k, v))
  {
    var p := LowerBound(m, k);
    var q := if Has(m, k) then p + 1 else p;
    var r := Put(m, k, v);
    forall i, j | 0 <= i < j < |r| ensures KeyLess(r[i].key, r[j].key) {
      if j > p {
        var jm := j - (p + 1) + q;
        assert r[j] == m[jm];
        LowerBoundAfter(m, k, jm);
        if i > p {
          assert r[i] == m[i - (p + 1) + q];
        } else if i < p {
          assert r[i] == m[i];
        }
      } else if i < p {
        assert r[i] == m[i];
      }
    }
  }

  /** The keys after an assignment: the old ones and `k`. */
  lemma PutKeys<V>(m: seq<Entry<V>>, k: Bytes, v: V)
    ensures forall x :: x in KeysOf(Put(m, k, v)) <==> x == k || x in KeysOf(m)
  {
    hide LowerBound, Put, KeysOf;
    forall x ensures x in KeysOf(Put(m, k, v)) <==> x == k || x in KeysOf(m) {
      if x in KeysOf(Put(m, k, v)) {
        PutKeyIsOld(m, k, v, x);
      } else if x == k || x in KeysOf(m) {
        OldKeyStays(m, k, v, x);
      }
    }
  }

  lemma PutKeyIsOld<V>(m: seq<Entry<V>>, k: Bytes, v: V, x: Bytes)
    requires x in KeysOf(Put(m, k, v))
    ensures x == k || x in KeysOf(m)
  {
    hide LowerBound;
    var r := Put(m, k, v);
    var i :| 0 <= i < |r| && KeysOf(r)[i] == x;
    PutAt(m, k, v, i);
    var j := PutSource(m, k, i);
    if j >= 0 {
      assert x == KeysOf(m)[j];
    }
  }

  lemma OldKeyStays<V>(m: seq<Entry<V>>, k: Bytes, v: V, x: Bytes)
    requires x == k || x in KeysOf(m)
    ensures x in KeysOf(Put(m, k, v))
  {
    hide LowerBound;
    var p := LowerBound(m, k);
    var q := if Has(m, k) then p + 1 else p;
    var r := Put(m, k, v);
    assert r[p].key == k && KeysOf(r)[p] == k;
    if x != k {
      var i :| 0 <= i < |m| && KeysOf(m)[i] == x;
      if i < p {
        assert r[i] == m[i] && KeysOf(r)[i] == x;
      } else {
        assert r[i - q + p + 1] == m[i] && KeysOf(r)[i - q + p + 1] == x;
      }
    }
  }

  /** Assigning a key larger than all others appends it. */
  lemma PutLargest<V>(m: seq<Entry<V>>, k: Bytes, v: V)
    requires forall i | 0 <= i < |m| :: KeyLess(m[i].key, k)
    ensures Put(m, k, v) == m + [Entry(k, v)]
  {
  }

  /** Assigning the entries of a map to an empty one rebuilds it. */
  lemma {:induction false} PutAllAscending<V>(es: seq<Entry<V>>)
    requires Ascending(es)
    ensures PutAll([], es) == es
    decreases |es|
  {
    if es != [] {
      var front, last := es[..|es| - 1], es[|es| - 1];
      PutAllAscending(front);
      PutLargest(front, last.key, last.val);
      assert es == front + [last];
    }
  }

  lemma {:induction false} PutAllIsAscending<V>(es: seq<Entry<V>>)
    ensures Ascending(PutAll([], es))
    decreases |es|
  {
    if es != [] {
      PutAllIsAscending(es[..|es| - 1]);
      PutIsAscending(PutAll([], es[..|es| - 1]), es[|es| - 1].key, es[|es| - 1].val);
    }
  }

  /** The keys of a map built by assignments are the keys that were assigned. */
  lemma {:induction false} PutAllKeys<V>(es: seq<Entry<V>>)
    ensures forall x :: x in KeysOf(PutAll([], es)) <==> x in KeysOf(es)
    decreases |es|
  {
    if es != [] {
      var front, last := es[..|es| - 1], es[|es| - 1];
      PutAllKeys(front);
      PutKeys(PutAll([], front), last.key, last.val);
      assert KeysOf(es) == KeysOf(front) + [last.key];
    }
  }

  // ---------------------------------------------------------------- values and parsed nodes

  datatype Scalar =
    | Null
    | Bool(b: bool)
    | Int(i: int)
    | UInt(u: nat)
    | Real(bits: nat)
    | Str(s: Bytes)

  datatype Value =
    | Leaf(scalar: Scalar)
    | Arr(elems: seq<Value>)
    | Obj(members: seq<Entry<Value>>)

  /** Nesting depth: the height of the node stack that reading `v` needs. */
  function Depth(v: Value): (d: nat)
    ensures d >= 1
    decreases v
  {
    match v
    case Leaf(_) => 1
    case Arr(es) => 1 + ElementsDepth(es, 0)
    case Obj(ms) => 1 + MembersDepth(ms, 0)
  }

  function Max(a: nat, b: nat): nat {
    if a > b then a else b
  }

  function ElementsDepth(es: seq<Value>, i: nat): nat
    requires i <= |es|
    decreases es, |es| - i
  {
    if i == |es| then 0 else Max(Depth(es[i]), ElementsDepth(es, i + 1))
  }

  function MembersDepth(ms: seq<Entry<Value>>, i: nat): nat
    requires i <= |ms|
    decreases ms, |ms| - i
  {
    if i == |ms| then 0 else Max(Depth(ms[i].val), MembersDepth(ms, i + 1))
  }

  /** A value with the offsets that the reader records in it. */
  datatype Node =
    | LeafNode(scalar: Scalar, start: int, limit: int)
    | ArrNode(elems: seq<Node>, start: int, limit: int)
    | ObjNode(members: seq<Entry<Node>>, start: int, limit: int)

  const NULL_NODE: Node := LeafNode(Null, 0, 0)

  function WithOffsets(n: Node, start: int, limit: int): Node {
    match n
    case LeafNode(s, _, _) => LeafNode(s, start, limit)
    case ArrNode(es, _, _) => ArrNode(es, start, limit)
    case ObjNode(ms, _, _) => ObjNode(ms, start, limit)
  }

  /** The value of a node, without its offsets. */
  function Strip(n: Node): Value {
    match n
    case LeafNode(s, _, _) => Leaf(s)
    case ArrNode(es, _, _) => Arr(seq(|es|, i requires 0 <= i < |es| => Strip(es[i])))
    case ObjNode(ms, _, _) => Obj(seq(|ms|, i requires 0 <= i < |ms| => Entry(ms[i].key, Strip(ms[i].val))))
  }

  function StripAll(es: seq<Node>): (r: seq<Value>)
    ensures |r| == |es| && forall i | 0 <= i < |es| :: r[i] == Strip(es[i])
  {
    seq(|es|, i requires 0 <= i < |es| => Strip(es[i]))
  }

  function StripMembers(ms: seq<Entry<Node>>): (r: seq<Entry<Value>>)
    ensures |r| == |ms| && forall i | 0 <= i < |ms| :: r[i] == Entry(ms[i].key, Strip(ms[i].val))
  {
    seq(|ms|, i requires 0 <= i < |ms| => Entry(ms[i].key, Strip(ms[i].val)))
  }

  lemma StripArr(es: seq<Node>, start: int, limit: int)
    ensures Strip(ArrNode(es, start, limit)) == Arr(StripAll(es))
  {
  }

  lemma StripObj(ms: seq<Entry<Node>>, start: int, limit: int)
    ensures Strip(ObjNode(ms, start, limit)) == Obj(StripMembers(ms))
  {
  }

  lemma {:induction false} StripLowerBound(ms: seq<Entry<Node>>, k: Bytes)
    ensures LowerBound(StripMembers(ms), k) == LowerBound(ms, k)
    ensures Has(StripMembers(ms), k) == Has(ms, k)
  {
    if ms != [] {
      StripLowerBound(ms[1..], k);
      assert StripMembers(ms)[1..] == StripMembers(ms[1..]);
    }
  }

  lemma StripPut(ms: seq<Entry<Node>>, k: Bytes, n: Node)
    ensures StripMembers(Put(ms, k, n)) == Put(StripMembers(ms), k, Strip(n))
  {
    hide Strip, LowerBound;
    StripLowerBound(ms, k);
    var p := LowerBound(ms, k);
    var q := if Has(ms, k) then p + 1 else p;
    StripSlice(ms, 0, p);
    StripSlice(ms, q, |ms|);
    StripConcat(ms[..p], [Entry(k, n)]);
    StripConcat(ms[..p] + [Entry(k, n)], ms[q..]);
    assert StripMembers([Entry(k, n)]) == [Entry(k, Strip(n))];
  }

  lemma StripConcat(a: seq<Entry<Node>>, b: seq<Entry<Node>>)
    ensures StripMembers(a + b) == StripMembers(a) + StripMembers(b)
  {
    hide Strip;
  }

  lemma StripSlice(ms: seq<Entry<Node>>, i: nat, j: nat)
    requires i <= j <= |ms|
    ensures StripMembers(ms[i..j]) == StripMembers(ms)[i..j]
  {
    hide Strip;
  }

  lemma {:induction false} StripPutAll(es: seq<Entry<Node>>)
    ensures StripMembers(PutAll([], es)) == PutAll([], StripMembers(es))
    decreases |es|
  {
    if es != [] {
      var front, last := es[..|es| - 1], es[|es| - 1];
      StripPutAll(front);
      StripPut(PutAll([], front), last.key, last.val);
      assert StripMembers(es)[..|es| - 1] == StripMembers(front);
    }
  }
}
