/**
 * The element loop of the reader as it fills the map behind an array: each element is read
 * into the entry that indexing with the next number inserts. The map never has a hole, and it
 * stores the list of elements that the reader's specification builds.
 */
module ArrayReads {
  import opened Lexer
  import opened Values
  import opened ReaderSpec
  import opened ArrayValues

  /** The loop of readArray with the entries `slots` filled so far and `index` the next number. */
  function ReadSlots(cfg: Config, eof: nat, toks: seq<Token>, depth: nat, slots: map<nat, Node>, index: nat)
    : (r: Result<map<nat, Node>>)
    ensures |r.errors| == if r.status == Failed then 1 else 0
    decreases |toks|
  {
    var child := ReadValue(cfg, eof, toks, depth + 1, At(slots, index, NULL_NODE));
    var slots' := slots[index := child.val];
    if child.status == Aborted then Result(Aborted, 0, child.rest, slots', child.errors)
    else if child.status == Failed then Fail(eof, child.rest, ArrayEnd, slots', child.errors)
    else
      var ts := DropComments(child.rest);
      var next := Head(ts, eof);
      if next.kind == ArrayEnd then Result(Ok, next.end, Tail(ts), slots', [])
      else if next.kind == ArraySeparator then ReadSlots(cfg, eof, Tail(ts), depth, slots', index + 1)
      else Fail(eof, Tail(ts), ArrayEnd, slots', [Error(MissingArraySeparator, next)])
  }

  lemma StoresOneMore<T>(m: map<nat, T>, s: seq<T>, x: T)
    requires Stores(m, s)
    ensures |s| !in m && Stores(m[|s| := x], s + [x])
  {
  }

  lemma {:induction false} SlotsAreElements(cfg: Config, eof: nat, toks: seq<Token>, depth: nat, slots: map<nat, Node>,
                                            acc: seq<Node>)
    requires Stores(slots, acc)
    ensures var r, e := ReadSlots(cfg, eof, toks, depth, slots, |acc|), ReadElements(cfg, eof, toks, depth, acc);
            && r.status == e.status && r.pos == e.pos && r.rest == e.rest && r.errors == e.errors
            && Stores(r.val, e.val)
    decreases |toks|
  {
    hide ReadValue, DropComments, Recover, Stores;
    var child := ReadValue(cfg, eof, toks, depth + 1, NULL_NODE);
    StoresOneMore(slots, acc, child.val);
    if child.status == Ok {
      var ts := DropComments(child.rest);
      if Head(ts, eof).kind == ArraySeparator {
        SlotsAreElements(cfg, eof, Tail(ts), depth, slots[|acc| := child.val], acc + [child.val]);
      }
    }
  }

  /** Every array that the reader builds, in any document and at any depth, is without holes. */
  lemma ReadArraysAreDense(cfg: Config, eof: nat, toks: seq<Token>, depth: nat)
    ensures var r := ReadSlots(cfg, eof, toks, depth, map[], 0);
            Dense(r.val) && Contents(r.val) == ReadElements(cfg, eof, toks, depth, []).val
  {
    hide ReadSlots, ReadElements, Dense, Contents;
    SlotsAreElements(cfg, eof, toks, depth, map[], []);
    StoresIsContents(ReadSlots(cfg, eof, toks, depth, map[], 0).val, ReadElements(cfg, eof, toks, depth, []).val);
  }
}
