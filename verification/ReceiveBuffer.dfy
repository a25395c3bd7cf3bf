/**
 * The buffer into which the HTTP client delivers responses. Events may split a response in any
 * way; whatever the split, the buffer keeps the first bytes received since the last reset.
 */
module ReceiveBuffers {
  import opened Bytes
  import opened Seqs

  const HTTP_RECV_BUFFER_SIZE: nat := 16384
  /** One byte is left for the terminator. */
  const CAPACITY: nat := HTTP_RECV_BUFFER_SIZE - 1

  datatype Event =
    | Connected
    | Data(bytes: Bytes)
    | Finish
    | Other

  // ---------------------------------------------------------------- contents

  function Kept(s: Bytes): (r: Bytes)
    ensures r <= s && |r| == if |s| <= 16383 then |s| else 16383
  {
    if |s| <= CAPACITY then s else s[..CAPACITY]
  }

  /** The text of a C string: everything before the first NUL. */
  function CString(s: Bytes): (r: Bytes)
    ensures r <= s
  {
    if s == [] || s[0] == NUL then [] else [s[0]] + CString(s[1..])
  }

  /** The buffer and output_len. */
  datatype Buffer = Buffer(cells: Bytes, len: nat)
  {
    predicate Valid() {
      |cells| == HTTP_RECV_BUFFER_SIZE && len <= CAPACITY
    }
  }

  function Zeros(): (r: Bytes)
    ensures |r| == HTTP_RECV_BUFFER_SIZE && forall i | 0 <= i < |r| :: r[i] == NUL
  {
    seq(HTTP_RECV_BUFFER_SIZE, _ => NUL)
  }

  const EMPTY: Buffer := Buffer(Zeros(), 0)

  /** What http_event_handler does to the buffer. */
  function Step(b: Buffer, e: Event): (r: Buffer)
    requires b.Valid()
    ensures r.Valid()
  {
    match e
    case Connected => EMPTY
    case Finish => Buffer(b.cells, 0)
    case Other => b
    case Data(bytes) =>
      var n := Min(|bytes|, CAPACITY - b.len);
      if n == 0 then b
      else Buffer(b.cells[..b.len] + bytes[..n] + [NUL] + b.cells[b.len + n + 1..], b.len + n)
  }

  function Run(b: Buffer, es: seq<Event>): (r: Buffer)
    requires b.Valid()
    ensures r.Valid()
    decreases |es|
  {
    if es == [] then b else Step(Run(b, es[..|es| - 1]), es[|es| - 1])
  }

  // ---------------------------------------------------------------- the handler

  class ResponseBuffer {
    const cells: array<byte>
    var outputLen: nat

    constructor ()
      ensures fresh(cells) && Valid() && View() == EMPTY
    {
      cells := new byte[HTTP_RECV_BUFFER_SIZE](_ => NUL);
      outputLen := 0;
      new;
      assert cells[..] == Zeros();
    }

    ghost predicate Valid()
      reads this
    {
      cells.Length == HTTP_RECV_BUFFER_SIZE && outputLen <= CAPACITY
    }

    ghost function View(): (b: Buffer)
      requires Valid()
      reads this, cells
      ensures b.Valid()
    {
      Buffer(cells[..], outputLen)
    }

    /** memset of the whole buffer, and output_len = 0. */
    method Clear()
      requires Valid()
      modifies this, cells
      ensures Valid() && View() == EMPTY
    {
      for i := 0 to cells.Length
        invariant Valid()
        invariant forall k | 0 <= k < i :: cells[k] == NUL
      {
        cells[i] := NUL;
      }
      outputLen := 0;
      assert cells[..] == Zeros();
    }

    /** memcpy of the first `n` bytes to the write position, then the terminator. */
    method Copy(bytes: Bytes, n: nat)
      requires Valid() && n <= |bytes| && outputLen + n <= CAPACITY
      modifies this, cells
      ensures Valid() && outputLen == old(outputLen) + n
      ensures cells[..] == old(cells[..outputLen]) + bytes[..n] + [NUL] + old(cells[outputLen + n + 1..])
    {
      for i := 0 to n
        invariant Valid() && outputLen == old(outputLen)
        invariant forall k | 0 <= k < i :: cells[outputLen + k] == bytes[k]
        invariant forall k | 0 <= k < cells.Length && !(outputLen <= k < outputLen + i) :: cells[k] == old(cells[k])
      {
        cells[outputLen + i] := bytes[i];
      }
      outputLen := outputLen + n;
      cells[outputLen] := NUL;
    }

    method Handle(e: Event)
      requires Valid()
      modifies this, cells
      ensures Valid() && View() == Step(old(View()), e)
    {
      if e.Connected? {
        Clear();
      } else if e.Finish? {
        outputLen := 0;
      } else if e.Data? && |e.bytes| > 0 {
        var space := CAPACITY - outputLen;
        if space > 0 {
          var toCopy := if |e.bytes| < space then |e.bytes| else space;
          Copy(e.bytes, toCopy);
        }
      }
    }

    /** The text up to the first NUL, as strlen finds it. */
    method Text() returns (t: Bytes)
      requires Valid()
      ensures t == CString(View().cells)
    {
      hide CString;
      var n := 0;
      while n < cells.Length && cells[n] != NUL
        invariant n <= cells.Length
        invariant NUL !in cells[..n]
      {
        assert cells[..n + 1] == cells[..n] + [cells[n]];
        n := n + 1;
      }
      t := cells[..n];
      assert cells[..][..n] == t;
      CStringEnds(cells[..], n);
    }
  }

  lemma {:induction false} CStringEnds(s: Bytes, n: nat)
    requires n <= |s| && NUL !in s[..n] && (n < |s| ==> s[n] == NUL)
    ensures CString(s) == s[..n]
    decreases n
  {
    if n > 0 {
      assert s[..n][0] == s[0];
      assert s[..n] == [s[0]] + s[1..][..n - 1];
      assert NUL !in s[1..][..n - 1] by {
        InTail(s[..n], s[0], s[1..][..n - 1]);
      }
      CStringEnds(s[1..], n - 1);
    }
  }

  lemma InTail(s: Bytes, x: byte, rest: Bytes)
    requires s == [x] + rest && NUL !in s
    ensures NUL !in rest
  {
    forall k | 0 <= k < |rest| ensures rest[k] != NUL {
      assert s[k + 1] == rest[k];
    }
  }

  // ---------------------------------------------------------------- every chunking

  /** The bytes received since the last reset. */
  function SinceReset(es: seq<Event>): Bytes
    decreases |es|
  {
    if es == [] then []
    else
      match es[|es| - 1]
      case Connected => []
      case Finish => []
      case Other => SinceReset(es[..|es| - 1])
      case Data(bytes) => SinceReset(es[..|es| - 1]) + bytes
  }

  ghost predicate Holds(b: Buffer, s: Bytes) {
    b.Valid() && b.len == |Kept(s)| && b.cells[..b.len] == Kept(s) && (b.len > 0 ==> b.cells[b.len] == NUL)
  }

  lemma HoldsStep(b: Buffer, s: Bytes, bytes: Bytes)
    requires Holds(b, s)
    ensures Holds(Step(b, Data(bytes)), s + bytes)
  {
    var n := Min(|bytes|, CAPACITY - b.len);
    var r := Step(b, Data(bytes));
    if n == 0 {
      assert bytes == [] ==> s + bytes == s;
    } else {
      assert Kept(s) == s;
      assert Kept(s + bytes) == s + bytes[..n];
      assert r.cells[..b.len + n] == b.cells[..b.len] + bytes[..n];
    }
  }

  /**
   * After any sequence of events the buffer starts with the first min(n, 16383) bytes
   * received since the last reset, n being the number received, and a terminator.
   */
  lemma {:induction false} BufferHoldsSinceReset(b: Buffer, es: seq<Event>)
    requires b.Valid() && b.len == 0
    ensures Holds(Run(b, es), SinceReset(es))
    decreases |es|
  {
    hide Step, Holds;
    if es == [] {
      EmptyHolds(b);
    } else {
      var front, e := es[..|es| - 1], es[|es| - 1];
      BufferHoldsSinceReset(b, front);
      var m := Run(b, front);
      if e.Data? {
        HoldsStep(m, SinceReset(front), e.bytes);
      } else {
        OtherSteps(m, e);
        if !e.Other? {
          EmptyHolds(Step(m, e));
        }
      }
    }
  }

  lemma OtherSteps(b: Buffer, e: Event)
    requires b.Valid() && !e.Data?
    ensures if e.Other? then Step(b, e) == b else Step(b, e).len == 0
  {
  }

  lemma EmptyHolds(b: Buffer)
    requires b.Valid() && b.len == 0
    ensures Holds(b, [])
  {
    assert b.cells[..0] == [];
  }

  // ---------------------------------------------------------------- responses

  predicate OnlyData(es: seq<Event>) {
    forall e | e in es :: e.Data? || e.Other?
  }

  function Body(es: seq<Event>): Bytes
    decreases |es|
  {
    if es == [] then []
    else Body(es[..|es| - 1]) + (if es[|es| - 1].Data? then es[|es| - 1].bytes else [])
  }

  lemma {:induction false} BodyIsSinceReset(es: seq<Event>)
    requires OnlyData(es)
    ensures SinceReset(es) == Body(es)
    decreases |es|
  {
    if es != [] {
      assert es[|es| - 1] in es;
      BodyIsSinceReset(es[..|es| - 1]);
    }
  }

  lemma {:induction false} CStringOfPrefix(s: Bytes, p: Bytes)
    requires p < s && s[|p|] == NUL
    ensures CString(s) == CString(p)
  {
    if p != [] && p[0] != NUL {
      assert p[1..] < s[1..];
      CStringOfPrefix(s[1..], p[1..]);
    }
  }

  lemma HeldText(b: Buffer, s: Bytes)
    requires Holds(b, s) && (b.len > 0 || b.cells[0] == NUL)
    ensures CString(b.cells) == CString(Kept(s))
  {
    CStringOfPrefix(b.cells, Kept(s));
  }

  /** A response is appended to the bytes that are pending, `s` being those received since the last reset. */
  lemma {:induction false} HoldsRun(b: Buffer, s: Bytes, es: seq<Event>)
    requires Holds(b, s) && OnlyData(es)
    ensures Holds(Run(b, es), s + Body(es))
    decreases |es|
  {
    hide Step, Holds;
    HoldsIsValid(b, s);
    if es == [] {
      assert s + Body(es) == s;
    } else {
      var front, e := es[..|es| - 1], es[|es| - 1];
      assert e in es && OnlyData(front);
      HoldsRun(b, s, front);
      var m := Run(b, front);
      if e.Data? {
        HoldsStep(m, s + Body(front), e.bytes);
        assert s + Body(front) + e.bytes == s + Body(es);
      } else {
        OtherSteps(m, e);
        assert s + Body(front) == s + Body(es);
      }
    }
  }

  lemma HoldsIsValid(b: Buffer, s: Bytes)
    requires Holds(b, s)
    ensures b.Valid() && (b.len > 0 <==> s != [])
  {
  }

  /**
   * The text read after a response, however it was split, for every buffer: on a new
   * connection it is the C string of the first 16383 bytes of the response; on the same
   * connection, of the pending bytes and the response; and if both are empty it is the text
   * that was there before. Finishing the response does not change the text.
   */
  lemma ResponseText(b: Buffer, s: Bytes, es: seq<Event>, connected: bool)
    requires Holds(b, s) && OnlyData(es)
    ensures var r := Run(if connected then Step(b, Connected) else b, es);
            var text := if connected then CString(Kept(Body(es)))
                        else if s + Body(es) != [] then CString(Kept(s + Body(es)))
                        else CString(b.cells);
            CString(r.cells) == text && CString(Step(r, Finish).cells) == text
    ensures CString(Kept(Body(es))) <= Body(es)
  {
    hide Step, Run, CString, Holds;
    HoldsIsValid(b, s);
    ConnectedIsEmpty(b);
    var start, pending := if connected then EMPTY else b, if connected then [] else s;
    EmptyHolds(EMPTY);
    HoldsRun(start, pending, es);
    FinishKeepsText(Run(start, es));
    assert connected ==> pending + Body(es) == Body(es);
    if pending + Body(es) == [] {
      NothingReceived(start, es);
      EmptyText();
    } else {
      TextOfHeld(Run(start, es), pending + Body(es));
    }
    PrefixTrans(CString(Kept(Body(es))), Kept(Body(es)), Body(es));
  }

  lemma EmptyText()
    ensures CString(EMPTY.cells) == [] == CString(Kept([]))
  {
  }

  lemma TextOfHeld(b: Buffer, s: Bytes)
    requires Holds(b, s) && s != []
    ensures CString(b.cells) == CString(Kept(s))
  {
    HeldText(b, s);
  }

  lemma PrefixTrans(a: Bytes, b: Bytes, c: Bytes)
    requires a <= b <= c
    ensures a <= c
  {
  }

  lemma ConnectedIsEmpty(b: Buffer)
    requires b.Valid()
    ensures Step(b, Connected) == EMPTY
  {
  }

  lemma FinishKeepsText(b: Buffer)
    requires b.Valid()
    ensures Step(b, Finish).cells == b.cells
  {
  }

  /** A response without bytes leaves the buffer as it was, however it is split. */
  lemma {:induction false} NothingReceived(b: Buffer, es: seq<Event>)
    requires b.Valid() && OnlyData(es) && Body(es) == []
    ensures Run(b, es) == b
    decreases |es|
  {
    if es != [] {
      assert es[|es| - 1] in es;
      NothingReceived(b, es[..|es| - 1]);
    }
  }

  /**
   * Exactly when the text read is the response: the connection was opened for it; or nothing
   * is pending on the connection and the response is not empty or there was no text before. A
   * response after pending bytes that fit the buffer with it is never read as it was sent: the
   * text is both run together.
   */
  lemma TextIsResponseIff(b: Buffer, s: Bytes, es: seq<Event>, connected: bool)
    requires Holds(b, s) && OnlyData(es)
    ensures var text := CString(Run(if connected then Step(b, Connected) else b, es).cells);
            && (s == [] || (NUL !in s && |s + Body(es)| <= CAPACITY) ==>
                  (text == CString(Kept(Body(es))) <==>
                   connected || (s == [] && (Body(es) != [] || CString(b.cells) == []))))
            && (!connected && s != [] && NUL !in s && |s + Body(es)| <= CAPACITY ==> text == s + CString(Body(es)))
            && (!connected && s == [] && Body(es) == [] ==> text == CString(b.cells))
  {
    hide Run, Step, CString, Kept, Holds;
    HoldsIsValid(b, s);
    ResponseText(b, s, es, connected);
    NothingIsKept();
    if s == [] {
      assert s + Body(es) == Body(es);
    } else if NUL !in s && |s + Body(es)| <= CAPACITY {
      CStringAfter(s, Body(es));
      SmallIsKept(s + Body(es));
      SmallIsKept(Body(es));
    }
  }

  lemma NothingIsKept()
    ensures CString(Kept([])) == []
  {
  }

  lemma SmallIsKept(s: Bytes)
    requires |s| <= CAPACITY
    ensures Kept(s) == s
  {
  }

  lemma {:induction false} CStringAfter(s: Bytes, more: Bytes)
    requires NUL !in s
    ensures CString(s + more) == s + CString(more)
  {
    if s == [] {
      assert s + more == more;
    } else {
      assert (s + more)[1..] == s[1..] + more;
      CStringAfter(s[1..], more);
      assert s == [s[0]] + s[1..];
    }
  }

  /** The text of one response is read as the next one, which was empty. */
  lemma StaleText(b: Buffer, first: Bytes)
    requires b.Valid() && b.len == 0 && 0 < |first| <= CAPACITY && NUL !in first
    ensures var once := Step(Step(b, Data(first)), Finish);
            CString(Step(Step(once, Data([])), Finish).cells) == first
  {
    hide CString;
    EmptyHolds(b);
    HoldsStep(b, [], first);
    assert [] + first == first;
    HeldText(Step(b, Data(first)), first);
    assert first[..|first|] == first;
    CStringEnds(first, |first|);
  }
}
