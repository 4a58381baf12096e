/**
 Whole runs of AK/CircularBuffer.cpp: from create_empty on, any sequence of operations
 delivers what an unbounded byte history with a read position would deliver.
 */
module RingRun {
  import opened Wrappers
  import opened Bits
  import opened CircularBuffer

  datatype Op =
    | Write(bytes: seq<Byte>)
    | Read(count: nat)
    | Seek(count: nat, distance: nat)
    | Discard(count: nat)
    | Copy(distance: nat, length: nat)
    | Clear

  /** What an operation replies; an error is none. */
  datatype Reply = Accepted(n: nat) | Got(bytes: seq<Byte>) | Sought(found: Option<seq<Byte>>) | Skipped(ok: bool)
                 | CopiedBack(done: Option<nat>) | Cleared

  /** The unbounded history, how much of it is unread, and all replies so far. */
  datatype Model = Model(history: seq<Byte>, unread: nat, replies: seq<Reply>)

  predicate Fits(m: Model, cap: nat) {
    m.unread <= |m.history| && m.unread <= cap
  }

  /** The bytes after the read position, at most count of them. */
  function Next(m: Model, count: nat): seq<Byte>
    requires m.unread <= |m.history|
  {
    var at := |m.history| - m.unread;
    m.history[at..at + Min(count, m.unread)]
  }

  /** What an operation does to the history; nothing when a VERIFY stops it. */
  function After(cap: nat, m: Model, op: Op): (r: Option<Model>)
    requires cap > 0 && Fits(m, cap)
    ensures r.Some? ==> Fits(r.value, cap)
  {
    var replies := m.replies + [ReplyTo(cap, m, op)];
    match op
    case Write(bytes) =>
      var n := Min(|bytes|, cap - m.unread);
      Some(Model(m.history + bytes[..n], m.unread + n, replies))
    case Read(count) =>
      Some(Model(m.history, m.unread - Min(count, m.unread), replies))
    case Seek(_, _) =>
      Some(m.(replies := replies))
    case Discard(count) =>
      Some(Model(m.history, if count <= m.unread then m.unread - count else m.unread, replies))
    case Copy(distance, length) =>
      if distance == 0 || distance > Min(|m.history|, cap) then Some(m.(replies := replies))
      else if Overruns(Slot(|m.history| - distance, cap), distance, cap, cap - m.unread, length) then None
      else
        var n := Min(length, cap - m.unread);
        Some(Model(LzCopy(m.history, distance, n), m.unread + n, replies))
    case Clear =>
      Some(Model([], 0, replies))
  }

  function ReplyTo(cap: nat, m: Model, op: Op): Reply
    requires Fits(m, cap)
  {
    var h := |m.history|;
    match op
    case Write(bytes) => Accepted(Min(|bytes|, cap - m.unread))
    case Read(count) => Got(Next(m, count))
    case Seek(count, distance) =>
      Sought(if distance > Min(h, cap) then None
             else Some(m.history[h - distance..h - distance + Min(count, distance)]))
    case Discard(count) => Skipped(count <= m.unread)
    case Copy(distance, length) =>
      CopiedBack(if distance > Min(h, cap) then None
                 else Some(if distance == 0 then 0 else Min(length, cap - m.unread)))
    case Clear => Cleared
  }

  function AfterAll(cap: nat, ops: seq<Op>): (r: Option<Model>)
    requires cap > 0
    ensures r.Some? ==> Fits(r.value, cap)
  {
    if ops == [] then Some(Model([], 0, []))
    else
      var before := AfterAll(cap, ops[..|ops| - 1]);
      if before.None? then None else After(cap, before.value, ops[|ops| - 1])
  }

  ghost predicate Shows(b: CircularBuffer, m: Model, cap: nat)
    reads b, b.buffer
  {
    b.Valid() && b.buffer.Length == cap && b.history == m.history && b.usedSpace == m.unread
  }

  /** One operation on the ring and its reply, or nothing when a VERIFY stops it. */
  method Apply(b: CircularBuffer, op: Op, ghost m: Model, ghost cap: nat) returns (reply: Option<Reply>)
    requires cap > 0 && Fits(m, cap) && Shows(b, m, cap)
    modifies b, b.buffer
    ensures reply.Some? <==> After(cap, m, op).Some?
    ensures reply.Some? ==> Shows(b, After(cap, m, op).value, cap) && reply.value == ReplyTo(cap, m, op)
  {
    hide Slot, Holds, Overruns, LzCopy;
    match op
    case Write(bytes) =>
      var src := new Byte[|bytes|](i requires 0 <= i < |bytes| => bytes[i]);
      assert src[..] == bytes;
      var n := b.Write(src, 0, |bytes|, 0);
      reply := Some(Accepted(n));
    case Read(count) =>
      var dst := new Byte[count](_ => 0);
      var n := b.Read(dst);
      reply := Some(Got(dst[..n]));
    case Seek(count, distance) =>
      var dst := new Byte[count](_ => 0);
      var r := b.ReadWithSeekback(dst, distance);
      reply := Some(Sought(if r.TooFar? then None else Some(dst[..r.n])));
    case Discard(count) =>
      var ok := b.Discard(count);
      reply := Some(Skipped(ok));
    case Copy(distance, length) =>
      var r := b.CopyFromSeekback(distance, length);
      reply := if r.VerifyFailed? then None else Some(CopiedBack(if r.BeyondLimit? then None else Some(r.n)));
    case Clear =>
      b.Clear();
      reply := Some(Cleared);
  }

  /** Every run from an empty ring. */
  method Run(cap: nat, ops: seq<Op>) returns (replies: Option<seq<Reply>>)
    requires cap > 0
    ensures match AfterAll(cap, ops)
            case None => replies == None
            case Some(m) => replies == Some(m.replies)
  {
    hide After, ReplyTo;
    var b := new CircularBuffer(cap);
    replies := Some([]);
    assert ops[..|ops|] == ops;
    for i := 0 to |ops|
      invariant fresh(b) && fresh(b.buffer)
      invariant AfterAll(cap, ops[..i]).Some? && replies == Some(AfterAll(cap, ops[..i]).value.replies)
      invariant Shows(b, AfterAll(cap, ops[..i]).value, cap)
    {
      AfterStep(cap, ops, i);
      ghost var m := AfterAll(cap, ops[..i]).value;
      AfterReplies(cap, m, ops[i]);
      var reply := Apply(b, ops[i], m, cap);
      if reply.None? {
        AfterStop(cap, ops, i + 1);
        return None;
      }
      replies := Some(replies.value + [reply.value]);
    }
  }

  lemma AfterReplies(cap: nat, m: Model, op: Op)
    requires cap > 0 && Fits(m, cap)
    ensures After(cap, m, op).Some? ==> After(cap, m, op).value.replies == m.replies + [ReplyTo(cap, m, op)]
  {
    hide Slot, Overruns, LzCopy;
  }

  /**
   Three bytes pass through a ring of four, and then seven bytes are asked for at distance
   three: the distance becomes six and the VERIFY of next_seekback_span fires.
   */
  lemma OverrunExample()
    ensures AfterAll(4, [Write([1, 2, 3]), Read(3), Copy(3, 7)]) == None
  {
    hide AfterAll, After;
    var ops := [Write([1, 2, 3]), Read(3), Copy(3, 7)];
    RunStart(4, ops);
    AfterStep(4, ops, 0);
    AfterStep(4, ops, 1);
    AfterStep(4, ops, 2);
    assert ops[..3] == ops;
    var m := ThreeBytesThrough();
    CopyTrips(m);
  }

  lemma RunStart(cap: nat, ops: seq<Op>)
    requires cap > 0
    ensures AfterAll(cap, ops[..0]) == Some(Model([], 0, []))
  {
  }

  lemma ThreeBytesThrough() returns (m: Model)
    ensures Fits(m, 4) && m.history == [1, 2, 3] && m.unread == 0
    ensures var m1 := After(4, Model([], 0, []), Write([1, 2, 3])); m1.Some? && After(4, m1.value, Read(3)) == Some(m)
  {
    var m1 := After(4, Model([], 0, []), Write([1, 2, 3])).value;
    assert m1.history == [1, 2, 3] && m1.unread == 3;
    m := After(4, m1, Read(3)).value;
  }

  lemma CopyTrips(m: Model)
    requires Fits(m, 4) && m.history == [1, 2, 3] && m.unread == 0
    ensures After(4, m, Copy(3, 7)) == None
  {
    hide LzCopy;
    assert Slot(0, 4) == 0 && LastDoubling(3, 4) == 3;
  }

  lemma AfterStep(cap: nat, ops: seq<Op>, i: nat)
    requires cap > 0 && i < |ops|
    ensures AfterAll(cap, ops[..i + 1]) ==
            var m := AfterAll(cap, ops[..i]); if m.None? then None else After(cap, m.value, ops[i])
  {
    assert ops[..i + 1][..i] == ops[..i];
  }

  lemma {:induction false} AfterStop(cap: nat, ops: seq<Op>, i: nat)
    requires cap > 0 && i <= |ops| && AfterAll(cap, ops[..i]).None?
    ensures AfterAll(cap, ops).None?
    decreases |ops| - i
  {
    if i == |ops| {
      assert ops[..i] == ops;
    } else {
      AfterStep(cap, ops, i);
      AfterStop(cap, ops, i + 1);
    }
  }

  /** All bytes that reads have delivered. */
  function ReadOut(replies: seq<Reply>): seq<Byte> {
    if replies == [] then []
    else
      var last := replies[|replies| - 1];
      ReadOut(replies[..|replies| - 1]) + if last.Got? then last.bytes else []
  }

  /** What was read is the part of the history before the read position. */
  ghost predicate ReadInOrder(m: Model) {
    m.unread <= |m.history| && ReadOut(m.replies) == m.history[..|m.history| - m.unread]
  }

  lemma ReadOutPush(replies: seq<Reply>, r: Reply)
    ensures ReadOut(replies + [r]) == ReadOut(replies) + if r.Got? then r.bytes else []
  {
    assert (replies + [r])[..|replies|] == replies;
  }

  lemma ReadBeforeCopy(cap: nat, m: Model, distance: nat, length: nat)
    requires cap > 0 && Fits(m, cap) && ReadInOrder(m)
    ensures var op := Copy(distance, length); After(cap, m, op).Some? ==> ReadInOrder(After(cap, m, op).value)
  {
    hide Overruns, LzCopy, ReadOut;
    ReadOutPush(m.replies, ReplyTo(cap, m, Copy(distance, length)));
    if 0 < distance <= |m.history| {
      LzPrefix(m.history, distance, Min(length, cap - m.unread), |m.history| - m.unread);
    }
  }

  lemma ReadInOrderStep(cap: nat, m: Model, op: Op)
    requires cap > 0 && Fits(m, cap) && ReadInOrder(m) && !op.Discard? && !op.Clear?
    ensures After(cap, m, op).Some? ==> ReadInOrder(After(cap, m, op).value)
  {
    hide Overruns, LzCopy, Slot, ReadOut;
    ReadOutPush(m.replies, ReplyTo(cap, m, op));
    var at := |m.history| - m.unread;
    match op
    case Write(bytes) =>
      var n := Min(|bytes|, cap - m.unread);
      assert (m.history + bytes[..n])[..at] == m.history[..at];
    case Read(count) =>
      var n := Min(count, m.unread);
      assert m.history[..at] + m.history[at..at + n] == m.history[..at + n];
    case Copy(distance, length) =>
      ReadBeforeCopy(cap, m, distance, length);
    case _ =>
  }

  /** Nothing is lost, duplicated or reordered: what was read and what still waits is what was accepted. */
  lemma {:induction false} Conservation(cap: nat, ops: seq<Op>)
    requires cap > 0 && forall i :: 0 <= i < |ops| ==> !ops[i].Discard? && !ops[i].Clear?
    ensures var r := AfterAll(cap, ops);
            r.Some? ==>
              ReadInOrder(r.value) && ReadOut(r.value.replies) + Next(r.value, r.value.unread) == r.value.history
  {
    hide After, ReadOut;
    if ops == [] {
      assert ReadOut([]) == [] by { NothingRead(); }
    } else {
      var n := |ops| - 1;
      Conservation(cap, ops[..n]);
      var before := AfterAll(cap, ops[..n]);
      if before.Some? { ReadInOrderStep(cap, before.value, ops[n]); }
    }
  }

  lemma NothingRead()
    ensures ReadOut([]) == []
  {
  }

  lemma {:induction false} LzPrefix(h: seq<Byte>, distance: nat, n: nat, at: nat)
    requires 0 < distance <= |h| && at <= |h|
    ensures LzCopy(h, distance, n)[..at] == h[..at]
  {
    if n > 0 { LzPrefix(h, distance, n - 1, at); }
  }
}
