/** The redisReader object: fields updated in place, each method proved against the value model. */
module RespReader {
  import opened Wrappers
  import opened Bytes
  import opened RespGrammar
  import opened RespMachine
  import opened RespStream

  const COMPACT_AT: nat := 1024
  const LARGE_SPARE: nat := 16 * 1024

  // Position of the first CR LF, found by scanning for CR and then looking at the next byte.
  method SeekNewline(s: seq<byte>) returns (k: Option<nat>)
    ensures k == Crlf(s, 0)
  {
    var pos := 0;
    var last := |s| - 1;
    while pos < last
      invariant 0 <= pos <= |s|
      invariant Crlf(s, pos) == Crlf(s, 0)
    {
      while pos < last && s[pos] != CR
        invariant 0 <= pos <= |s|
        invariant pos <= last
        invariant Crlf(s, pos) == Crlf(s, 0)
      {
        pos := pos + 1;
      }
      if s[pos] != CR {
        NoCrlfAtEnd(s, pos);
        return None;
      }
      // The byte after the last one is the terminator of the sds string, never LF.
      if pos + 1 < |s| && s[pos + 1] == LF {
        return Some(pos);
      }
      pos := pos + 1;
    }
    NoCrlfAtEnd(s, pos);
    return None;
  }

  lemma NoCrlfAtEnd(s: seq<byte>, pos: nat)
    requires |s| - 1 <= pos <= |s|
    ensures Crlf(s, pos) == None
  {
    if pos < |s| {
      assert Crlf(s, pos + 1) == None;
    }
  }

  // The line starts at `from`; a CR stands at `from + k`, so the scan stops inside the buffer.
  method ReadLongLong(buf: seq<byte>, from: nat, ghost k: nat) returns (v: int)
    requires from + k < |buf| && buf[from + k] == CR
    ensures v == LongLong(buf[from..from + k])
  {
    ghost var line := buf[from..from + k];
    var s := from;
    var mult := 1;
    v := 0;
    if buf[s] == 45 {
      mult := -1;
      s := s + 1;
    } else if buf[s] == 43 {
      s := s + 1;
    }
    ghost var digits := buf[s..from + k];
    assert digits == if s == from then line else line[1..];
    while buf[s] != CR
      invariant from <= s <= from + k
      invariant Digits(buf[s..from + k], v) == Digits(digits, 0)
      decreases from + k - s
    {
      assert buf[s..from + k][0] == buf[s];
      assert buf[s..from + k][1..] == buf[s + 1..from + k];
      if !IsDigit(buf[s]) {
        return -1;
      }
      v := Wrap64(v * 10 + DigitValue(buf[s]));
      s := s + 1;
    }
    assert s < from + k ==> buf[s..from + k][0] == CR;
    v := Wrap64(mult * v);
  }

  class Reader {
    var err: Option<ReaderError>
    var buf: seq<byte>
    var spare: nat
    var pos: nat
    var len: nat
    const rstack: array<Task>
    var ridx: int
    var reply: Option<Reply>

    // rstack[..ridx + 1], the reply and the unread bytes.
    ghost function Now(): State
      requires rstack.Length == MAX_DEPTH + 1 && -1 <= ridx <= MAX_DEPTH && pos <= |buf|
      reads this, rstack
    {
      State(rstack[..ridx + 1], reply, buf[pos..])
    }

    ghost predicate Working()
      reads this, rstack
    {
      && err.None?
      && rstack.Length == MAX_DEPTH + 1
      && -1 <= ridx <= MAX_DEPTH
      && pos <= len == |buf|
      && RespMachine.Valid(Now())
    }

    // Between calls.
    ghost predicate Valid()
      reads this, rstack
    {
      && rstack.Length == MAX_DEPTH + 1
      && (err.None? ==> Working())
      && (err.Some? ==> buf == [] && pos == len == 0 && ridx == -1)
      && (ridx == -1 ==> reply == None)
      && (ridx == MAX_DEPTH ==> rstack[ridx].typ != Some(TArray))
    }

    ghost function Abs(): (r: View)
      requires Valid()
      reads this, rstack
      ensures ViewOk(r) && r.error == err
    {
      if err.Some? then View(err, Start([]))
      else if ridx == -1 then View(None, Start(buf[pos..]))
      else View(None, Now())
    }

    constructor ()
      ensures Valid() && Abs() == INITIAL && fresh(rstack)
    {
      err := None;
      buf, spare, pos, len := [], 0, 0, 0;
      rstack := new Task[MAX_DEPTH + 1](i => ROOT_TASK);
      ridx := -1;
      reply := None;
    }

    // __redisReaderSetError: drops the reply, the buffer and the task stack.
    method SetError(e: ReaderError)
      modifies this
      ensures err == Some(e) && reply == None && buf == [] && pos == len == 0 && ridx == -1
    {
      reply := None;
      buf, pos, len := [], 0, 0;
      ridx := -1;
      err := Some(e);
    }

    method MoveToNextTask()
      requires Working()
      modifies this`ridx, rstack
      ensures -1 <= ridx <= old(ridx)
      ensures rstack[..ridx + 1] == MoveOn(old(rstack[..ridx + 1]))
    {
      ghost var before := rstack[..ridx + 1];
      while ridx >= 0
        invariant -1 <= ridx <= old(ridx)
        invariant rstack[..] == old(rstack[..])
        invariant StackOk(rstack[..ridx + 1])
        invariant MoveOn(rstack[..ridx + 1]) == MoveOn(before)
        decreases ridx
      {
        ghost var now := rstack[..ridx + 1];
        if ridx == 0 {
          ridx := ridx - 1;
          return;
        }
        assert Feeds(now[ridx], now, ridx);
        var cur, prv := rstack[ridx], rstack[ridx - 1];
        assert prv.typ == Some(TArray);
        assert now[..ridx] == rstack[..ridx];
        if cur.idx == prv.elements - 1 {
          ridx := ridx - 1;
        } else {
          assert cur.idx < prv.elements;
          rstack[ridx] := Task(None, -1, cur.idx + 1);
          assert rstack[..ridx + 1] == now[ridx := Task(None, -1, cur.idx + 1)];
          return;
        }
      }
    }

    // The top task became x: store it, skip its bytes and move to the next task.
    method Finish(x: Reply, used: nat)
      requires Working() && ridx >= 0 && used <= |buf| - pos
      modifies this, rstack
      ensures Working() && buf == old(buf) && spare == old(spare)
      ensures Now() == Complete(old(Now()), x, used)
    {
      CompleteOk(Now(), x, used);
      ghost var st := Now();
      reply := Store(reply, rstack[..ridx + 1], x);
      StoreFits(st.reply, st.stack, x);
      assert buf[pos + used..] == buf[pos..][used..];
      MoveToNextTask();
      pos := pos + used;
    }

    method ProcessLineItem() returns (ok: bool)
      requires Working() && ridx >= 0 && rstack[ridx].typ.Some?
      requires rstack[ridx].typ.value in {TError, TStatus, TInteger}
      modifies this, rstack
      ensures Working() && buf == old(buf) && spare == old(spare)
      ensures if ok then LineItem(old(Now())) == Go(Now()) else LineItem(old(Now())) == Stuck && Now() == old(Now())
    {
      hide Run, Crlf, LongLong, Complete, MoveOn, Store, Fits;
      ghost var st := Now();
      var typ := rstack[ridx].typ.value;
      var k := SeekNewline(buf[pos..]);
      if k.None? {
        return false;
      }
      ghost var line := st.unread[..k.value];
      assert buf[pos..pos + k.value] == line;
      var obj;
      if typ == TInteger {
        var v := ReadLongLong(buf, pos, k.value);
        obj := Integer(v);
      } else {
        obj := if typ == TError then Error(buf[pos..pos + k.value]) else Status(buf[pos..pos + k.value]);
      }
      Finish(obj, k.value + 2);
      ok := true;
    }

    method ProcessBulkItem() returns (ok: bool)
      requires Working() && ridx >= 0
      modifies this, rstack
      ensures Working() && buf == old(buf) && spare == old(spare)
      ensures if ok then BulkItem(old(Now())) == Go(Now()) else BulkItem(old(Now())) == Stuck && Now() == old(Now())
    {
      hide Run, Crlf, LongLong, ToLong, Complete, MoveOn, Store, Fits;
      ghost var st := Now();
      ok := false;
      var k := SeekNewline(buf[pos..]);
      if k.Some? {
        assert buf[pos..pos + k.value] == st.unread[..k.value];
        var bytelen := k.value + 2;
        var v := ReadLongLong(buf, pos, k.value);
        var n := ToLong(v);
        if n < 0 {
          Finish(Nil, bytelen);
          ok := true;
        } else {
          var s := pos + k.value;
          bytelen := bytelen + n + 2;
          if pos + bytelen <= len {
            assert buf[s + 2..s + 2 + n] == st.unread[k.value + 2..k.value + 2 + n];
            Finish(Str(buf[s + 2..s + 2 + n]), bytelen);
            ok := true;
          }
        }
      }
    }

    // The header announced n elements: store the empty array and push a task for the first one.
    method OpenArray(n: nat, used: nat)
      requires Working() && 0 <= ridx < MAX_DEPTH && used <= |buf| - pos && n > 0
      requires rstack[ridx].typ == Some(TArray)
      modifies this, rstack
      ensures Working() && buf == old(buf) && spare == old(spare)
      ensures var st := old(Now());
              Now() == State(Push(st.stack, n), Store(st.reply, st.stack, Array(n, Nulls(n))), st.unread[used..])
    {
      hide Run, Crlf, LongLong, Complete, MoveOn, Fits, StackOk, Store;
      ghost var st := Now();
      PushOk(st.stack, n) by {
        assert StackOk(st.stack);
        assert st.stack[ridx] == rstack[ridx];
      }
      PushFits(st.reply, st.stack, n);
      pos := pos + used;
      reply := Store(reply, rstack[..ridx + 1], Array(n, Nulls(n)));
      rstack[ridx] := rstack[ridx].(elements := n);
      ridx := ridx + 1;
      rstack[ridx] := Task(None, -1, 0);
      assert rstack[..ridx + 1] == Push(st.stack, n);
      assert buf[pos..] == st.unread[used..];
    }

    method ProcessMultiBulkItem() returns (ok: bool)
      requires Working() && ridx >= 0 && rstack[ridx].typ == Some(TArray)
      modifies this, rstack
      ensures err.None? ==> Working() && buf == old(buf) && spare == old(spare)
      ensures err.Some? ==> Valid() && !ok && MultiBulkItem(old(Now())) == Failed(err.value)
      ensures err.None? ==>
                if ok then MultiBulkItem(old(Now())) == Go(Now())
                else MultiBulkItem(old(Now())) == Stuck && Now() == old(Now())
    {
      hide Run, Crlf, LongLong, ToLong, Complete, MoveOn, Store, Fits;
      if ridx == MAX_DEPTH {
        SetError(NestingTooDeep);
        return false;
      }
      var k, n := ReadHeader();
      if k.None? {
        return false;
      }
      if n == -1 {
        Finish(Nil, k.value + 2);
      } else if n <= 0 {
        Finish(Array(n, []), k.value + 2);
      } else {
        OpenArray(n, k.value + 2);
      }
      ok := true;
    }

    // The line at the reading position and its number.
    method ReadHeader() returns (k: Option<nat>, n: int)
      requires Working()
      ensures k == Crlf(Now().unread, 0)
      ensures k.Some? ==> n == ToLong(LongLong(Now().unread[..k.value]))
    {
      hide LongLong, ToLong, RespMachine.Valid;
      n := 0;
      k := SeekNewline(buf[pos..]);
      if k.Some? {
        assert buf[pos..pos + k.value] == Now().unread[..k.value];
        var v := ReadLongLong(buf, pos, k.value);
        n := ToLong(v);
      }
    }

    // Reads the type byte of the top task.
    method ReadTypeByte() returns (ok: bool)
      requires Working() && ridx >= 0 && rstack[ridx].typ.None?
      modifies this, rstack
      ensures err.None? ==> Working() && buf == old(buf) && spare == old(spare) && ridx == old(ridx)
      ensures err.None? && ok ==> ReadType(old(Now())) == Go(Now()) && rstack[ridx].typ.Some? && pos == old(pos) + 1
      ensures err.None? && !ok ==> ReadType(old(Now())) == Stuck && Now() == old(Now())
      ensures err.Some? ==> Valid() && !ok && ReadType(old(Now())) == Failed(err.value)
    {
      ghost var first := Now();
      StepOk(first);
      if pos == len {
        return false;
      }
      var b := buf[pos];
      assert first.unread[0] == b;
      var typ := TypeOfByte(b);
      if typ.None? {
        SetError(ProtocolByte(b));
        return false;
      }
      pos := pos + 1;
      rstack[ridx] := rstack[ridx].(typ := typ);
      assert buf[pos..] == first.unread[1..];
      ok := true;
    }

    method ProcessTypedItem() returns (ok: bool)
      requires Working() && ridx >= 0 && rstack[ridx].typ.Some?
      modifies this, rstack
      ensures err.None? ==> Working() && buf == old(buf) && spare == old(spare)
      ensures err.Some? ==> Valid() && !ok && Step(old(Now())) == Failed(err.value)
      ensures err.None? ==>
                if ok then Step(old(Now())) == Go(Now()) else Step(old(Now())) == Stuck && Now() == old(Now())
    {
      hide LineItem, BulkItem, MultiBulkItem, Fits, Run;
      var cur := rstack[ridx].typ.value;
      match cur
      case TString => ok := ProcessBulkItem();
      case TArray => ok := ProcessMultiBulkItem();
      case _ => ok := ProcessLineItem();
    }

    // Reads the type byte if it is still due, then the typed item. When it returns false the
    // reader is broken, or it is where the machine waits.
    method ProcessItem() returns (ok: bool)
      requires Working() && ridx >= 0
      modifies this, rstack
      ensures err.None? ==> Working() && buf == old(buf) && spare == old(spare) && Run(Now()) == Run(old(Now()))
      ensures err.None? && ok ==> pos > old(pos) && (ridx == -1 ==> reply.Some?)
      ensures err.None? && !ok ==> ridx >= 0 && Step(Now()) == Stuck
      ensures err.Some? ==> Valid() && !ok && Run(old(Now())) == Broken(err.value)
    {
      hide Complete, Store, MoveOn, ReadType, LineItem, BulkItem, MultiBulkItem;
      if rstack[ridx].typ.None? {
        StepOk(Now());
        ok := ReadTypeByte();
        if !ok {
          return;
        }
      }
      ghost var st := Now();
      StepOk(st);
      ok := ProcessTypedItem();
    }

    method Feed(chunk: seq<byte>) returns (ok: bool)
      requires Valid()
      modifies this
      ensures Valid() && Abs() == RespStream.Feed(old(Abs()), chunk)
      ensures ok <==> old(err) == None
    {
      hide Fits;
      if err.Some? {
        return false;
      }
      if |chunk| >= 1 {
        // An empty buffer that has grown large is replaced by a new one.
        if len == 0 && spare > LARGE_SPARE {
          buf, spare, pos := [], 0, 0;
        }
        // sdscatlen: grow to twice the new length when the spare room is too small.
        if spare < |chunk| {
          spare := (|buf| + |chunk|) * 2 - |buf|;
        }
        assert (buf + chunk)[pos..] == buf[pos..] + chunk;
        buf := buf + chunk;
        spare := spare - |chunk|;
        len := |buf|;
      } else {
        assert buf[pos..] + chunk == buf[pos..];
      }
      ok := true;
    }

    // An idle reader starts with the root task.
    method Begin()
      requires Valid() && err.None?
      modifies this`ridx, rstack
      ensures Working() && ridx >= 0 && Now() == old(Abs()).st && Valid()
    {
      if ridx == -1 {
        rstack[0] := ROOT_TASK;
        ridx := 0;
        assert rstack[..ridx + 1] == [ROOT_TASK];
      }
    }

    // The loop of redisReaderGetReply: items until the root reply is complete or an item fails.
    method ProcessItems()
      requires Working() && ridx >= 0
      modifies this, rstack
      ensures err.Some? ==> Valid() && Run(old(Now())) == Broken(err.value)
      ensures err.None? ==> Working() && Run(old(Now())) == Stopped(Now()) && (ridx == -1 ==> reply.Some?)
    {
      ghost var start := Now();
      while ridx >= 0
        invariant Working() && |buf| == old(|buf|)
        invariant Run(Now()) == Run(start)
        invariant ridx == -1 ==> reply.Some?
        decreases |buf| - pos
      {
        var more := ProcessItem();
        if !more {
          break;
        }
      }
    }

    // sdsrange(buf, pos, -1) once at least 1024 bytes have been read.
    method Compact()
      requires Working()
      modifies this`buf, this`spare, this`pos, this`len
      ensures Working() && Now() == old(Now()) && pos < COMPACT_AT
    {
      if pos >= COMPACT_AT {
        spare := spare + pos;
        buf := buf[pos..];
        pos := 0;
        len := |buf|;
        assert buf[0..] == buf;
      }
    }

    method GetReply() returns (ok: bool, out: Option<Reply>)
      requires Valid()
      modifies this, rstack
      ensures Valid() && pos < COMPACT_AT
      ensures var (after, answer) := RespStream.GetReply(old(Abs()));
              && Abs() == after
              && ok == !answer.Refused?
              && out == if answer.Emit? then Some(answer.reply) else None
    {
      hide Complete, Store, MoveOn, Run;
      out := None;
      if err.Some? {
        return false, None;
      }
      ghost var start := Abs().st;
      if len == 0 {
        EmptyWaits(start);
        return true, None;
      }
      Begin();
      ProcessItems();
      if err.Some? {
        return false, None;
      }
      Compact();
      if ridx == -1 {
        assert rstack[..0] == [];
        out := reply;
        reply := None;
      } else {
        assert Step(Now()) == Stuck;
        assert rstack[..ridx + 1][ridx] == rstack[ridx];
      }
      ok := true;
    }
  }

  // With nothing unread the machine waits, unless it is about to refuse a nested array.
  lemma EmptyWaits(st: State)
    requires RespMachine.Valid(st) && st.stack != [] && st.unread == []
    requires |st.stack| == MAX_DEPTH + 1 ==> st.stack[MAX_DEPTH].typ != Some(TArray)
    ensures Run(st) == Stopped(st)
  {
    assert Step(st) == Stuck;
  }
}
