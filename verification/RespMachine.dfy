/** The resumable task stack of redisReader as a step machine over values, and what its runs
    compute: the recursive grammar, independently of how the bytes arrive. */
module RespMachine {
  import opened Wrappers
  import opened Bytes
  import opened RespGrammar

  // One entry of rstack; `typ` is None where the code has -1.
  datatype Task = Task(typ: Option<ItemType>, elements: int, idx: int)

  // The live part rstack[..ridx + 1], the reply under construction and the unread bytes.
  datatype State = State(stack: seq<Task>, reply: Option<Reply>, unread: seq<byte>)

  const ROOT_TASK := Task(None, -1, -1)

  ghost predicate StackOk(stack: seq<Task>) {
    && |stack| <= MAX_DEPTH + 1
    && (forall k :: 1 <= k < |stack| ==> Feeds(stack[k], stack, k))
  }

  // Task k fills a slot of the array that task k - 1 is reading.
  ghost predicate Feeds(t: Task, stack: seq<Task>, k: nat)
    requires 1 <= k < |stack|
  {
    stack[k - 1].typ == Some(TArray) && 0 <= t.idx < stack[k - 1].elements
  }

  // The arrays the lower tasks are filling exist in the reply, with the right number of slots.
  ghost predicate Fits(node: Option<Reply>, stack: seq<Task>)
    decreases |stack|
  {
    |stack| <= 1 ||
    (&& node.Some? && node.value.Array?
     && |node.value.element| == stack[0].elements
     && 0 <= stack[1].idx < |node.value.element|
     && Fits(node.value.element[stack[1].idx], stack[1..]))
  }

  ghost predicate Valid(st: State) {
    StackOk(st.stack) && Fits(st.reply, st.stack)
  }

  // Stores x in the slot the top task is to fill: `parent->element[task->idx] = r`.
  function Store(node: Option<Reply>, stack: seq<Task>, x: Reply): (r: Option<Reply>)
    requires Fits(node, stack)
    ensures r.Some?
    decreases |stack|
  {
    if |stack| <= 1 then Some(x)
    else
      var i := stack[1].idx;
      var inner := Store(node.value.element[i], stack[1..], x);
      Some(node.value.(element := node.value.element[i := inner]))
  }

  // moveToNextTask
  function MoveOn(stack: seq<Task>): (r: seq<Task>)
    requires StackOk(stack)
    ensures StackOk(r) && |r| <= |stack|
    decreases |stack|
  {
    if |stack| <= 1 then []
    else
      var top := |stack| - 1;
      if stack[top].idx == stack[top - 1].elements - 1 then MoveOn(stack[..top])
      else stack[top := Task(None, -1, stack[top].idx + 1)]
  }

  datatype StepResult = Stuck | Failed(error: ReaderError) | Go(next: State)

  // The top task has become x, read from the first `used` unread bytes.
  function Complete(st: State, x: Reply, used: nat): State
    requires Valid(st) && used <= |st.unread|
  {
    State(MoveOn(st.stack), Store(st.reply, st.stack, x), st.unread[used..])
  }

  function Typed(st: State): ItemType
    requires |st.stack| > 0 && st.stack[|st.stack| - 1].typ.Some?
  {
    st.stack[|st.stack| - 1].typ.value
  }

  function ReadType(st: State): StepResult
    requires |st.stack| > 0
  {
    if st.unread == [] then Stuck
    else
      match TypeOfByte(st.unread[0])
      case None => Failed(ProtocolByte(st.unread[0]))
      case Some(typ) =>
        var top := |st.stack| - 1;
        Go(State(st.stack[top := st.stack[top].(typ := Some(typ))], st.reply, st.unread[1..]))
  }

  function LineItem(st: State): StepResult
    requires Valid(st) && |st.stack| > 0
    requires st.stack[|st.stack| - 1].typ.Some?
    requires Typed(st).TError? || Typed(st).TStatus? || Typed(st).TInteger?
  {
    match Crlf(st.unread, 0)
    case None => Stuck
    case Some(k) => Go(Complete(st, LineReply(Typed(st), st.unread[..k]), k + 2))
  }

  function BulkItem(st: State): StepResult
    requires Valid(st) && |st.stack| > 0
  {
    match Crlf(st.unread, 0)
    case None => Stuck
    case Some(k) =>
      var len := ToLong(LongLong(st.unread[..k]));
      if len < 0 then Go(Complete(st, Nil, k + 2))
      else if k + len + 4 <= |st.unread| then Go(Complete(st, Str(st.unread[k + 2..k + 2 + len]), k + len + 4))
      else Stuck
  }

  function Nulls(n: nat): (s: seq<Option<Reply>>)
    ensures |s| == n && forall i :: 0 <= i < n ==> s[i] == None
  {
    seq(n, i => None)
  }

  function Push(stack: seq<Task>, n: int): seq<Task>
    requires |stack| > 0
  {
    stack[|stack| - 1 := stack[|stack| - 1].(elements := n)] + [Task(None, -1, 0)]
  }

  function MultiBulkItem(st: State): StepResult
    requires Valid(st) && |st.stack| > 0
  {
    if |st.stack| == MAX_DEPTH + 1 then Failed(NestingTooDeep)
    else
      match Crlf(st.unread, 0)
      case None => Stuck
      case Some(k) =>
        var n := ToLong(LongLong(st.unread[..k]));
        if n == -1 then Go(Complete(st, Nil, k + 2))
        else if n <= 0 then Go(Complete(st, Array(n, []), k + 2))
        else Go(State(Push(st.stack, n), Store(st.reply, st.stack, Array(n, Nulls(n))), st.unread[k + 2..]))
  }

  function Step(st: State): StepResult
    requires Valid(st) && |st.stack| > 0
  {
    if st.stack[|st.stack| - 1].typ.None? then ReadType(st)
    else
      match Typed(st)
      case TString => BulkItem(st)
      case TArray => MultiBulkItem(st)
      case _ => LineItem(st)
  }

  lemma {:induction false} StoreFits(node: Option<Reply>, stack: seq<Task>, x: Reply)
    requires Fits(node, stack)
    ensures Fits(Store(node, stack, x), stack)
    decreases |stack|
  {
    if |stack| > 1 {
      StoreFits(node.value.element[stack[1].idx], stack[1..], x);
    }
  }

  // What Fits and Store look at: every idx but the first, every elements but the last.
  lemma {:induction false} SameShape(node: Option<Reply>, a: seq<Task>, b: seq<Task>, x: Reply)
    requires Fits(node, a) && |a| == |b|
    requires forall k :: 0 <= k < |a| - 1 ==> a[k].elements == b[k].elements
    requires forall k :: 1 <= k < |a| ==> a[k].idx == b[k].idx
    ensures Fits(node, b) && Store(node, b, x) == Store(node, a, x)
    decreases |a|
  {
    if |a| > 1 {
      SameShape(node.value.element[a[1].idx], a[1..], b[1..], x);
    }
  }

  lemma {:induction false} MoveOnFits(node: Option<Reply>, stack: seq<Task>)
    requires StackOk(stack) && Fits(node, stack)
    ensures Fits(node, MoveOn(stack))
    decreases |stack|
  {
    if |stack| > 1 {
      var top := |stack| - 1;
      if stack[top].idx == stack[top - 1].elements - 1 {
        PrefixFits(node, stack);
        MoveOnFits(node, stack[..top]);
      } else {
        NextSlotFits(node, stack);
      }
    }
  }

  lemma {:induction false} PrefixFits(node: Option<Reply>, stack: seq<Task>)
    requires |stack| > 1 && Fits(node, stack)
    ensures Fits(node, stack[..|stack| - 1])
    decreases |stack|
  {
    var shorter := stack[..|stack| - 1];
    if |stack| > 2 {
      PrefixFits(node.value.element[stack[1].idx], stack[1..]);
      assert stack[1..][..|stack| - 2] == shorter[1..];
    }
  }

  lemma {:induction false} NextSlotFits(node: Option<Reply>, stack: seq<Task>)
    requires |stack| > 1 && Fits(node, stack)
    requires 0 <= stack[|stack| - 1].idx < stack[|stack| - 2].elements - 1
    ensures Fits(node, stack[|stack| - 1 := Task(None, -1, stack[|stack| - 1].idx + 1)])
    decreases |stack|
  {
    var top := |stack| - 1;
    var moved := stack[top := Task(None, -1, stack[top].idx + 1)];
    if |stack| > 2 {
      NextSlotFits(node.value.element[stack[1].idx], stack[1..]);
      assert moved[1..] == stack[1..][top - 1 := Task(None, -1, stack[top].idx + 1)];
    }
  }

  // A fresh array stored at the top of the stack has a slot for the first element.
  lemma {:induction false} PushFits(node: Option<Reply>, stack: seq<Task>, n: nat)
    requires 0 < |stack| && Fits(node, stack) && 0 < n
    ensures Fits(Store(node, stack, Array(n, Nulls(n))), Push(stack, n))
    decreases |stack|
  {
    if |stack| == 1 {
      assert Push(stack, n)[1..] == [Task(None, -1, 0)];
    } else {
      PushFits(node.value.element[stack[1].idx], stack[1..], n);
      assert Push(stack, n)[1..] == Push(stack[1..], n);
    }
  }

  lemma PushOk(stack: seq<Task>, n: int)
    requires 0 < |stack| <= MAX_DEPTH && StackOk(stack) && n > 0
    requires stack[|stack| - 1].typ == Some(TArray)
    ensures StackOk(Push(stack, n))
  {
    var pushed := Push(stack, n);
    forall k | 1 <= k < |pushed|
      ensures Feeds(pushed[k], pushed, k)
    {
      assert k < |stack| ==> Feeds(stack[k], stack, k);
    }
  }

  lemma CompleteOk(st: State, x: Reply, used: nat)
    requires Valid(st) && used <= |st.unread|
    ensures Valid(Complete(st, x, used))
    ensures Complete(st, x, used).reply.Some? && Complete(st, x, used).unread == st.unread[used..]
  {
    StoreFits(st.reply, st.stack, x);
    MoveOnFits(Store(st.reply, st.stack, x), st.stack);
  }

  // Every step keeps the invariant and consumes at least one byte.
  lemma StepOk(st: State)
    requires Valid(st) && |st.stack| > 0
    ensures Step(st).Go? ==> Valid(Step(st).next) && |Step(st).next.unread| < |st.unread|
    ensures Step(st).Go? && Step(st).next.stack == [] ==> Step(st).next.reply.Some?
  {
    hide Complete, Store, MoveOn, Crlf, LongLong, Fits, ToLong;
    var top := |st.stack| - 1;
    if st.stack[top].typ.None? {
      if st.unread != [] && TypeOfByte(st.unread[0]).Some? {
        var typ := TypeOfByte(st.unread[0]);
        SameShape(st.reply, st.stack, st.stack[top := st.stack[top].(typ := typ)], Nil);
      }
    } else {
      var k := Crlf(st.unread, 0);
      if k.Some? {
        var n := ToLong(LongLong(st.unread[..k.value]));
        match Typed(st)
        case TString =>
          if n < 0 {
            CompleteOk(st, Nil, k.value + 2);
          } else if k.value + n + 4 <= |st.unread| {
            CompleteOk(st, Str(st.unread[k.value + 2..k.value + 2 + n]), k.value + n + 4);
          }
        case TArray =>
          if |st.stack| <= MAX_DEPTH {
            if n == -1 {
              CompleteOk(st, Nil, k.value + 2);
            } else if n <= 0 {
              CompleteOk(st, Array(n, []), k.value + 2);
            } else {
              PushFits(st.reply, st.stack, n);
            }
          }
        case typ => CompleteOk(st, LineReply(typ, st.unread[..k.value]), k.value + 2);
      }
    }
  }

  // Steps until the root reply is complete (empty stack), bytes are missing, or the protocol is violated.
  datatype Outcome = Stopped(st: State) | Broken(error: ReaderError)

  function Run(st: State): (r: Outcome)
    requires Valid(st)
    ensures r.Stopped? ==> Valid(r.st) && |r.st.unread| <= |st.unread|
    ensures r.Stopped? && r.st.stack != [] ==> Step(r.st) == Stuck
    ensures r.Stopped? && r.st.stack == [] && st.stack != [] ==> |r.st.unread| < |st.unread| && r.st.reply.Some?
    decreases |st.unread|
  {
    if st.stack == [] then Stopped(st)
    else
      StepOk(st);
      match Step(st)
      case Stuck => Stopped(st)
      case Failed(e) => Broken(e)
      case Go(next) => Run(next)
  }

  function Extend(st: State, more: seq<byte>): State {
    st.(unread := st.unread + more)
  }

  lemma {:induction false} CrlfExtend(u: seq<byte>, more: seq<byte>, from: nat)
    requires from <= |u| && Crlf(u, from).Some?
    ensures Crlf(u + more, from) == Crlf(u, from)
    decreases |u| - from
  {
    assert forall i :: 0 <= i < |u| ==> (u + more)[i] == u[i];
    if !IsCrlf(u, from) {
      CrlfExtend(u, more, from + 1);
      assert !IsCrlf(u + more, from);
    }
  }

  lemma CompleteExtend(st: State, x: Reply, used: nat, more: seq<byte>)
    requires Valid(st) && used <= |st.unread|
    ensures Complete(Extend(st, more), x, used) == Extend(Complete(st, x, used), more)
  {
    assert (st.unread + more)[used..] == st.unread[used..] + more;
  }

  // A step that did not wait is unaffected by bytes that arrive later.
  ghost predicate Steady(now: StepResult, later: StepResult, more: seq<byte>) {
    match now
    case Stuck => true
    case Failed(e) => later == Failed(e)
    case Go(next) => later == Go(Extend(next, more))
  }

  lemma LineExtend(st: State, more: seq<byte>)
    requires Valid(st) && st.stack != [] && st.stack[|st.stack| - 1].typ.Some?
    requires Typed(st).TError? || Typed(st).TStatus? || Typed(st).TInteger?
    ensures Steady(LineItem(st), LineItem(Extend(st, more)), more)
  {
    var k := Crlf(st.unread, 0);
    if k.Some? {
      CrlfExtend(st.unread, more, 0);
      assert (st.unread + more)[..k.value] == st.unread[..k.value];
      CompleteExtend(st, LineReply(Typed(st), st.unread[..k.value]), k.value + 2, more);
    }
  }

  lemma BulkExtend(st: State, more: seq<byte>)
    requires Valid(st) && st.stack != []
    ensures Steady(BulkItem(st), BulkItem(Extend(st, more)), more)
  {
    var u := st.unread;
    var k := Crlf(u, 0);
    if k.Some? {
      CrlfExtend(u, more, 0);
      assert (u + more)[..k.value] == u[..k.value];
      var len := ToLong(LongLong(u[..k.value]));
      if len < 0 {
        CompleteExtend(st, Nil, k.value + 2, more);
      } else if k.value + len + 4 <= |u| {
        assert (u + more)[k.value + 2..k.value + 2 + len] == u[k.value + 2..k.value + 2 + len];
        CompleteExtend(st, Str(u[k.value + 2..k.value + 2 + len]), k.value + len + 4, more);
      }
    }
  }

  lemma MultiBulkExtend(st: State, more: seq<byte>)
    requires Valid(st) && st.stack != []
    ensures Steady(MultiBulkItem(st), MultiBulkItem(Extend(st, more)), more)
  {
    var u := st.unread;
    var k := Crlf(u, 0);
    if k.Some? {
      CrlfExtend(u, more, 0);
      assert (u + more)[..k.value] == u[..k.value];
      assert (u + more)[k.value + 2..] == u[k.value + 2..] + more;
      var n := ToLong(LongLong(u[..k.value]));
      if n == -1 {
        CompleteExtend(st, Nil, k.value + 2, more);
      } else if n <= 0 {
        CompleteExtend(st, Array(n, []), k.value + 2, more);
      }
    }
  }

  lemma StepExtend(st: State, more: seq<byte>)
    requires Valid(st) && st.stack != []
    ensures Steady(Step(st), Step(Extend(st, more)), more)
  {
    hide LineItem, BulkItem, MultiBulkItem, Fits;
    if st.stack[|st.stack| - 1].typ.None? {
      assert st.unread != [] ==> (st.unread + more)[1..] == st.unread[1..] + more;
    } else {
      match Typed(st)
      case TString => BulkExtend(st, more);
      case TArray => MultiBulkExtend(st, more);
      case _ => LineExtend(st, more);
    }
  }

  // Running on a prefix, then on what is left with the rest appended, is running on the whole.
  lemma {:induction false} RunExtend(st: State, more: seq<byte>)
    requires Valid(st)
    ensures Run(Extend(st, more)) == match Run(st)
                                     case Broken(e) => Broken(e)
                                     case Stopped(mid) => Run(Extend(mid, more))
    decreases |st.unread|
  {
    if st.stack != [] && Step(st) != Stuck {
      StepExtend(st, more);
      StepOk(st);
      if Step(st).Go? {
        RunExtend(Step(st).next, more);
      }
    }
  }

  // ---- The stack machine computes the recursive grammar ----

  // The second store reaches through the first: filling slot i of the array just stored.
  lemma {:induction false} StoreInside(node: Option<Reply>, stack: seq<Task>, a: Reply, t: Task, x: Reply)
    requires 0 < |stack| && Fits(node, stack)
    requires a.Array? && |a.element| == stack[|stack| - 1].elements && 0 <= t.idx < |a.element|
    ensures Fits(Store(node, stack, a), stack + [t])
    ensures Store(Store(node, stack, a), stack + [t], x)
         == Store(node, stack, a.(element := a.element[t.idx := Some(x)]))
    decreases |stack|
  {
    if |stack| == 1 {
      assert (stack + [t])[1..] == [t];
    } else {
      var i := stack[1].idx;
      StoreInside(node.value.element[i], stack[1..], a, t, x);
      assert (stack + [t])[1..] == stack[1..] + [t];
      var inner := Store(node.value.element[i], stack[1..], a);
      var inner' := Store(inner, stack[1..] + [t], x);
      assert node.value.element[i := inner][i := inner'] == node.value.element[i := inner'];
    }
  }

  predicate Fresh(st: State) {
    st.stack != [] && st.stack[|st.stack| - 1].typ == None
  }

  // What the run of st must be when the grammar says p about its unread bytes.
  ghost predicate Agrees(st: State, p: Parse)
    requires Valid(st) && (p.Ok? ==> p.used <= |st.unread|)
  {
    match p
    case Incomplete => Run(st).Stopped? && Run(st).st.stack != []
    case Fail(e) => Run(st) == Broken(e)
    case Ok(x, c) => Valid(Complete(st, x, c)) && Run(st) == Run(Complete(st, x, c))
  }

  // For a task about to read an item, the run is the parse of that item followed by
  // whatever the run does after it.
  lemma {:induction false} ItemRefines(st: State)
    requires Valid(st) && Fresh(st)
    ensures Agrees(st, ParseReply(st.unread, |st.stack| - 1))
    decreases |st.unread|, 2
  {
    if st.unread != [] && TypeOfByte(st.unread[0]).Some? {
      StepOk(st);
      var st1 := Step(st).next;
      TypedRefines(st, st1);
    }
  }

  ghost predicate AfterType(st: State, st1: State) {
    && Valid(st) && Fresh(st) && Valid(st1)
    && st.unread != [] && TypeOfByte(st.unread[0]).Some?
    && Step(st) == Go(st1)
  }

  // Completing the item is the same before and after its type byte was read.
  lemma SameCompletion(st: State, st1: State, x: Reply, used: nat)
    requires AfterType(st, st1) && used <= |st1.unread|
    ensures Complete(st1, x, used) == Complete(st, x, used + 1)
    ensures Valid(Complete(st1, x, used))
  {
    SameShape(st.reply, st.stack, st1.stack, x);
    assert st.unread[used + 1..] == st1.unread[used..];
    var top := |st.stack| - 1;
    assert st1.stack[..top] == st.stack[..top];
    CompleteOk(st1, x, used);
  }

  lemma RunThrough(st: State)
    requires Valid(st) && st.stack != [] && Step(st).Go?
    ensures Valid(Step(st).next) && Run(st) == Run(Step(st).next)
  {
    StepOk(st);
  }

  // The item was completed in one step from where its type byte had been read.
  lemma Settle(st: State, st1: State, x: Reply, used: nat)
    requires AfterType(st, st1) && used <= |st1.unread|
    requires Step(st1) == Go(Complete(st1, x, used))
    ensures Agrees(st, Parse.Ok(x, used + 1))
  {
    hide Complete, Store, MoveOn, Crlf, LongLong, Fits, ToLong;
    SameCompletion(st, st1, x, used);
    StepOk(st1);
    assert Run(st) == Run(st1);
    assert Run(st1) == Run(Complete(st1, x, used));
  }

  lemma Waits(st: State, st1: State)
    requires AfterType(st, st1) && Step(st1) == Stuck
    ensures Agrees(st, Incomplete)
  {
    assert Run(st) == Run(st1);
  }

  lemma {:induction false} TypedRefines(st: State, st1: State)
    requires AfterType(st, st1)
    ensures Agrees(st, ParseReply(st.unread, |st.stack| - 1))
    decreases |st.unread|, 1, 1
  {
    hide Complete, Store, MoveOn, Fits, ParseLine, ParseBulk, ParseArray;
    var u := st.unread[1..];
    assert st1.unread == u;
    match Typed(st1)
    case TArray =>
      if |st.stack| == MAX_DEPTH + 1 {
        assert Run(st) == Run(st1);
      } else {
        ArrayRefines(st, st1);
      }
    case TString => BulkRefines(st, st1);
    case _ => LineRefines(st, st1);
  }

  lemma LineRefines(st: State, st1: State)
    requires AfterType(st, st1)
    requires Typed(st1).TError? || Typed(st1).TStatus? || Typed(st1).TInteger?
    ensures Agrees(st, ParseLine(Typed(st1), st.unread[1..]))
  {
    hide Run, Complete, Store, MoveOn, Fits, Crlf, LongLong, ToLong;
    assert st1.unread == st.unread[1..];
    match Crlf(st1.unread, 0)
    case None => Waits(st, st1);
    case Some(k) => Settle(st, st1, LineReply(Typed(st1), st1.unread[..k]), k + 2);
  }

  lemma BulkRefines(st: State, st1: State)
    requires AfterType(st, st1) && Typed(st1).TString?
    ensures Agrees(st, ParseBulk(st.unread[1..]))
  {
    hide Run, Complete, Store, MoveOn, Fits, Crlf, LongLong, ToLong;
    var u := st1.unread;
    assert u == st.unread[1..];
    match Crlf(u, 0)
    case None => Waits(st, st1);
    case Some(k) =>
      var len := ToLong(LongLong(u[..k]));
      if len < 0 {
        Settle(st, st1, Nil, k + 2);
      } else if k + len + 4 <= |u| {
        Settle(st, st1, Str(u[k + 2..k + 2 + len]), k + len + 4);
      } else {
        Waits(st, st1);
      }
  }

  lemma {:induction false} ArrayRefines(st: State, st1: State)
    requires AfterType(st, st1) && Typed(st1).TArray? && |st.stack| <= MAX_DEPTH
    ensures Agrees(st, ParseArray(st.unread[1..], |st.stack| - 1))
    decreases |st.unread|, 1, 0
  {
    hide Run, Complete, Store, MoveOn, Fits, Crlf, LongLong, ToLong;
    var u := st1.unread;
    assert u == st.unread[1..];
    match Crlf(u, 0)
    case None => Waits(st, st1);
    case Some(k) =>
      var n := ToLong(LongLong(u[..k]));
      if n == -1 {
        Settle(st, st1, Nil, k + 2);
      } else if n <= 0 {
        Settle(st, st1, Array(n, []), k + 2);
      } else {
        OpenedAgrees(st, st1, n, k);
      }
  }

  lemma {:induction false} OpenedAgrees(st: State, st1: State, n: nat, k: nat)
    requires AfterType(st, st1) && Typed(st1).TArray? && |st.stack| <= MAX_DEPTH
    requires Crlf(st1.unread, 0) == Some(k) && n == ToLong(LongLong(st1.unread[..k])) > 0
    ensures Agrees(st, ArrayOf(ParseElements(st1.unread[k + 2..], n, |st.stack|), n, k + 3))
    decreases |st.unread|, 0
  {
    hide Run, Complete, Store, MoveOn, Fits, Crlf, LongLong, ToLong, ParseElements;
    StepOk(st1);
    var base := Header(st, st1, n, k);
    ElementsRefine(base, n, [], base.unread);
    RunThrough(st);
    RunThrough(st1);
    ArrayAgrees(st, st1, n, k, base);
  }

  // The task that opened the array, as it stays on the stack while the elements are read.
  lemma Header(st: State, st1: State, n: nat, k: nat) returns (base: State)
    requires AfterType(st, st1) && Typed(st1).TArray? && |st.stack| <= MAX_DEPTH
    requires Crlf(st1.unread, 0) == Some(k) && n == ToLong(LongLong(st1.unread[..k])) > 0
    ensures base == Opened(st1, n, k) && Valid(base)
    ensures Step(st1) == Go(Filling(base, n, [], base.unread))
  {
    base := Opened(st1, n, k);
    SameShape(st1.reply, st1.stack, base.stack, Array(n, Nulls(n)));
    assert Filled([]) + Nulls(n) == Nulls(n);
  }

  function Opened(st1: State, n: nat, k: nat): State
    requires st1.stack != [] && k + 2 <= |st1.unread|
  {
    var top := |st1.stack| - 1;
    State(st1.stack[top := st1.stack[top].(elements := n)], st1.reply, st1.unread[k + 2..])
  }

  lemma ArrayAgrees(st: State, st1: State, n: nat, k: nat, base: State)
    requires AfterType(st, st1) && k + 2 <= |st1.unread| && n > 0
    requires base == Opened(st1, n, k) && Valid(base) && Valid(Filling(base, n, [], base.unread))
    requires Run(st) == Run(Filling(base, n, [], base.unread))
    requires ElementsAgree(base, n, [], base.unread, ParseElements(base.unread, n, |st.stack|))
    ensures Agrees(st, ArrayOf(ParseElements(base.unread, n, |st.stack|), n, k + 3))
  {
    hide Run, Complete, Store, MoveOn, ParseElements;
    var p := ParseElements(base.unread, n, |st.stack|);
    if p.OkSeq? {
      assert [] + p.replies == p.replies;
      ArrayCompletes(st, st1, n, k, p.replies, p.used);
    }
  }

  lemma ArrayCompletes(st: State, st1: State, n: nat, k: nat, xs: seq<Reply>, c: nat)
    requires AfterType(st, st1) && k + 2 + c <= |st1.unread| && n > 0
    requires Valid(Opened(st1, n, k))
    ensures Valid(Complete(st, Array(n, Filled(xs)), k + 3 + c))
    ensures AfterArray(Opened(st1, n, k), n, xs, Opened(st1, n, k).unread[c..])
         == Complete(st, Array(n, Filled(xs)), k + 3 + c)
  {
    hide Run, Crlf, LongLong, Fits, ToLong;
    var a := Array(n, Filled(xs));
    var base := Opened(st1, n, k);
    SameShape(st1.reply, st1.stack, base.stack, a);
    SameCompletion(st, st1, a, k + 2 + c);
    assert base.unread[c..] == st1.unread[k + 2 + c..];
    var top := |st1.stack| - 1;
    assert base.stack[..top] == st1.stack[..top];
  }

  // The array at the top of base has its first |done| elements, and the next one is due.
  function Filling(base: State, n: nat, done: seq<Reply>, u: seq<byte>): State
    requires Valid(base) && base.stack != [] && |done| < n
  {
    State(base.stack + [Task(None, -1, |done|)],
          Store(base.reply, base.stack, Array(n, Filled(done) + Nulls(n - |done|))), u)
  }

  // The whole array has been read: what the machine looks like then.
  function AfterArray(base: State, n: nat, items: seq<Reply>, rest: seq<byte>): State
    requires Valid(base)
  {
    State(MoveOn(base.stack), Store(base.reply, base.stack, Array(n, Filled(items))), rest)
  }

  ghost predicate ElementsAgree(base: State, n: nat, done: seq<Reply>, u: seq<byte>, p: ParseSeq)
    requires Valid(base) && base.stack != [] && |done| < n && Valid(Filling(base, n, done, u))
    requires p.OkSeq? ==> p.used <= |u|
  {
    var r := Run(Filling(base, n, done, u));
    match p
    case IncompleteSeq => r.Stopped? && r.st.stack != []
    case FailSeq(e) => r == Broken(e)
    case OkSeq(xs, c) =>
      && Valid(AfterArray(base, n, done + xs, u[c..]))
      && r == Run(AfterArray(base, n, done + xs, u[c..]))
  }

  // One more element is in: either the array is complete or the next element is due.
  lemma ElementDone(base: State, n: nat, done: seq<Reply>, u: seq<byte>, x: Reply, c: nat)
    requires Valid(base) && 0 < |base.stack| <= MAX_DEPTH && |done| < n && c <= |u|
    requires base.stack[|base.stack| - 1].typ == Some(TArray) && base.stack[|base.stack| - 1].elements == n
    ensures Valid(Filling(base, n, done, u))
    ensures Complete(Filling(base, n, done, u), x, c)
         == if |done| + 1 == n then AfterArray(base, n, done + [x], u[c..]) else Filling(base, n, done + [x], u[c..])
  {
    var a := Array(n, Filled(done) + Nulls(n - |done|));
    var t := Task(None, -1, |done|);
    StoreInside(base.reply, base.stack, a, t, x);
    assert a.element[|done| := Some(x)] == Filled(done + [x]) + Nulls(n - |done| - 1);
    assert |done| + 1 == n ==> Filled(done + [x]) + Nulls(0) == Filled(done + [x]);
    var stack := base.stack + [t];
    assert stack[..|base.stack|] == base.stack;
    assert stack[|base.stack| := Task(None, -1, |done| + 1)] == base.stack + [Task(None, -1, |done| + 1)];
  }

  lemma {:induction false} ElementsRefine(base: State, n: nat, done: seq<Reply>, u: seq<byte>)
    requires Valid(base) && 0 < |base.stack| <= MAX_DEPTH
    requires base.stack[|base.stack| - 1].typ == Some(TArray) && base.stack[|base.stack| - 1].elements == n
    requires |done| < n
    ensures Valid(Filling(base, n, done, u))
    ensures ElementsAgree(base, n, done, u, ParseElements(u, n - |done|, |base.stack|))
    decreases |u|, 3
  {
    hide Run, Complete, Store, MoveOn, Fits, ParseReply;
    var st := Filling(base, n, done, u);
    ElementDone(base, n, done, u, Nil, 0);
    ItemRefines(st);
    match ParseReply(u, |base.stack|)
    case Incomplete =>
    case Fail(e) =>
    case Ok(x, c) =>
      ElementDone(base, n, done, u, x, c);
      if |done| + 1 < n {
        ElementsRefine(base, n, done + [x], u[c..]);
      }
      ElementThenRest(base, n, done, u, x, c, ParseElements(u[c..], n - |done| - 1, |base.stack|));
  }

  lemma ElementThenRest(base: State, n: nat, done: seq<Reply>, u: seq<byte>, x: Reply, c: nat, rest: ParseSeq)
    requires Valid(base) && base.stack != [] && |done| < n && c <= |u|
    requires rest.OkSeq? ==> rest.used <= |u[c..]|
    requires var st := Filling(base, n, done, u);
             Valid(st) && Valid(Complete(st, x, c)) && Run(st) == Run(Complete(st, x, c))
    requires Complete(Filling(base, n, done, u), x, c)
          == if |done| + 1 == n then AfterArray(base, n, done + [x], u[c..]) else Filling(base, n, done + [x], u[c..])
    requires |done| + 1 == n ==> rest == OkSeq([], 0)
    requires |done| + 1 < n ==> ElementsAgree(base, n, done + [x], u[c..], rest)
    ensures ElementsAgree(base, n, done, u, Prepend(x, c, rest))
  {
    hide Run, Complete, Store, MoveOn, Valid, AfterArray, Filling;
    if rest.OkSeq? {
      var xs := rest.replies;
      assert done + ([x] + xs) == (done + [x]) + xs;
      assert u[c..][rest.used..] == u[c + rest.used..];
      if |done| + 1 == n {
        assert (done + [x]) + xs == done + [x];
        assert u[c + rest.used..] == u[c..];
      }
      assert Valid(AfterArray(base, n, done + ([x] + xs), u[c + rest.used..]));
      assert Run(Filling(base, n, done, u)) == Run(AfterArray(base, n, done + ([x] + xs), u[c + rest.used..]));
    }
  }

  function Start(u: seq<byte>): State {
    State([ROOT_TASK], None, u)
  }

  // From an idle reader the machine delivers exactly the reply the grammar reads.
  lemma RootRefines(u: seq<byte>)
    ensures ParseReply(u, 0).Incomplete? ==> Run(Start(u)).Stopped? && Run(Start(u)).st.stack != []
    ensures ParseReply(u, 0).Fail? ==> Run(Start(u)) == Broken(ParseReply(u, 0).error)
    ensures ParseReply(u, 0).Ok? ==>
              Run(Start(u)) == Stopped(State([], Some(ParseReply(u, 0).reply), u[ParseReply(u, 0).used..]))
  {
    ItemRefines(Start(u));
  }
}
