/** The redisAsyncContext object. Callback code is an arbitrary program that may call the API on
    the context it is given; each method is proved against the value model of the protocol. */
module AsyncContext {
  import opened Wrappers
  import opened Bytes
  import opened RespGrammar
  import opened AsyncModel
  import AsyncProofs
  import RespStream
  import RespReader
  import CallbackList

  lemma CallsNone(s: State, user: User)
    requires s.inCallback
    ensures Calls(s, [], user) == s
  {
  }

  lemma FreeUnfold(s: State, user: User)
    requires !s.inCallback && Closed(s)
    ensures AsyncFree(s, user)
         == if s.replies == [] then s.(phase := Freed)
            else AsyncFree(AsyncModel.RunCallback(Shift(s, None), s.replies[0], None, user), user)
  {
  }

  // What the free still does when cb was taken from the list, None when there was none.
  ghost function FreeRest(s: State, cb: Option<Callback>, user: User): State
    requires !s.inCallback && Closed(s)
  {
    if cb.None? then s.(phase := Freed)
    else AsyncFree(AsyncModel.RunCallback(s, cb.value, None, user), user)
  }

  class Context {
    var disconnecting: bool
    var freeing: bool
    var inCallback: bool
    var err: Option<ContextError>
    const reader: RespReader.Reader
    var obuf: seq<byte>
    const replies: CallbackList.List
    const user: User
    var runs: nat
    ghost var phase: Phase
    ghost var log: Log

    // What callback code and the free may change: not the reader.
    ghost function Own(): set<object>
      reads this, replies
    {
      {this} + replies.Repr
    }

    ghost predicate Valid()
      reads this, reader, reader.rstack, replies, replies.Repr
    {
      && reader.Valid() && replies.Valid()
      && this !in replies.Repr && reader !in replies.Repr && reader.rstack !in replies.Repr
      && runs == |log.ran|
    }

    ghost function Abs(): (s: State)
      requires Valid()
      reads this, reader, reader.rstack, replies, replies.Repr
      ensures RespStream.ViewOk(s.reader)
    {
      State(disconnecting, freeing, inCallback, err, reader.Abs(), obuf, replies.Contents, phase, log)
    }

    constructor (user: User)
      ensures Valid() && Abs() == INITIAL && this.user == user && fresh(Own()) && fresh(reader) && fresh(reader.rstack)
    {
      this.user := user;
      disconnecting, freeing, inCallback := false, false, false;
      err := None;
      reader := new RespReader.Reader();
      obuf := [];
      replies := new CallbackList.List();
      runs := 0;
      phase := Live;
      log := INITIAL.log;
    }

    // __redisAsyncCommand for a regular command
    method Command(cb: Callback, cmd: seq<byte>) returns (ok: bool)
      requires Valid()
      modifies Own()
      ensures Valid() && fresh(Own() - old(Own()))
      ensures Abs() == AddCommand(old(Abs()), cb, cmd)
      ensures ok <==> !Closed(old(Abs()))
    {
      hide RespReader.Reader.Valid, RespReader.Reader.Abs, CallbackList.List.Valid, RespStream.ViewOk;
      if disconnecting || freeing {
        return false;
      }
      replies.Push(cb);
      obuf := obuf + cmd;
      log := log.(accepted := log.accepted + [cb], queued := log.queued + cmd);
      ok := true;
    }

    // redisAsyncDisconnect
    method Disconnect()
      requires Valid()
      modifies Own()
      ensures Valid() && fresh(Own() - old(Own()))
      ensures Abs() == Api(old(Abs()), UserCall.Disconnect, user)
      decreases if inCallback then 0 else 5, 0
    {
      hide RespReader.Reader.Valid, RespReader.Reader.Abs, CallbackList.List.Valid, RespStream.ViewOk;
      disconnecting := true;
      var empty := replies.IsEmpty();
      if !inCallback && empty {
        AsyncDisconnect();
      }
    }

    // redisAsyncFree
    method Free()
      requires Valid()
      modifies Own()
      ensures Valid() && fresh(Own() - old(Own()))
      ensures Abs() == Api(old(Abs()), UserCall.Free, user)
      decreases if inCallback then 0 else 5, 0
    {
      hide RespReader.Reader.Valid, RespReader.Reader.Abs, CallbackList.List.Valid, RespStream.ViewOk;
      freeing := true;
      if !inCallback {
        AsyncFree();
      }
    }

    method Perform(call: UserCall)
      requires Valid()
      modifies Own()
      ensures Valid() && fresh(Own() - old(Own()))
      ensures Abs() == Api(old(Abs()), call, user)
      decreases if inCallback then 0 else 5, 1
    {
      hide RespReader.Reader.Valid, RespReader.Reader.Abs, CallbackList.List.Valid, RespStream.ViewOk;
      match call
      case Command(cb, cmd) => var _ := Command(cb, cmd);
      case Disconnect => Disconnect();
      case Free => Free();
    }

    // __redisRunCallback
    method RunCallback(cb: Callback, reply: Option<Reply>)
      requires Valid() && !inCallback
      modifies Own()
      ensures Valid() && fresh(Own() - old(Own()))
      ensures Abs() == AsyncModel.RunCallback(old(Abs()), cb, reply, user)
      decreases 2, 0
    {
      hide RespReader.Reader.Valid, RespReader.Reader.Abs, CallbackList.List.Valid, RespStream.ViewOk,
           Api, AddCommand, Calls;
      if cb.fn {
        inCallback := true;
        MakeCalls();
        inCallback := false;
        runs := runs + 1;
        log := log.(ran := log.ran + [Delivery(cb, reply)]);
      }
    }

    // What the callback's function does with the context
    method MakeCalls()
      requires Valid() && inCallback
      modifies Own()
      ensures Valid() && fresh(Own() - old(Own()))
      ensures Abs() == Calls(old(Abs()), user(old(runs)), user)
      decreases 1, 0
    {
      hide RespReader.Reader.Valid, RespReader.Reader.Abs, CallbackList.List.Valid, RespStream.ViewOk,
           Api, AddCommand, Calls;
      ghost var start := Abs();
      var calls := user(runs);
      CallsNone(start, user);
      assert calls[..0] == [];
      for i := 0 to |calls|
        invariant Valid() && fresh(Own() - old(Own()))
        invariant Abs() == Calls(start, calls[..i], user)
      {
        CallsSnoc(start, calls, i, user);
        Perform(calls[i]);
      }
      assert calls[..|calls|] == calls;
    }

    // __redisShiftCallback on the reply list, noting what the callback is given
    method ShiftReply(ghost reply: Option<Reply>) returns (cb: Option<Callback>)
      requires Valid()
      modifies Own()
      ensures Valid() && Own() == old(Own())
      ensures cb == if old(Abs()).replies == [] then None else Some(old(Abs()).replies[0])
      ensures Abs() == if cb.None? then old(Abs()) else Shift(old(Abs()), reply)
    {
      hide RespReader.Reader.Valid, RespReader.Reader.Abs, CallbackList.List.Valid, RespStream.ViewOk;
      cb := replies.Shift();
      if cb.Some? {
        log := log.(shifted := log.shifted + [Delivery(cb.value, reply)],
                    got := log.got + if reply.Some? then [reply.value] else []);
      }
    }

    // __redisAsyncFree
    method AsyncFree()
      requires Valid() && !inCallback && Closed(Abs())
      modifies Own()
      ensures Valid() && fresh(Own() - old(Own()))
      ensures Abs() == AsyncModel.AsyncFree(old(Abs()), user)
      decreases 3, 0
    {
      hide RespReader.Reader.Valid, RespReader.Reader.Abs, CallbackList.List.Valid, RespStream.ViewOk,
           AsyncModel.AsyncFree, AsyncModel.RunCallback;
      ghost var start := Abs();
      var cb := TakeNext();
      while cb.Some?
        invariant Valid() && fresh(Own() - old(Own())) && !inCallback && Closed(Abs())
        invariant FreeRest(Abs(), cb, user) == AsyncModel.AsyncFree(start, user)
        decreases if cb.Some? then 1 + |Abs().replies| else 0
      {
        RunCallback(cb.value, None);
        cb := TakeNext();
      }
      phase := Freed;
    }

    // The next callback of a free
    method TakeNext() returns (cb: Option<Callback>)
      requires Valid() && !inCallback && Closed(Abs())
      modifies Own()
      ensures Valid() && Own() == old(Own()) && !inCallback && Closed(Abs())
      ensures FreeRest(Abs(), cb, user) == AsyncModel.AsyncFree(old(Abs()), user)
      ensures |Abs().replies| == |old(Abs()).replies| - if cb.Some? then 1 else 0
    {
      hide RespReader.Reader.Valid, RespReader.Reader.Abs, CallbackList.List.Valid, RespStream.ViewOk,
           AsyncModel.AsyncFree, AsyncModel.RunCallback;
      FreeUnfold(Abs(), user);
      cb := ShiftReply(None);
    }

    // __redisAsyncDisconnect
    method AsyncDisconnect()
      requires Valid() && !inCallback && (err.None? ==> Closed(Abs()))
      modifies Own()
      ensures Valid() && fresh(Own() - old(Own()))
      ensures Abs() == AsyncModel.AsyncDisconnect(old(Abs()), user)
      decreases 4, 0
    {
      hide RespReader.Reader.Valid, RespReader.Reader.Abs, CallbackList.List.Valid, RespStream.ViewOk,
           AsyncModel.AsyncFree;
      if err.None? {
        log := log.(clean := true, orphaned := log.orphaned || replies.Contents != []);
      } else {
        disconnecting := true;
      }
      AsyncFree();
    }

    // The part of redisProcessCallbacks that handles one reply
    method Deliver(reply: Reply) returns (more: bool)
      requires Valid() && !inCallback
      modifies Own()
      ensures Valid() && fresh(Own() - old(Own()))
      ensures (Abs(), more) == AsyncModel.Deliver(old(Abs()), reply, user)
      decreases 6, 0
    {
      hide RespReader.Reader.Valid, RespReader.Reader.Abs, CallbackList.List.Valid, RespStream.ViewOk,
           AsyncModel.AsyncFree, AsyncModel.AsyncDisconnect, AsyncModel.RunCallback;
      var cb := ShiftReply(Some(reply));
      if cb.None? {
        if reply.Error? {
          err := Some(OtherError(reply.str));
          AsyncDisconnect();
        } else {
          phase := Unsolicited;
        }
        return false;
      }
      RunCallback(cb.value, Some(reply));
      if cb.value.fn && freeing {
        AsyncFree();
        return false;
      }
      more := true;
    }

    // redisProcessCallbacks
    method ProcessCallbacks()
      requires Valid() && !inCallback
      modifies Own(), reader, reader.rstack
      ensures Valid() && fresh(Own() - old(Own()))
      ensures Abs() == AsyncModel.ProcessCallbacks(old(Abs()), user)
      decreases 7, 0
    {
      hide RespReader.Reader.Valid, RespReader.Reader.Abs, CallbackList.List.Valid, RespStream.ViewOk,
           AsyncModel.AsyncDisconnect, AsyncModel.Deliver, RespStream.GetReply;
      ghost var start := Abs();
      while true
        invariant Valid() && fresh(Own() - old(Own())) && !inCallback
        invariant AsyncModel.ProcessCallbacks(Abs(), user) == AsyncModel.ProcessCallbacks(start, user)
        decreases |Abs().reader.st.unread|
      {
        var ok, reply := reader.GetReply();
        if !ok {
          err := Some(ProtocolError(reader.err.value));
          AsyncDisconnect();
          return;
        }
        if reply.None? {
          if disconnecting && obuf == [] {
            AsyncDisconnect();
          }
          return;
        }
        var more := Deliver(reply.value);
        if !more {
          return;
        }
      }
    }

    // redisAsyncHandleRead on a connected context, with what recv returned
    method HandleRead(input: Input)
      requires Valid() && !inCallback
      modifies Own(), reader, reader.rstack
      ensures Valid() && fresh(Own() - old(Own()))
      ensures Abs() == AsyncModel.HandleRead(old(Abs()), input, user)
    {
      hide RespReader.Reader.Valid, RespReader.Reader.Abs, CallbackList.List.Valid, RespStream.ViewOk,
           AsyncModel.ProcessCallbacks, AsyncModel.AsyncDisconnect;
      if err.Some? {
        AsyncDisconnect();
        return;
      }
      match input
      case Data(chunk) =>
        var ok := reader.Feed(chunk);
        if !ok {
          err := Some(ProtocolError(reader.err.value));
          AsyncDisconnect();
        } else {
          log := log.(received := log.received + chunk);
          ProcessCallbacks();
        }
      case Again => ProcessCallbacks();
      case Eof =>
        err := Some(EofError);
        AsyncDisconnect();
      case ReadFailed =>
        err := Some(IoError);
        AsyncDisconnect();
    }

    // redisAsyncHandleWrite on a connected context, with what send returned
    method HandleWrite(output: Output)
      requires Valid() && !inCallback
      modifies Own()
      ensures Valid() && fresh(Own() - old(Own()))
      ensures Abs() == AsyncModel.HandleWrite(old(Abs()), output, user)
      ensures old(err).None? && output.Wrote? ==>
                var n := if output.n <= |old(obuf)| then output.n else |old(obuf)|;
                obuf == old(obuf)[n..] && log.sent == old(log).sent + old(obuf)[..n]
    {
      hide RespReader.Reader.Valid, RespReader.Reader.Abs, CallbackList.List.Valid, RespStream.ViewOk;
      if err.Some? {
        AsyncDisconnect();
        return;
      }
      if |obuf| > 0 {
        match output
        case Wrote(n) =>
          var k := if n <= |obuf| then n else |obuf|;
          log := log.(sent := log.sent + obuf[..k]);
          obuf := obuf[k..];
        case Blocked =>
        case WriteFailed =>
          err := Some(IoError);
          AsyncDisconnect();
      }
    }

    // What the program and its event loop do to a context as long as it exists: a step of the
    // model, so that what is proved of its runs holds of the object.
    method Handle(e: Event)
      requires Valid() && !inCallback && phase == Live
      modifies Own(), reader, reader.rstack
      ensures Valid() && fresh(Own() - old(Own()))
      ensures Abs() == Step(old(Abs()), e, user)
      ensures forall events :: old(Abs()) == AsyncProofs.Run(events, user) ==>
                                 Abs() == AsyncProofs.Run(events + [e], user)
    {
      hide RespReader.Reader.Valid, RespReader.Reader.Abs, CallbackList.List.Valid, RespStream.ViewOk,
           Api, AsyncModel.HandleRead, AsyncModel.HandleWrite, AsyncProofs.Run;
      ghost var start := Abs();
      match e {
        case Call(call) => Perform(call);
        case Readable(input) => HandleRead(input);
        case Writable(output) => HandleWrite(output);
      }
      forall events | start == AsyncProofs.Run(events, user)
        ensures Abs() == AsyncProofs.Run(events + [e], user)
      {
        AsyncProofs.RunSnoc(events, e, user);
      }
    }
  }
}
