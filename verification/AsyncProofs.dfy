/** Safety over whole runs of an async context: every accepted command's callback is taken from
    the list once and in order, the n-th with the n-th reply on the wire, however the bytes
    arrive and whatever the callbacks do. */
module AsyncProofs {
  import opened Wrappers
  import opened Bytes
  import opened RespGrammar
  import opened RespEncoding
  import opened RespStream
  import opened AsyncModel
  import RespFormat

  function Callbacks(ds: seq<Delivery>): (r: seq<Callback>)
    ensures |r| == |ds|
  {
    seq(|ds|, i requires 0 <= i < |ds| => ds[i].cb)
  }

  // Deliveries to callbacks that have a function.
  function Invoked(ds: seq<Delivery>): seq<Delivery> {
    if ds == [] then []
    else
      var last := ds[|ds| - 1];
      Invoked(ds[..|ds| - 1]) + if last.cb.fn then [last] else []
  }

  // The first |got| callbacks got the replies in order, the others were told of the free.
  ghost predicate Matched(shifted: seq<Delivery>, got: seq<Reply>) {
    && |got| <= |shifted|
    && (forall i :: 0 <= i < |got| ==> shifted[i].reply == Some(got[i]))
    && (forall i :: |got| <= i < |shifted| ==> shifted[i].reply == None)
  }

  ghost predicate Conserved(s: State) {
    && !s.inCallback
    && ViewOk(s.reader)
    && s.log.accepted == Callbacks(s.log.shifted) + s.replies
    && s.log.ran == Invoked(s.log.shifted)
    && Matched(s.log.shifted, s.log.got)
    && s.log.got <= ParseStream(s.log.received).replies
    && s.log.sent + s.obuf == s.log.queued
  }

  // What was handed out and what the reader still holds are the replies in the bytes received,
  // and remain so whatever arrives next.
  ghost predicate InStep(got: seq<Reply>, reader: View, received: seq<byte>) {
    ViewOk(reader) && forall more: seq<byte> :: After(got, Drain(Feed(reader, more))) == ParseStream(received + more)
  }

  ghost predicate Synced(s: State) {
    InStep(s.log.got, s.reader, s.log.received)
  }

  ghost predicate Inv(s: State) {
    && Conserved(s)
    && (s.phase == Live ==>
          s.err.None? && !s.freeing && |s.log.got| == |s.log.shifted| && Synced(s))
    && (s.phase == Freed ==> s.replies == [])
  }

  lemma InStepNow(got: seq<Reply>, reader: View, received: seq<byte>)
    requires InStep(got, reader, received)
    ensures After(got, Drain(reader)) == ParseStream(received)
    ensures got <= ParseStream(received).replies
  {
    hide Drain, ParseStream;
    assert After(got, Drain(Feed(reader, []))) == ParseStream(received + []);
    assert received + [] == received;
    assert reader.st.unread + [] == reader.st.unread;
    assert Feed(reader, []) == reader;
  }

  lemma QueueConserves(s: State, r: State)
    requires Conserved(s) && MayQueue(s, r)
    ensures Conserved(r)
  {
    var replies := s.replies + r.replies[|s.replies|..];
    assert r.replies == replies;
    assert r.log.accepted == s.log.accepted + r.log.accepted[|s.log.accepted|..];
    assert r.obuf == s.obuf + r.obuf[|s.obuf|..];
    assert r.log.queued == s.log.queued + r.log.queued[|s.log.queued|..];
  }

  // Taking one callback off the list and running it.
  lemma ShiftAndRun(s: State, reply: Option<Reply>, user: User)
    requires Conserved(s) && s.replies != []
    requires reply.Some? ==>
               |s.log.got| == |s.log.shifted| && s.log.got + [reply.value] <= ParseStream(s.log.received).replies
    ensures var r := RunCallback(Shift(s, reply), s.replies[0], reply, user);
            && Conserved(r)
            && r.reader == s.reader && r.phase == s.phase && r.err == s.err && r.log.received == s.log.received
            && r.log.got == s.log.got + (if reply.Some? then [reply.value] else [])
            && |r.log.shifted| == |s.log.shifted| + 1
            && (Closed(s) ==> |r.replies| == |s.replies| - 1)
            && (Closed(s) ==> Closed(r))
            && (s.freeing ==> r.freeing) && (!s.replies[0].fn ==> r.freeing == s.freeing)
            && r.log.clean == s.log.clean && r.log.orphaned == s.log.orphaned
            && (Closed(s) ==> r.log.accepted == s.log.accepted && r.obuf == s.obuf)
            && (s.disconnecting ==> r.disconnecting)
  {
    hide RunCallback, Conserved, ParseStream;
    ShiftConserves(s, reply);
    NotInCallback(s);
    var s1 := Shift(s, reply);
    var r := RunCallback(s1, s.replies[0], reply, user);
    QueueConserves(s1.(log := s1.log.(ran := r.log.ran)), r);
  }

  lemma NotInCallback(s: State)
    requires Conserved(s)
    ensures !s.inCallback
  {
  }

  // The callback taken, and its function noted as run.
  lemma ShiftConserves(s: State, reply: Option<Reply>)
    requires Conserved(s) && s.replies != []
    requires reply.Some? ==>
               |s.log.got| == |s.log.shifted| && s.log.got + [reply.value] <= ParseStream(s.log.received).replies
    ensures var s1, cb := Shift(s, reply), s.replies[0];
            Conserved(s1.(log := s1.log.(ran := s.log.ran + if cb.fn then [Delivery(cb, reply)] else [])))
  {
    hide ParseStream;
    var cb := s.replies[0];
    var ds := s.log.shifted + [Delivery(cb, reply)];
    assert ds[..|s.log.shifted|] == s.log.shifted;
    assert Callbacks(ds) == Callbacks(s.log.shifted) + [cb];
    assert s.replies == [cb] + s.replies[1..];
  }

  lemma {:induction false} FreeInv(s: State, user: User)
    requires Conserved(s) && Closed(s)
    ensures var r := AsyncFree(s, user);
            && Inv(r) && r.phase == Freed && r.err == s.err && (s.freeing ==> r.freeing)
            && r.log.accepted == s.log.accepted && r.log.received == s.log.received
            && r.log.got == s.log.got && r.obuf == s.obuf && (s.disconnecting ==> r.disconnecting)
            && r.log.clean == s.log.clean && r.log.orphaned == s.log.orphaned
    decreases |s.replies|
  {
    if s.replies != [] {
      ShiftAndRun(s, None, user);
      FreeInv(RunCallback(Shift(s, None), s.replies[0], None, user), user);
    }
  }

  lemma DisconnectInv(s: State, user: User)
    requires Conserved(s) && (s.err.None? ==> Closed(s))
    ensures var r := AsyncDisconnect(s, user);
            && Inv(r) && r.phase == Freed && r.err == s.err
            && r.log.accepted == s.log.accepted && r.log.received == s.log.received
            && r.log.got == s.log.got && r.obuf == s.obuf && (s.disconnecting ==> r.disconnecting)
            && r.log.clean == (s.log.clean || s.err.None?)
            && r.log.orphaned == (s.log.orphaned || (s.err.None? && s.replies != []))
  {
    if s.err.None? {
      FreeInv(s.(log := s.log.(clean := true, orphaned := s.log.orphaned || s.replies != [])), user);
    } else {
      FreeInv(s.(disconnecting := true), user);
    }
  }

  // Taking the next reply from the reader keeps it in step with the bytes received.
  lemma NextReply(got: seq<Reply>, reader: View, received: seq<byte>)
    requires InStep(got, reader, received)
    ensures var (after, a) := GetReply(reader);
            && InStep(if a.Emit? then got + [a.reply] else got, after, received)
            && (a.Emit? ==> got + [a.reply] <= ParseStream(received).replies)
  {
    var (after, a) := GetReply(reader);
    var got' := if a.Emit? then got + [a.reply] else got;
    forall more: seq<byte>
      ensures After(got', Drain(Feed(after, more))) == ParseStream(received + more)
    {
      TakeThenFeed(got, reader, more);
      assert After(got, Drain(Feed(reader, more))) == ParseStream(received + more);
    }
    InStepNow(got', after, received);
  }

  lemma TakeThenFeed(got: seq<Reply>, reader: View, more: seq<byte>)
    requires ViewOk(reader)
    ensures var (after, a) := GetReply(reader);
            After(got, Drain(Feed(reader, more)))
              == After(if a.Emit? then got + [a.reply] else got, Drain(Feed(after, more)))
  {
    hide Drain, GetReply;
    GetReplyThenFeed(reader, more);
    var (after, a) := GetReply(reader);
    var first := if a.Emit? then [a.reply] else [];
    var rest := Drain(Feed(after, more));
    assert got + (first + rest.replies) == (got + first) + rest.replies;
    assert got + [] == got;
  }

  // Processing replies keeps the invariant, and a closing context whose output is all sent does
  // not outlive it.
  lemma {:induction false} ProcessInv(s: State, user: User)
    requires Inv(s) && s.phase == Live
    ensures Inv(ProcessCallbacks(s, user))
    ensures var r := ProcessCallbacks(s, user); r.phase == Live ==> !(r.disconnecting && r.obuf == [])
    decreases |s.reader.st.unread|
  {
    hide GetReply, Drain, ParseStream, Invoked, InStep, RunCallback;
    NextReply(s.log.got, s.reader, s.log.received);
    var (reader, a) := GetReply(s.reader);
    assert ViewOk(reader);
    var s1 := s.(reader := reader);
    match a
    case Refused(e) => DisconnectInv(s1.(err := Some(ProtocolError(e))), user);
    case Nothing =>
      if s1.disconnecting && s1.obuf == [] {
        DisconnectInv(s1, user);
      }
    case Emit(reply) =>
      if s1.replies == [] {
        if reply.Error? {
          DisconnectInv(s1.(err := Some(OtherError(reply.str))), user);
        }
      } else {
        ShiftAndRun(s1, Some(reply), user);
        var s2 := RunCallback(Shift(s1, Some(reply)), s1.replies[0], Some(reply), user);
        assert GetReply(s.reader).1.Emit?;
        if s1.replies[0].fn && s2.freeing {
          FreeInv(s2, user);
        } else {
          ShrinksOnEmit(s.reader);
          ProcessInv(s2, user);
        }
      }
  }

  lemma ShrinksOnEmit(r: View)
    requires ViewOk(r) && GetReply(r).1.Emit?
    ensures |GetReply(r).0.st.unread| < |r.st.unread|
  {
  }

  lemma FeedInStep(got: seq<Reply>, reader: View, received: seq<byte>, chunk: seq<byte>)
    requires InStep(got, reader, received) && reader.error.None?
    ensures InStep(got, Feed(reader, chunk), received + chunk)
  {
    hide Drain, ParseStream;
    forall more: seq<byte>
      ensures After(got, Drain(Feed(Feed(reader, chunk), more))) == ParseStream(received + chunk + more)
    {
      assert After(got, Drain(Feed(reader, chunk + more))) == ParseStream(received + (chunk + more));
      assert reader.st.unread + chunk + more == reader.st.unread + (chunk + more);
      assert received + chunk + more == received + (chunk + more);
    }
  }

  lemma FeedInv(s: State, chunk: seq<byte>)
    requires Inv(s) && s.phase == Live && s.reader.error.None?
    ensures Inv(s.(reader := Feed(s.reader, chunk), log := s.log.(received := s.log.received + chunk)))
  {
    hide Drain, ParseStream, Feed, InStep, Invoked;
    FeedInStep(s.log.got, s.reader, s.log.received, chunk);
    assert ViewOk(Feed(s.reader, chunk)) by {
      FeedViewOk(s.reader, chunk);
    }
    InStepNow(s.log.got, Feed(s.reader, chunk), s.log.received + chunk);
  }

  lemma FeedViewOk(r: View, chunk: seq<byte>)
    requires ViewOk(r)
    ensures ViewOk(Feed(r, chunk))
  {
  }

  lemma StepInv(s: State, e: Event, user: User)
    requires Inv(s)
    ensures Inv(Step(s, e, user))
  {
    hide Drain, ParseStream, Invoked, InStep, AsyncDisconnect, AsyncFree, ProcessCallbacks;
    if s.phase == Live {
      match e
      case Call(Command(cb, cmd)) => QueueConserves(s, AddCommand(s, cb, cmd));
      case Call(Disconnect) =>
        if s.replies == [] {
          DisconnectInv(s.(disconnecting := true), user);
        }
      case Call(Free) => FreeInv(s.(freeing := true), user);
      case Readable(Data(chunk)) =>
        if s.reader.error.Some? {
          DisconnectInv(s.(err := Some(ProtocolError(s.reader.error.value))), user);
        } else {
          FeedInv(s, chunk);
          ProcessInv(s.(reader := Feed(s.reader, chunk), log := s.log.(received := s.log.received + chunk)), user);
        }
      case Readable(Again) => ProcessInv(s, user);
      case Readable(Eof) => DisconnectInv(s.(err := Some(EofError)), user);
      case Readable(ReadFailed) => DisconnectInv(s.(err := Some(IoError)), user);
      case Writable(Wrote(n)) =>
        var k := if n <= |s.obuf| then n else |s.obuf|;
        assert s.obuf == s.obuf[..k] + s.obuf[k..];
        assert s.log.sent + s.obuf == (s.log.sent + s.obuf[..k]) + s.obuf[k..];
      case Writable(Blocked) =>
      case Writable(WriteFailed) => DisconnectInv(s.(err := Some(IoError)), user);
    }
  }

  function Run(events: seq<Event>, user: User): (s: State)
    ensures Inv(s)
  {
    if events == [] then
      StartInv();
      AsyncModel.INITIAL
    else
      var before := Run(events[..|events| - 1], user);
      StepInv(before, events[|events| - 1], user);
      Step(before, events[|events| - 1], user)
  }

  lemma StartInv()
    ensures Inv(AsyncModel.INITIAL)
  {
    hide Drain, ParseStream;
    var reader := AsyncModel.INITIAL.reader;
    forall more: seq<byte>
      ensures After([], Drain(Feed(reader, more))) == ParseStream([] + more)
    {
      assert [] + more == more;
      DrainIsParseStream(more);
      assert [] + Drain(Feed(reader, more)).replies == Drain(Feed(reader, more)).replies;
    }
    assert InStep([], reader, []);
  }

  // Over every run: the callbacks taken from the list are the accepted ones in order, none
  // twice; the n-th of them was given the n-th reply in the bytes received, or NULL at the free;
  // functions ran exactly for the non-null ones; and after the free none is left over.
  lemma EachCallbackOnceInOrder(events: seq<Event>, user: User)
    ensures var log := Run(events, user).log;
            && Callbacks(log.shifted) <= log.accepted
            && log.ran == Invoked(log.shifted)
            && (forall i :: 0 <= i < |log.shifted| && log.shifted[i].reply.Some? ==>
                  i < |ParseStream(log.received).replies|
                  && log.shifted[i] == Delivery(log.accepted[i], Some(ParseStream(log.received).replies[i])))
            && (Run(events, user).phase == Freed ==> Callbacks(log.shifted) == log.accepted)
  {
    var s := Run(events, user);
    var log := s.log;
    assert forall i :: 0 <= i < |log.shifted| ==> Callbacks(log.shifted)[i] == log.accepted[i];
  }

  // While the context lives every reply handed to the list has been delivered, so the number
  // of replies in the bytes received, less those still unread, is the number of callbacks served.
  lemma LiveCallbacksServed(events: seq<Event>, user: User)
    requires Run(events, user).phase == Live
    ensures var s := Run(events, user);
            && |s.log.shifted| + |Drain(s.reader).replies| == |ParseStream(s.log.received).replies|
            && |s.log.accepted| == |s.log.shifted| + |s.replies|
  {
    var s := Run(events, user);
    InStepNow(s.log.got, s.reader, s.log.received);
  }

  // Exactly the bytes of the accepted commands are sent, in order.
  lemma SentAreAcceptedCommands(events: seq<Event>, user: User)
    ensures var s := Run(events, user);
            s.log.sent + s.obuf == s.log.queued && s.log.sent <= s.log.queued
  {
  }

  // ---- Clean disconnects ----

  // A clean disconnect is one that ends without an error and without anybody asking for the free;
  // it finds callbacks waiting exactly when fewer replies have arrived than commands were accepted.
  ghost predicate Accounted(s: State) {
    && (s.log.clean ==> s.phase == Freed && s.err.None?)
    && (s.phase == Freed && s.err.None? && !s.freeing ==> s.log.clean)
    && (s.log.orphaned <==> s.log.clean && |ParseStream(s.log.received).replies| < |s.log.accepted|)
  }

  lemma DisconnectAccounts(s: State, user: User)
    requires Conserved(s) && (s.err.None? ==> Closed(s)) && !s.log.clean && !s.log.orphaned
    requires s.err.None? ==> (s.replies != [] <==> |ParseStream(s.log.received).replies| < |s.log.accepted|)
    ensures Accounted(AsyncDisconnect(s, user))
  {
    hide ParseStream, AsyncDisconnect, Conserved, Inv;
    DisconnectInv(s, user);
  }

  lemma {:induction false} ProcessAccounts(s: State, user: User)
    requires Inv(s) && s.phase == Live && !s.log.clean && !s.log.orphaned
    ensures Accounted(ProcessCallbacks(s, user))
    decreases |s.reader.st.unread|
  {
    hide GetReply, Drain, ParseStream, Invoked, InStep, RunCallback, AsyncFree, AsyncDisconnect;
    NextReply(s.log.got, s.reader, s.log.received);
    var (reader, a) := GetReply(s.reader);
    assert ViewOk(reader);
    var s1 := s.(reader := reader);
    match a
    case Refused(e) => DisconnectAccounts(s1.(err := Some(ProtocolError(e))), user);
    case Nothing =>
      if s1.disconnecting && s1.obuf == [] {
        AllTaken(s.log.got, s.reader, s.log.received);
        DisconnectAccounts(s1, user);
      }
    case Emit(reply) =>
      if s1.replies == [] {
        if reply.Error? {
          DisconnectAccounts(s1.(err := Some(OtherError(reply.str))), user);
        }
      } else {
        ShiftAndRun(s1, Some(reply), user);
        var s2 := RunCallback(Shift(s1, Some(reply)), s1.replies[0], Some(reply), user);
        assert GetReply(s.reader).1.Emit?;
        if s1.replies[0].fn && s2.freeing {
          FreeInv(s2, user);
        } else {
          ShrinksOnEmit(s.reader);
          ProcessAccounts(s2, user);
        }
      }
  }

  // With no reply to hand out, all replies received have been handed out.
  lemma AllTaken(got: seq<Reply>, reader: View, received: seq<byte>)
    requires InStep(got, reader, received) && GetReply(reader).1.Nothing?
    ensures got == ParseStream(received).replies
  {
    InStepNow(got, reader, received);
    hide ParseStream;
    assert got + [] == got;
  }

  lemma StepAccounts(s: State, e: Event, user: User)
    requires Inv(s) && Accounted(s)
    ensures Accounted(Step(s, e, user))
  {
    hide Drain, ParseStream, Invoked, InStep, AsyncDisconnect, AsyncFree, ProcessCallbacks;
    if s.phase == Live {
      match e
      case Call(Command(cb, cmd)) =>
      case Call(Disconnect) =>
        if s.replies == [] {
          DisconnectAccounts(s.(disconnecting := true), user);
        }
      case Call(Free) => FreeInv(s.(freeing := true), user);
      case Readable(Data(chunk)) =>
        if s.reader.error.Some? {
          DisconnectAccounts(s.(err := Some(ProtocolError(s.reader.error.value))), user);
        } else {
          FeedInv(s, chunk);
          ProcessAccounts(s.(reader := Feed(s.reader, chunk), log := s.log.(received := s.log.received + chunk)), user);
        }
      case Readable(Again) => ProcessAccounts(s, user);
      case Readable(Eof) => DisconnectAccounts(s.(err := Some(EofError)), user);
      case Readable(ReadFailed) => DisconnectAccounts(s.(err := Some(IoError)), user);
      case Writable(Wrote(n)) =>
      case Writable(Blocked) =>
      case Writable(WriteFailed) => DisconnectAccounts(s.(err := Some(IoError)), user);
    }
  }

  // Over every run, whatever the user does in callbacks: the assertion in __redisAsyncDisconnect
  // that no callback is waiting fails if and only if the context ended in a clean disconnect and
  // fewer replies had arrived than commands were accepted. A context that was freed with no error
  // and with nobody asking for the free ended in a clean disconnect.
  lemma {:induction false} CleanDisconnectOrphans(events: seq<Event>, user: User)
    ensures var s := Run(events, user);
            && (s.log.orphaned <==> s.log.clean && |ParseStream(s.log.received).replies| < |s.log.accepted|)
            && (s.log.clean ==> s.phase == Freed && s.err.None?)
            && (s.phase == Freed && s.err.None? && !s.freeing ==> s.log.clean)
  {
    hide ParseStream, Step, Inv;
    if events == [] {
      RunNothing(user);
    } else {
      var before := Run(events[..|events| - 1], user);
      CleanDisconnectOrphans(events[..|events| - 1], user);
      StepAccounts(before, events[|events| - 1], user);
    }
  }

  // A reader that has one reply left hands it out, and then nothing.
  lemma OneReplyLeft(r: View, reply: Reply)
    requires ViewOk(r) && Drain(r) == Stream([reply], None)
    ensures GetReply(r).1 == Emit(reply) && GetReply(GetReply(r).0).1 == Nothing
  {
    var (after, a) := GetReply(r);
    assert a.Emit? && Drain(r) == After([a.reply], Drain(after));
    assert [a.reply] + Drain(after).replies == [reply];
    assert ([a.reply] + Drain(after).replies)[0] == reply;
    assert Drain(after).replies == [] by {
      assert |[a.reply] + Drain(after).replies| == 1;
    }
    DrainNothing(after);
  }

  lemma DrainNothing(r: View)
    requires ViewOk(r) && Drain(r) == Stream([], None)
    ensures GetReply(r).1 == Nothing
  {
  }

  lemma RunNothing(user: User)
    ensures Run([], user) == AsyncModel.INITIAL
  {
  }

  lemma RunSnoc(events: seq<Event>, e: Event, user: User)
    ensures Run(events + [e], user) == Step(Run(events, user), e, user)
  {
    assert (events + [e])[..|events|] == events;
  }

  // *1 CR LF $4 CR LF PING CR LF
  const PING: seq<byte> := RespFormat.Encode([[80, 73, 78, 71]])

  // Two commands, and all of their bytes sent.
  function Sent(fn: bool): seq<Event> {
    [Call(Command(Callback(1, fn), PING)), Call(Command(Callback(2, fn), PING)), Writable(Wrote(2 * |PING|))]
  }

  lemma BothWaiting(fn: bool, user: User)
    ensures var s := Run(Sent(fn), user);
            && s.replies == [Callback(1, fn), Callback(2, fn)] && s.obuf == []
            && !s.freeing && s.phase == Live && s.err.None?
            && s.reader == AsyncModel.INITIAL.reader && s.log.received == [] && s.log.ran == []
  {
    hide Inv, AsyncDisconnect, AsyncFree, HandleRead, Run, RespFormat.Encode;
    RunNothing(user);
    var first, second, w := Sent(fn)[0], Sent(fn)[1], Sent(fn)[2];
    RunSnoc([], first, user);
    assert [] + [first] == [first];
    var s1 := Run([first], user);
    assert s1.obuf == PING by { assert [] + PING == PING; }
    RunSnoc([first], second, user);
    assert [first] + [second] == [first, second];
    var s2 := Run([first, second], user);
    assert s2.replies == [Callback(1, fn), Callback(2, fn)] && s2.obuf == PING + PING;
    RunSnoc([first, second], w, user);
    assert [first, second] + [w] == Sent(fn);
    assert (PING + PING)[2 * |PING|..] == [];
  }

  // One reply for two callbacks, and a context that closes with everything sent: the first is
  // served and the second is waiting when the "clean" disconnect frees.
  lemma OneReplyOrphans(s: State, reply: Reply, user: User)
    requires Inv(s) && s.phase == Live && |s.replies| == 2 && Drain(s.reader) == Stream([reply], None)
    requires var s1 := s.(reader := GetReply(s.reader).0);
             var r := RunCallback(Shift(s1, Some(reply)), s.replies[0], Some(reply), user);
             r.disconnecting && !r.freeing && r.obuf == []
    ensures ProcessCallbacks(s, user).log.orphaned
  {
    hide GetReply, Drain, ParseStream, InStep, RunCallback, AsyncDisconnect, ProcessCallbacks;
    OneReplyLeft(s.reader, reply);
    NextReply(s.log.got, s.reader, s.log.received);
    var s1 := s.(reader := GetReply(s.reader).0);
    ShiftAndRun(s1, Some(reply), user);
    ReplyServed(s, reply, user);
    var r := RunCallback(Shift(s1, Some(reply)), s.replies[0], Some(reply), user);
    NothingMore(r, user);
    DisconnectInv(r.(reader := GetReply(r.reader).0), user);
  }

  lemma ReplyServed(s: State, reply: Reply, user: User)
    requires !s.inCallback && s.replies != [] && ViewOk(s.reader) && GetReply(s.reader).1 == Emit(reply)
    ensures var s1 := s.(reader := GetReply(s.reader).0);
            var r := RunCallback(Shift(s1, Some(reply)), s.replies[0], Some(reply), user);
            !r.freeing ==> r.reader == s1.reader && ProcessCallbacks(s, user) == ProcessCallbacks(r, user)
  {
    hide GetReply, RunCallback;
  }

  lemma NothingMore(s: State, user: User)
    requires !s.inCallback && ViewOk(s.reader) && GetReply(s.reader).1 == Nothing && s.disconnecting && s.obuf == []
    ensures ProcessCallbacks(s, user) == AsyncDisconnect(s.(reader := GetReply(s.reader).0), user)
  {
    hide GetReply, AsyncDisconnect;
  }

  // The status reply + CR LF arrives.
  lemma AnswerArrives(s: State)
    requires Inv(s) && s.phase == Live && s.reader == AsyncModel.INITIAL.reader
    ensures var ok := EncodeReply(SimpleString([]));
            && Inv(s.(reader := Feed(s.reader, ok), log := s.log.(received := s.log.received + ok)))
            && !s.inCallback && ViewOk(Feed(s.reader, ok))
            && Drain(Feed(s.reader, ok)) == Stream([Status([])], None)
  {
    hide Drain, ParseStream, EncodeReply;
    var ok := EncodeReply(SimpleString([]));
    FeedInv(s, ok);
    assert [] + ok == ok;
    DrainIsParseStream(ok);
    StreamRoundTrip([SimpleString([])]);
    assert EncodeAll([SimpleString([])]) == ok + EncodeAll([]) == ok;
  }

  // The user disconnects, and the first of two replies arrives.
  lemma CleanDisconnectCanOrphan(user: User)
    ensures Run(Sent(false) + [Call(Disconnect)] + [Readable(Data(EncodeReply(SimpleString([]))))], user).log.orphaned
  {
    hide Drain, ParseStream, ProcessCallbacks, EncodeReply, Run, Inv, GetReply, Feed;
    var ok := EncodeReply(SimpleString([]));
    BothWaiting(false, user);
    RunSnoc(Sent(false), Call(Disconnect), user);
    var s := Run(Sent(false) + [Call(Disconnect)], user);
    RunSnoc(Sent(false) + [Call(Disconnect)], Readable(Data(ok)), user);
    AnswerArrives(s);
    OneReplyOrphans(s.(reader := Feed(s.reader, ok), log := s.log.(received := s.log.received + ok)), Status([]), user);
  }

  lemma CallbackDisconnects(s: State, cb: Callback, reply: Option<Reply>, user: User)
    requires !s.inCallback && cb.fn && user(|s.log.ran|) == [Disconnect]
    ensures var r := RunCallback(s, cb, reply, user); r.disconnecting && r.freeing == s.freeing && r.obuf == s.obuf
  {
    var inside := s.(inCallback := true);
    CallsSnoc(inside, [Disconnect], 0, user);
    assert [Disconnect][..1] == [Disconnect] && [Disconnect][..0] == [];
  }

  // The first of two replies arrives, and its callback disconnects.
  lemma DisconnectInCallbackCanOrphan(user: User)
    requires user(0) == [Disconnect]
    ensures Run(Sent(true) + [Readable(Data(EncodeReply(SimpleString([]))))], user).log.orphaned
  {
    hide Drain, ParseStream, ProcessCallbacks, EncodeReply, Run, Inv, GetReply, Feed;
    var ok := EncodeReply(SimpleString([]));
    BothWaiting(true, user);
    var s := Run(Sent(true), user);
    RunSnoc(Sent(true), Readable(Data(ok)), user);
    AnswerArrives(s);
    var fed := s.(reader := Feed(s.reader, ok), log := s.log.(received := s.log.received + ok));
    var s1 := fed.(reader := GetReply(fed.reader).0);
    CallbackDisconnects(Shift(s1, Some(Status([]))), s.replies[0], Some(Status([])), user);
    OneReplyOrphans(fed, Status([]), user);
  }
}
