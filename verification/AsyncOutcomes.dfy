/** How the life of an async context goes on and ends: what each event does to a live one, that
    all replies are served at once, what its error means, and that a clean disconnect waits for
    the output to be sent. */
module AsyncOutcomes {
  import opened Wrappers
  import opened Bytes
  import opened RespGrammar
  import opened RespStream
  import opened AsyncModel
  import opened AsyncProofs

  // ---- A clean disconnect waits for the output ----

  // When the arrival of replies makes the disconnect happen, everything was sent.
  lemma {:induction false} CleanWaits(s: State, user: User)
    requires Inv(s) && s.phase == Live && !s.log.clean
    ensures var r := ProcessCallbacks(s, user);
            r.log.clean ==> r.obuf == [] && r.log.sent == r.log.queued && r.disconnecting
    decreases |s.reader.st.unread|
  {
    hide GetReply, Drain, ParseStream, Invoked, InStep, RunCallback, AsyncFree, AsyncDisconnect;
    NextReply(s.log.got, s.reader, s.log.received);
    var (reader, a) := GetReply(s.reader);
    assert ViewOk(reader);
    var s1 := s.(reader := reader);
    match a
    case Refused(e) => DisconnectInv(s1.(err := Some(ProtocolError(e))), user);
    case Nothing =>
      if s1.disconnecting && s1.obuf == [] {
        DisconnectInv(s1, user);
        AllSent(AsyncDisconnect(s1, user));
      }
    case Emit(reply) =>
      if s1.replies == [] {
        if reply.Error? {
          DisconnectInv(s1.(err := Some(OtherError(reply.str))), user);
        }
      } else {
        ShiftAndRun(s1, Some(reply), user);
        var s2 := RunCallback(Shift(s1, Some(reply)), s1.replies[0], Some(reply), user);
        if s1.replies[0].fn && s2.freeing {
          FreeInv(s2, user);
        } else {
          ShrinksOnEmit(s.reader);
          CleanWaits(s2, user);
        }
      }
  }

  lemma AllSent(s: State)
    requires Conserved(s) && s.obuf == []
    ensures s.log.sent == s.log.queued
  {
    assert s.log.sent + [] == s.log.sent;
  }

  // Over every run: a clean disconnect that an arrival of replies made happen, whoever asked for
  // it, has sent every command that was accepted.
  lemma CleanDisconnectHasSent(events: seq<Event>, input: Input, user: User)
    ensures var before, s := Run(events, user), Run(events + [Readable(input)], user);
            !before.log.clean && s.log.clean ==> s.obuf == [] && s.log.sent == s.log.queued && s.disconnecting
  {
    hide ParseStream, Drain, Inv, ProcessCallbacks, AsyncDisconnect, Run;
    RunSnoc(events, Readable(input), user);
    var before := Run(events, user);
    if before.phase == Live && !before.log.clean {
      ReadableCleanWaits(before, input, user);
    }
  }

  lemma ReadableCleanWaits(s: State, input: Input, user: User)
    requires Inv(s) && s.phase == Live && !s.log.clean
    ensures var r := HandleRead(s, input, user);
            r.log.clean ==> r.obuf == [] && r.log.sent == r.log.queued && r.disconnecting
  {
    hide Drain, ParseStream, Invoked, InStep, AsyncDisconnect, ProcessCallbacks;
    match input
    case Data(chunk) =>
      if s.reader.error.Some? {
        DisconnectInv(s.(err := Some(ProtocolError(s.reader.error.value))), user);
      } else {
        FeedInv(s, chunk);
        CleanWaits(s.(reader := Feed(s.reader, chunk), log := s.log.(received := s.log.received + chunk)), user);
      }
    case Again => CleanWaits(s, user);
    case Eof => DisconnectInv(s.(err := Some(EofError)), user);
    case ReadFailed => DisconnectInv(s.(err := Some(IoError)), user);
  }

  // Until the output is sent and the replies are in, a disconnect asked for with callbacks waiting
  // leaves the context as it is.
  lemma DisconnectPending(events: seq<Event>, user: User)
    requires var s := Run(events, user); s.phase == Live && s.replies != []
    ensures Run(events + [Call(Disconnect)], user) == Run(events, user).(disconnecting := true)
  {
    hide Run;
    RunSnoc(events, Call(Disconnect), user);
  }

  // ---- What the events of the program and the failures of the socket do ----

  ghost predicate Ends(r: State, err: Option<ContextError>) {
    r.phase == Freed && r.replies == [] && r.err == err
  }

  // Of a live context. Callbacks that still wait are told NULL, as the invariant says.
  lemma StepOutcome(s: State, e: Event, user: User)
    requires Inv(s) && s.phase == Live
    ensures var r := Step(s, e, user);
            && (e == Call(Free) ==> Ends(r, None))
            && (e == Call(Disconnect) && s.replies == [] ==> Ends(r, None) && r.log.clean)
            && (e == Call(Disconnect) && s.replies != [] ==> r == s.(disconnecting := true))
            && (e == Readable(Eof) ==> Ends(r, Some(EofError)))
            && (e == Readable(ReadFailed) ==> Ends(r, Some(IoError)))
            && (e == Writable(WriteFailed) ==> if s.obuf == [] then r == s else Ends(r, Some(IoError)))
            && (e == Writable(Blocked) ==> r == s)
  {
    hide Drain, ParseStream, Invoked, InStep, AsyncDisconnect, AsyncFree, ProcessCallbacks;
    match e
    case Call(Free) => FreeInv(s.(freeing := true), user);
    case Call(Disconnect) =>
      if s.replies == [] {
        DisconnectInv(s.(disconnecting := true), user);
      }
    case Readable(Eof) => DisconnectInv(s.(err := Some(EofError)), user);
    case Readable(ReadFailed) => DisconnectInv(s.(err := Some(IoError)), user);
    case Writable(WriteFailed) =>
      if s.obuf != [] {
        DisconnectInv(s.(err := Some(IoError)), user);
      }
    case _ =>
  }

  // A command is taken until the disconnect is asked for, by callbacks as well.
  lemma CommandOutcome(s: State, cb: Callback, cmd: seq<byte>, user: User)
    requires Inv(s) && s.phase == Live
    ensures var r := Step(s, Call(Command(cb, cmd)), user);
            if s.disconnecting then r == s
            else
              && r.phase == Live && r.replies == s.replies + [cb] && r.obuf == s.obuf + cmd
              && r.log.accepted == s.log.accepted + [cb]
  {
  }

  // The callbacks and the bytes of the commands before the first closing call.
  function Asked(calls: seq<UserCall>): (seq<Callback>, seq<byte>) {
    if calls == [] || !calls[0].Command? then ([], [])
    else
      var (cbs, bytes) := Asked(calls[1..]);
      ([calls[0].cb] + cbs, calls[0].cmd + bytes)
  }

  lemma {:induction false} AskedSnoc(calls: seq<UserCall>, call: UserCall)
    ensures var (cbs, bytes) := Asked(calls);
            Asked(calls + [call]) ==
              if call.Command? && Disconnect !in calls && Free !in calls then (cbs + [call.cb], bytes + call.cmd)
              else (cbs, bytes)
  {
    if calls == [] {
      assert calls + [call] == [call] && [call][1..] == [];
      if call.Command? {
        assert Asked([call]) == ([call.cb] + [], call.cmd + []);
        assert [] + [call.cb] == [call.cb] + [] && [] + call.cmd == call.cmd + [];
      }
    } else {
      assert (calls + [call])[1..] == calls[1..] + [call] && calls == [calls[0]] + calls[1..];
      AskedSnoc(calls[1..], call);
      var (cbs, bytes) := Asked(calls[1..]);
      if calls[0].Command? && call.Command? {
        assert [calls[0].cb] + (cbs + [call.cb]) == ([calls[0].cb] + cbs) + [call.cb];
        assert calls[0].cmd + (bytes + call.cmd) == (calls[0].cmd + bytes) + call.cmd;
      } else if !calls[0].Command? {
        assert calls[0] in calls;
      }
    }
  }

  ghost predicate Leaves(s: State, calls: seq<UserCall>, r: State) {
    && r.freeing == (s.freeing || Free in calls)
    && r.disconnecting == (s.disconnecting || Disconnect in calls)
    && r.replies == s.replies + (if Closed(s) then [] else Asked(calls).0)
    && r.obuf == s.obuf + (if Closed(s) then [] else Asked(calls).1)
  }

  lemma LeavesSnoc(s: State, calls: seq<UserCall>, r: State, call: UserCall, user: User)
    requires s.inCallback && r.inCallback && Leaves(s, calls, r)
    ensures Leaves(s, calls + [call], Api(r, call, user))
  {
    hide Asked, AsyncFree, AsyncDisconnect;
    AskedSnoc(calls, call);
    match call
    case Disconnect =>
    case Free =>
    case Command(cb, cmd) =>
      var (cbs, bytes) := Asked(calls);
      if !Closed(r) {
        assert (s.replies + cbs) + [cb] == s.replies + (cbs + [cb]);
        assert (s.obuf + bytes) + cmd == s.obuf + (bytes + cmd);
      }
  }

  // What a callback's calls leave behind: each flag is set if and only if its call was made, and
  // the commands taken are those before the first closing call.
  lemma {:induction false} CallbackCommands(s: State, calls: seq<UserCall>, user: User)
    requires s.inCallback
    ensures var r := Calls(s, calls, user);
            && r.freeing == (s.freeing || Free in calls)
            && r.disconnecting == (s.disconnecting || Disconnect in calls)
            && r.replies == s.replies + (if Closed(s) then [] else Asked(calls).0)
            && r.obuf == s.obuf + (if Closed(s) then [] else Asked(calls).1)
    decreases |calls|
  {
    hide Api;
    if calls == [] {
      assert s.replies + [] == s.replies && s.obuf + [] == s.obuf;
    } else {
      var init, last := calls[..|calls| - 1], calls[|calls| - 1];
      CallbackCommands(s, init, user);
      LeavesSnoc(s, init, Calls(s, init, user), last, user);
      assert calls == init + [last];
    }
  }

  lemma {:induction false} FreeEnds(s: State, user: User)
    requires !s.inCallback && Closed(s)
    ensures var r := AsyncFree(s, user);
            Ends(r, s.err) && r.log.clean == s.log.clean
    decreases |s.replies|
  {
    hide RunCallback;
    if s.replies != [] {
      FreeEnds(RunCallback(Shift(s, None), s.replies[0], None, user), user);
    }
  }

  lemma RunFlags(s: State, cb: Callback, reply: Option<Reply>, user: User)
    requires !s.inCallback && cb.fn
    ensures var r := RunCallback(s, cb, reply, user);
            && r.freeing == (s.freeing || Free in user(|s.log.ran|))
            && r.phase == s.phase && r.err == s.err && r.log.clean == s.log.clean
  {
    hide Calls, MayQueue;
    CallbackCommands(s.(inCallback := true), user(|s.log.ran|), user);
    KeepsPhase(s.(inCallback := true), user(|s.log.ran|), user);
  }

  lemma KeepsPhase(s: State, calls: seq<UserCall>, user: User)
    requires s.inCallback
    ensures var r := Calls(s, calls, user);
            r.phase == s.phase && r.err == s.err && r.log.clean == s.log.clean
  {
    hide Calls;
    var r := Calls(s, calls, user);
    assert MayQueue(s, r);
  }

  // A free asked for inside a callback happens when the callback returns, and only then.
  lemma FreeInCallback(s: State, reply: Reply, user: User)
    requires Inv(s) && s.phase == Live && s.replies != [] && s.replies[0].fn
    ensures var (r, more) := Deliver(s, reply, user);
            && more != (Free in user(|s.log.ran|))
            && (if more then r.phase == Live else Ends(r, None)) && r.log.clean == s.log.clean
  {
    hide Drain, ParseStream, Invoked, InStep, AsyncFree, RunCallback;
    var s1 := Shift(s, Some(reply));
    RunFlags(s1, s.replies[0], Some(reply), user);
    var s2 := RunCallback(s1, s.replies[0], Some(reply), user);
    if s2.freeing {
      FreeEnds(s2, user);
    }
  }

  // What the socket takes is what was first in the output.
  lemma WriteOutcome(s: State, n: nat, user: User)
    requires Inv(s) && s.phase == Live
    ensures var r := Step(s, Writable(Wrote(n)), user);
            var k := if n <= |s.obuf| then n else |s.obuf|;
            && r.phase == Live && r.replies == s.replies
            && r.log.sent == s.log.sent + s.obuf[..k] && r.obuf == s.obuf[k..]
  {
    assert s.log.sent + s.obuf[..0] == s.log.sent && s.obuf[0..] == s.obuf;
  }

  // ---- Replies are served at once, and errors mean what they say ----

  // The next reply in the bytes received, behind those that were handed out.
  ghost predicate NextIs(s: State, isError: bool) {
    && |s.log.accepted| == |s.log.got| < |ParseStream(s.log.received).replies|
    && ParseStream(s.log.received).replies[|s.log.got|].Error? == isError
  }

  ghost predicate Explained(s: State) {
    && ViewOk(s.reader)
    && (s.phase == Live ==> Drain(s.reader) == Stream([], None))
    && (s.err.Some? ==> s.phase == Freed)
    && (s.err.Some? && s.err.value.ProtocolError? ==>
          ParseStream(s.log.received) == Stream(s.log.got, Some(s.err.value.error)))
    && (s.err.Some? && s.err.value.OtherError? ==>
          NextIs(s, true) && s.err.value.text == ParseStream(s.log.received).replies[|s.log.got|].str)
    && (s.phase == Unsolicited ==> NextIs(s, false))
  }

  lemma NothingLeft(r: View)
    requires ViewOk(r)
    ensures var (after, a) := GetReply(r);
            && (a.Nothing? ==> Drain(after) == Stream([], None))
            && (a.Refused? ==> Drain(after) == Stream([], Some(a.error)))
  {
    TakeThenFeed([], r, []);
    var (after, a) := GetReply(r);
    if a.Nothing? {
      FeedNothing(r);
      FeedNothing(after);
    }
  }

  lemma FeedNothing(r: View)
    requires ViewOk(r)
    ensures Feed(r, []) == r
  {
    assert r.st.unread + [] == r.st.unread;
  }

  lemma {:induction false} ProcessExplained(s: State, user: User)
    requires Inv(s) && s.phase == Live
    ensures Explained(ProcessCallbacks(s, user))
    decreases |s.reader.st.unread|
  {
    hide GetReply, Drain, ParseStream, Invoked, InStep, RunCallback, AsyncFree, AsyncDisconnect;
    NextReply(s.log.got, s.reader, s.log.received);
    NothingLeft(s.reader);
    var (reader, a) := GetReply(s.reader);
    assert ViewOk(reader);
    var s1 := s.(reader := reader);
    match a
    case Refused(e) =>
      DisconnectInv(s1.(err := Some(ProtocolError(e))), user);
      InStepNow(s.log.got, reader, s.log.received);
      assert s.log.got + [] == s.log.got;
    case Nothing =>
      if s1.disconnecting && s1.obuf == [] {
        DisconnectInv(s1, user);
      }
    case Emit(reply) =>
      if s1.replies == [] {
        NextUnserved(s1, reply);
        if reply.Error? {
          DisconnectInv(s1.(err := Some(OtherError(reply.str))), user);
        }
      } else {
        ShiftAndRun(s1, Some(reply), user);
        var s2 := RunCallback(Shift(s1, Some(reply)), s1.replies[0], Some(reply), user);
        if s1.replies[0].fn && s2.freeing {
          FreeInv(s2, user);
        } else {
          ShrinksOnEmit(s.reader);
          ProcessExplained(s2, user);
        }
      }
  }

  // With no callback waiting, the reply that arrives is the next one unserved.
  lemma NextUnserved(s: State, reply: Reply)
    requires Conserved(s) && s.replies == [] && |s.log.got| == |s.log.shifted|
    requires s.log.got + [reply] <= ParseStream(s.log.received).replies
    ensures NextIs(s, reply.Error?) && ParseStream(s.log.received).replies[|s.log.got|] == reply
  {
    hide ParseStream;
    assert (s.log.got + [reply])[|s.log.got|] == reply;
  }

  lemma StepExplained(s: State, e: Event, user: User)
    requires Inv(s) && Explained(s)
    ensures Explained(Step(s, e, user))
  {
    hide Drain, ParseStream, Invoked, InStep, AsyncDisconnect, AsyncFree, ProcessCallbacks;
    if s.phase == Live {
      NoErrorLeft(s.reader);
      match e
      case Call(Command(cb, cmd)) =>
      case Call(Disconnect) =>
        if s.replies == [] {
          DisconnectInv(s.(disconnecting := true), user);
        }
      case Call(Free) => FreeInv(s.(freeing := true), user);
      case Readable(Data(chunk)) =>
        FeedInv(s, chunk);
        ProcessExplained(s.(reader := Feed(s.reader, chunk), log := s.log.(received := s.log.received + chunk)), user);
      case Readable(Again) => ProcessExplained(s, user);
      case Readable(Eof) => DisconnectInv(s.(err := Some(EofError)), user);
      case Readable(ReadFailed) => DisconnectInv(s.(err := Some(IoError)), user);
      case Writable(Wrote(n)) =>
      case Writable(Blocked) =>
      case Writable(WriteFailed) => DisconnectInv(s.(err := Some(IoError)), user);
    }
  }

  lemma NoErrorLeft(r: View)
    requires ViewOk(r) && Drain(r) == Stream([], None)
    ensures r.error.None?
  {
  }

  lemma {:induction false} RunExplained(events: seq<Event>, user: User)
    ensures Explained(Run(events, user))
  {
    hide Step, Inv, Explained;
    if events == [] {
      RunNothing(user);
      StartExplained();
    } else {
      RunExplained(events[..|events| - 1], user);
      StepExplained(Run(events[..|events| - 1], user), events[|events| - 1], user);
    }
  }

  lemma StartExplained()
    ensures Explained(AsyncModel.INITIAL)
  {
    DrainIsParseStream([]);
  }

  // Over every run: while the context lives, every whole reply in the bytes received was given to
  // its callback, and there is no error in them.
  lemma RepliesServedAtOnce(events: seq<Event>, user: User)
    ensures var s := Run(events, user);
            s.phase == Live ==> ParseStream(s.log.received) == Stream(s.log.got, None) && |s.log.got| == |s.log.shifted|
  {
    hide ParseStream, Drain;
    RunExplained(events, user);
    var s := Run(events, user);
    if s.phase == Live {
      InStepNow(s.log.got, s.reader, s.log.received);
      assert s.log.got + [] == s.log.got;
    }
  }

  // Over every run: a protocol error is the one in the bytes received, behind the replies served;
  // any other error text is that of an error reply that came with no callback waiting; and when a
  // reply that is no error comes so, the run is at the assertion that fails for it.
  lemma ErrorsMean(events: seq<Event>, user: User)
    ensures var s := Run(events, user);
            && (s.err.Some? && s.err.value.ProtocolError? ==>
                  ParseStream(s.log.received) == Stream(s.log.got, Some(s.err.value.error)))
            && (s.err.Some? && s.err.value.OtherError? ==>
                  NextIs(s, true) && s.err.value.text == ParseStream(s.log.received).replies[|s.log.got|].str)
            && (s.phase == Unsolicited ==> NextIs(s, false))
            && (s.err.Some? ==> s.phase == Freed)
  {
    hide ParseStream, Drain;
    RunExplained(events, user);
  }
}
