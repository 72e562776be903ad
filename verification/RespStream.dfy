/** redisReaderFeed and redisReaderGetReply over values, and chunk independence: the replies a
    caller gets depend on the bytes alone, not on how they were cut into feeds. */
module RespStream {
  import opened Wrappers
  import opened Bytes
  import opened RespGrammar
  import opened RespMachine

  // An idle reader is the one whose root task has read nothing.
  datatype View = View(error: Option<ReaderError>, st: State)

  const INITIAL := View(None, Start([]))

  ghost predicate ViewOk(r: View) {
    Valid(r.st) && r.st.stack != []
  }

  datatype Answer = Refused(error: ReaderError) | Nothing | Emit(reply: Reply)

  function Feed(r: View, chunk: seq<byte>): View {
    if r.error.Some? then r else View(None, Extend(r.st, chunk))
  }

  function GetReply(r: View): (a: (View, Answer))
    requires ViewOk(r)
    ensures ViewOk(a.0)
    ensures a.1.Refused? ==> a.0.error == Some(a.1.error)
    ensures a.1.Emit? ==> r.error.None? && |a.0.st.unread| < |r.st.unread|
  {
    if r.error.Some? then (r, Refused(r.error.value))
    else
      match Run(r.st)
      case Broken(e) => (View(Some(e), Start([])), Refused(e))
      case Stopped(st) =>
        if st.stack == [] then (View(None, Start(st.unread)), Emit(st.reply.value))
        else (View(None, st), Nothing)
  }

  // All that repeated calls of GetReply still deliver, and the error they end with.
  function Drain(r: View): Stream
    requires ViewOk(r)
    decreases |r.st.unread|
  {
    if r.error.Some? then Stream([], r.error)
    else
      match Run(r.st)
      case Broken(e) => Stream([], Some(e))
      case Stopped(st) =>
        if st.stack == [] then After([st.reply.value], Drain(View(None, Start(st.unread)))) else Stream([], None)
  }

  function After(first: seq<Reply>, rest: Stream): Stream {
    Stream(first + rest.replies, rest.error)
  }

  lemma {:induction false} DrainIsParseStream(u: seq<byte>)
    ensures Drain(View(None, Start(u))) == ParseStream(u)
    decreases |u|
  {
    RootRefines(u);
    var p := ParseReply(u, 0);
    if p.Ok? {
      DrainIsParseStream(u[p.used..]);
    }
  }

  // Asking for a reply before more bytes arrive changes nothing in the stream.
  lemma GetReplyThenFeed(r: View, more: seq<byte>)
    requires ViewOk(r)
    ensures var (r', a) := GetReply(r);
            Drain(Feed(r, more)) == After(if a.Emit? then [a.reply] else [], Drain(Feed(r', more)))
  {
    if r.error.None? {
      RunExtend(r.st, more);
    }
    var rest := Drain(Feed(GetReply(r).0, more));
    assert [] + rest.replies == rest.replies;
  }

  datatype Call = FeedCall(chunk: seq<byte>) | GetReplyCall

  // The bytes a list of calls offers to the reader.
  function Offered(calls: seq<Call>): seq<byte> {
    if calls == [] then []
    else
      var last := calls[|calls| - 1];
      Offered(calls[..|calls| - 1]) + if last.FeedCall? then last.chunk else []
  }

  // The reader after the calls, and the replies they emitted.
  function Exec(calls: seq<Call>): (e: (View, seq<Reply>))
    ensures ViewOk(e.0)
  {
    if calls == [] then (INITIAL, [])
    else
      var (r, out) := Exec(calls[..|calls| - 1]);
      match calls[|calls| - 1]
      case FeedCall(chunk) => (Feed(r, chunk), out)
      case GetReplyCall =>
        var (r', a) := GetReply(r);
        (r', if a.Emit? then out + [a.reply] else out)
  }

  lemma {:induction false} ExecThenFeed(calls: seq<Call>, more: seq<byte>)
    ensures var (r, out) := Exec(calls);
            After(out, Drain(Feed(r, more))) == ParseStream(Offered(calls) + more)
  {
    hide Drain, Run, ParseStream;
    if calls == [] {
      assert [] + more == more;
      DrainIsParseStream(more);
      assert [] + ParseStream(more).replies == ParseStream(more).replies;
    } else {
      var before := calls[..|calls| - 1];
      var (r, out) := Exec(before);
      match calls[|calls| - 1]
      case FeedCall(chunk) =>
        ExecThenFeed(before, chunk + more);
        assert Offered(calls) + more == Offered(before) + (chunk + more);
        assert r.st.unread + chunk + more == r.st.unread + (chunk + more);
      case GetReplyCall =>
        ExecThenFeed(before, more);
        assert Offered(calls) == Offered(before);
        GetReplyThenFeed(r, more);
        var (r', a) := GetReply(r);
        if a.Emit? {
          assert (out + [a.reply]) + Drain(Feed(r', more)).replies == out + ([a.reply] + Drain(Feed(r', more)).replies);
        } else {
          assert [] + Drain(Feed(r', more)).replies == Drain(Feed(r', more)).replies;
        }
    }
  }

  // Whatever was called so far, the replies handed out are the first of those in the bytes
  // offered, and once GetReply has nothing to hand out they are all of them, with the same error.
  lemma ChunkIndependence(calls: seq<Call>)
    ensures var (r, out) := Exec(calls);
            var whole := ParseStream(Offered(calls));
            && out <= whole.replies
            && (!GetReply(r).1.Emit? ==> out == whole.replies && GetReply(r).0.error == whole.error)
  {
    var (r, out) := Exec(calls);
    ExecThenFeed(calls, []);
    assert Offered(calls) + [] == Offered(calls);
    assert Feed(r, []) == r by {
      assert r.st.unread + [] == r.st.unread;
    }
    if !GetReply(r).1.Emit? {
      assert out + [] == out;
    }
  }

  // Two callers that cut the same bytes differently and drained their readers saw the same replies
  // and the same error, or both none.
  lemma SameBytesSameReplies(a: seq<Call>, b: seq<Call>)
    requires Offered(a) == Offered(b)
    requires !GetReply(Exec(a).0).1.Emit? && !GetReply(Exec(b).0).1.Emit?
    ensures Exec(a).1 == Exec(b).1
    ensures GetReply(Exec(a).0).1 == GetReply(Exec(b).0).1
  {
    ChunkIndependence(a);
    ChunkIndependence(b);
  }
}
