/** The callback protocol of redisAsyncContext over values: regular commands, replies as the
    reader delivers them, callbacks that call back into the API, and the deferred free.

    Assertions are taken as compiled out; where one would fail, the log says so. */
module AsyncModel {
  import opened Wrappers
  import opened Bytes
  import opened RespGrammar
  import RespStream

  // `fn` is false for a NULL function pointer.
  datatype Callback = Callback(id: nat, fn: bool)

  // What callback code may do with the context it is given.
  datatype UserCall = Command(cb: Callback, cmd: seq<byte>) | Disconnect | Free

  // An arbitrary program: the calls that the n-th callback invocation makes.
  type User = nat -> seq<UserCall>

  // A callback taken from the list, and the reply it got (None when the context was freed first).
  datatype Delivery = Delivery(cb: Callback, reply: Option<Reply>)

  datatype ContextError = IoError | EofError | OtherError(text: seq<byte>) | ProtocolError(error: ReaderError)

  // Unsolicited: a reply that is no error arrived while no callback was waiting.
  datatype Phase = Live | Freed | Unsolicited

  // What happened so far.
  datatype Log = Log(
    accepted: seq<Callback>,   // callbacks of accepted commands, in order
    shifted: seq<Delivery>,    // callbacks taken from the list, in order
    ran: seq<Delivery>,        // callback functions invoked, in order
    got: seq<Reply>,           // replies handed to the callback list
    received: seq<byte>,       // bytes read from the socket
    queued: seq<byte>,         // bytes of accepted commands
    sent: seq<byte>,           // bytes written to the socket
    clean: bool,               // the free was begun by a clean disconnect
    orphaned: bool)            // a clean disconnect found callbacks waiting

  datatype State = State(
    disconnecting: bool,
    freeing: bool,
    inCallback: bool,
    err: Option<ContextError>,
    reader: RespStream.View,
    obuf: seq<byte>,
    replies: seq<Callback>,
    phase: Phase,
    log: Log)

  const INITIAL := State(false, false, false, None, RespStream.INITIAL, [], [], Live,
                         Log([], [], [], [], [], [], [], false, false))

  predicate Closed(s: State) {
    s.disconnecting || s.freeing
  }

  // What a callback may have changed: the closing flags, and commands queued while open.
  predicate MayQueue(s: State, r: State) {
    && r == s.(disconnecting := r.disconnecting, freeing := r.freeing, replies := r.replies, obuf := r.obuf,
               log := s.log.(accepted := r.log.accepted, queued := r.log.queued))
    && (s.disconnecting ==> r.disconnecting) && (s.freeing ==> r.freeing)
    && s.replies <= r.replies && s.log.accepted <= r.log.accepted
    && r.log.accepted[|s.log.accepted|..] == r.replies[|s.replies|..]
    && s.obuf <= r.obuf && s.log.queued <= r.log.queued
    && r.log.queued[|s.log.queued|..] == r.obuf[|s.obuf|..]
    && (Closed(s) ==> r.replies == s.replies && r.log.accepted == s.log.accepted
                      && r.obuf == s.obuf && r.log.queued == s.log.queued)
  }

  // __redisAsyncCommand for a regular command.
  function AddCommand(s: State, cb: Callback, cmd: seq<byte>): (r: State)
    ensures MayQueue(s, r)
  {
    if Closed(s) then s
    else s.(replies := s.replies + [cb], obuf := s.obuf + cmd,
            log := s.log.(accepted := s.log.accepted + [cb], queued := s.log.queued + cmd))
  }

  // The API as the user sees it. Inside a callback the closing calls only set their flag.
  function Api(s: State, call: UserCall, user: User): (r: State)
    ensures s.inCallback ==> MayQueue(s, r)
    decreases if s.inCallback then 0 else 5, 0
  {
    match call
    case Command(cb, cmd) => AddCommand(s, cb, cmd)
    case Disconnect =>
      var s1 := s.(disconnecting := true);
      if !s1.inCallback && s1.replies == [] then AsyncDisconnect(s1, user) else s1
    case Free =>
      var s1 := s.(freeing := true);
      if !s1.inCallback then AsyncFree(s1, user) else s1
  }

  function Calls(s: State, calls: seq<UserCall>, user: User): (r: State)
    requires s.inCallback
    ensures MayQueue(s, r)
    decreases 1, |calls|
  {
    if calls == [] then s
    else
      var before := Calls(s, calls[..|calls| - 1], user);
      Api(before, calls[|calls| - 1], user)
  }

  // __redisRunCallback
  function RunCallback(s: State, cb: Callback, reply: Option<Reply>, user: User): (r: State)
    requires !s.inCallback
    ensures !r.inCallback
    ensures MayQueue(s.(log := s.log.(ran := r.log.ran)), r)
    ensures !cb.fn ==> r == s
    ensures r.log.ran == s.log.ran + if cb.fn then [Delivery(cb, reply)] else []
    decreases 2, 0
  {
    if !cb.fn then s
    else
      var inside := Calls(s.(inCallback := true), user(|s.log.ran|), user);
      inside.(inCallback := false, log := inside.log.(ran := inside.log.ran + [Delivery(cb, reply)]))
  }

  // __redisShiftCallback, noting what the callback is about to be given.
  function Shift(s: State, reply: Option<Reply>): State
    requires s.replies != []
  {
    s.(replies := s.replies[1..], log := s.log.(shifted := s.log.shifted + [Delivery(s.replies[0], reply)],
                                                got := s.log.got + if reply.Some? then [reply.value] else []))
  }

  // __redisAsyncFree
  function AsyncFree(s: State, user: User): State
    requires !s.inCallback && Closed(s)
    decreases 3, |s.replies|
  {
    if s.replies == [] then s.(phase := Freed)
    else AsyncFree(RunCallback(Shift(s, None), s.replies[0], None, user), user)
  }

  lemma CallsSnoc(s: State, calls: seq<UserCall>, i: nat, user: User)
    requires s.inCallback && i < |calls|
    ensures Calls(s, calls[..i + 1], user) == Api(Calls(s, calls[..i], user), calls[i], user)
  {
    assert calls[..i + 1][..i] == calls[..i];
  }

  // __redisAsyncDisconnect
  function AsyncDisconnect(s: State, user: User): State
    requires !s.inCallback && (s.err.None? ==> Closed(s))
    decreases 4, 0
  {
    if s.err.None? then
      AsyncFree(s.(log := s.log.(clean := true, orphaned := s.log.orphaned || s.replies != [])), user)
    else AsyncFree(s.(disconnecting := true), user)
  }

  // The part of redisProcessCallbacks that handles one reply; true when the loop goes on.
  function Deliver(s: State, reply: Reply, user: User): (r: (State, bool))
    requires !s.inCallback && RespStream.ViewOk(s.reader)
    ensures r.1 ==> !r.0.inCallback && r.0.reader == s.reader
  {
    if s.replies == [] then
      (if reply.Error? then AsyncDisconnect(s.(err := Some(OtherError(reply.str))), user)
       else s.(phase := Unsolicited), false)
    else
      var cb := s.replies[0];
      var s2 := RunCallback(Shift(s, Some(reply)), cb, Some(reply), user);
      if cb.fn && s2.freeing then (AsyncFree(s2, user), false) else (s2, true)
  }

  // redisProcessCallbacks
  function ProcessCallbacks(s: State, user: User): State
    requires !s.inCallback && RespStream.ViewOk(s.reader)
    decreases |s.reader.st.unread|
  {
    var (reader, answer) := RespStream.GetReply(s.reader);
    var s1 := s.(reader := reader);
    match answer
    case Refused(e) => AsyncDisconnect(s1.(err := Some(ProtocolError(e))), user)
    case Nothing => if s1.disconnecting && s1.obuf == [] then AsyncDisconnect(s1, user) else s1
    case Emit(reply) =>
      var (s2, more) := Deliver(s1, reply, user);
      if more then ProcessCallbacks(s2, user) else s2
  }

  datatype Input = Data(chunk: seq<byte>) | Again | Eof | ReadFailed
  datatype Output = Wrote(n: nat) | Blocked | WriteFailed

  // redisAsyncHandleRead on a connected context.
  function HandleRead(s: State, input: Input, user: User): State
    requires !s.inCallback && RespStream.ViewOk(s.reader)
  {
    match input
    case Data(chunk) =>
      if s.err.Some? then AsyncDisconnect(s, user)
      else if s.reader.error.Some? then AsyncDisconnect(s.(err := Some(ProtocolError(s.reader.error.value))), user)
      else ProcessCallbacks(s.(reader := RespStream.Feed(s.reader, chunk),
                               log := s.log.(received := s.log.received + chunk)), user)
    case Again => if s.err.Some? then AsyncDisconnect(s, user) else ProcessCallbacks(s, user)
    case Eof => AsyncDisconnect(if s.err.Some? then s else s.(err := Some(EofError)), user)
    case ReadFailed => AsyncDisconnect(if s.err.Some? then s else s.(err := Some(IoError)), user)
  }

  // redisAsyncHandleWrite on a connected context; the socket takes any prefix.
  function HandleWrite(s: State, output: Output, user: User): State
    requires !s.inCallback
  {
    if s.err.Some? then AsyncDisconnect(s, user)
    else if s.obuf == [] then s
    else
      match output
      case Wrote(n) =>
        var k := if n <= |s.obuf| then n else |s.obuf|;
        s.(obuf := s.obuf[k..], log := s.log.(sent := s.log.sent + s.obuf[..k]))
      case Blocked => s
      case WriteFailed => AsyncDisconnect(s.(err := Some(IoError)), user)
  }

  datatype Event = Call(call: UserCall) | Readable(input: Input) | Writable(output: Output)

  // Events reach the context only while it exists.
  function Step(s: State, e: Event, user: User): State
    requires !s.inCallback && RespStream.ViewOk(s.reader)
  {
    if s.phase != Live then s
    else
      match e
      case Call(call) => Api(s, call, user)
      case Readable(input) => HandleRead(s, input, user)
      case Writable(output) => HandleWrite(s, output, user)
  }
}
