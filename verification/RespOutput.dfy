/** The output buffer of a blocking context, and what a peer can read from the socket. */
module RespOutput {
  import opened Bytes
  import RespEncoding
  import RespFormat
  import RespGrammar
  import RespMachine
  import RespStream
  import Sds

  // What one send does: nothing yet, an error, or it takes some bytes.
  datatype Send = WouldBlock | Failed | Took(n: nat)

  class Output {
    var obuf: Sds.Buffer
    var err: bool
    ghost var sent: seq<byte>
    ghost var commands: seq<seq<seq<byte>>>

    // Every byte of the commands has been sent or waits in the buffer, in order.
    ghost predicate Valid()
      reads this, obuf, obuf.buf
    {
      obuf.Valid() && sent + obuf.Contents() == RespFormat.Pipeline(commands)
    }

    constructor ()
      ensures Valid() && fresh(obuf) && fresh(obuf.buf) && !err && commands == [] && sent == []
    {
      obuf := new Sds.Buffer([]);
      err, sent, commands := false, [], [];
    }

    // redisAppendCommandArgv. The length it is told is that of the command only if an int holds it.
    method AppendCommandArgv(argv: seq<seq<byte>>)
      requires Valid() && |RespFormat.Encode(argv)| <= RespEncoding.INT_MAX
      modifies this`commands, obuf, obuf.buf
      ensures Valid() && commands == old(commands) + [argv]
      ensures obuf.buf == old(obuf.buf) || fresh(obuf.buf)
    {
      hide RespFormat.Encode, RespFormat.Pipeline;
      var cmd, totlen := RespFormat.FormatCommandArgv(argv);
      PipelineSnoc(commands, argv);
      Append(cmd[..totlen]);
      commands := commands + [argv];
    }

    // __redisAppendCommand
    method Append(cmd: seq<byte>)
      requires obuf.Valid()
      modifies obuf, obuf.buf
      ensures obuf.Valid() && sent + obuf.Contents() == old(sent + obuf.Contents()) + cmd
      ensures obuf.buf == old(obuf.buf) || fresh(obuf.buf)
    {
      obuf.CatLen(cmd);
    }

    // redisBufferWrite with the outcome of its send: what the socket took is sent, and the rest of
    // the buffer stays to be sent.
    method BufferWrite(send: Send) returns (ok: bool, done: bool)
      requires Valid()
      requires send.Took? ==> send.n <= obuf.len
      modifies this`obuf, this`err, this`sent, obuf, obuf.buf
      ensures Valid() && old(sent) <= sent && (obuf == old(obuf) || fresh(obuf))
      ensures var n := if !old(err) && old(obuf.len) > 0 && send.Took? then send.n else 0;
              sent == old(sent) + old(obuf.Contents())[..n] && obuf.Contents() == old(obuf.Contents())[n..]
      ensures ok ==> done == (sent == RespFormat.Pipeline(commands))
      ensures ok <==> !old(err) && (old(obuf.len) > 0 ==> !send.Failed?)
      ensures err <==> !ok
    {
      hide RespFormat.Pipeline;
      ghost var was := obuf.Contents();
      assert was[..0] == [] && was[0..] == was && sent + [] == sent;
      done := false;
      if err {
        return false, done;
      }
      ghost var all := RespFormat.Pipeline(commands);
      if obuf.len > 0 {
        match send
        case WouldBlock =>
        case Failed =>
          err := true;
          return false, done;
        case Took(n) =>
          if n > 0 {
            ghost var contents := obuf.Contents();
            sent := sent + contents[..n];
            Sds.RangeDrops(contents, n);
            assert sent + contents[n..] == all;
            if n == obuf.len {
              obuf := new Sds.Buffer([]);
            } else {
              obuf.KeepRange(n, -1);
            }
          }
      }
      done := obuf.len == 0;
      ok := true;
    }
  }

  lemma {:induction false} PipelineSnoc(commands: seq<seq<seq<byte>>>, argv: seq<seq<byte>>)
    ensures RespFormat.Pipeline(commands + [argv]) == RespFormat.Pipeline(commands) + RespFormat.Encode(argv)
  {
    if commands == [] {
      assert [argv][1..] == [];
    } else {
      PipelineSnoc(commands[1..], argv);
      assert (commands + [argv])[1..] == commands[1..] + [argv];
    }
  }

  // However the bytes sent so far are cut up on their way, a reader at the other end gets the
  // first of the commands, whole and in order; when all are sent and read, it has them all.
  lemma PeerReads(commands: seq<seq<seq<byte>>>, calls: seq<RespStream.Call>)
    requires forall i :: 0 <= i < |commands| ==> RespFormat.Sized(commands[i])
    requires RespStream.Offered(calls) <= RespFormat.Pipeline(commands)
    ensures RespStream.Exec(calls).1 <= RespFormat.Commands(commands)
    ensures !RespStream.GetReply(RespStream.Exec(calls).0).1.Refused?
    ensures RespStream.Offered(calls) == RespFormat.Pipeline(commands)
         && !RespStream.GetReply(RespStream.Exec(calls).0).1.Emit?
         ==> RespStream.Exec(calls).1 == RespFormat.Commands(commands)
  {
    hide RespFormat.Pipeline, RespGrammar.ParseStream, RespStream.Exec, RespStream.Offered, RespMachine.Run;
    var whole, offered := RespFormat.Pipeline(commands), RespStream.Offered(calls);
    var rest := whole[|offered|..];
    var (r, out) := RespStream.Exec(calls);
    RespFormat.PipelineRoundTrip(commands);
    RespStream.ExecThenFeed(calls, rest);
    assert offered + rest == whole;
    RespStream.GetReplyThenFeed(r, rest);
    RespStream.ChunkIndependence(calls);
  }
}
