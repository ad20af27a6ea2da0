/** One client connection: requests are drained from what was read, replies queued and written. */
module SessionModel {
  import opened ByteStrings
  import opened RespCodec
  import opened RespParser
  import opened RespReplies

  /** The most one read delivers. */
  const READ_BUFFER: nat := 8192

  /** What executing a command does: to everything behind the connection, and in reply. */
  datatype Outcome<W> = Outcome(world: W, reply: Reply, close: bool)

  /** The server behind a connection: every command handler, as one function, and the wording of
      the complaints. The world holds the database, the negotiated protocol version, the clock and
      whatever else a handler looks at. */
  datatype Server<!W> = Server(dispatch: (W, seq<Bytes>) -> Outcome<W>, wording: ProtocolError -> Bytes)

  /** `pendingReads` and `pendingWrites` count what has been started and has not completed. `sent`,
      `commands` and `replies` record what went out, what was dispatched and what was queued;
      `tripped` records that the input limit was hit. */
  datatype SessionState<W> = SessionState(
    world: W, input: Bytes, output: seq<Bytes>, closeAfterWrite: bool,
    pendingReads: nat, pendingWrites: nat, closed: bool, tripped: bool,
    sent: Bytes, commands: seq<seq<Bytes>>, replies: seq<Reply>)

  function Start<W>(world: W): SessionState<W> {
    SessionState(world, [], [], false, 1, 0, false, false, [], [], [])
  }

  /** A reply is queued; if the queue was empty, one more write starts. */
  function Enqueue<W>(s: SessionState<W>, reply: Reply, close: bool): SessionState<W> {
    s.(output := s.output + [EncodeReply(reply)], replies := s.replies + [reply],
       closeAfterWrite := s.closeAfterWrite || close,
       pendingWrites := if s.output == [] then s.pendingWrites + 1 else s.pendingWrites)
  }

  function Executed<W>(d: Server<W>, s: SessionState<W>, arguments: seq<Bytes>, consumed: nat)
    : SessionState<W>
    requires consumed <= |s.input|
  {
    var outcome := d.dispatch(s.world, arguments);
    Enqueue(s.(input := s.input[consumed..], world := outcome.world, commands := s.commands + [arguments]),
            outcome.reply, outcome.close)
  }

  function Processed<W>(d: Server<W>, s: SessionState<W>): SessionState<W>
    decreases |s.input|
  {
    if s.input == [] || s.closeAfterWrite then s
    else
      match Parse(s.input)
      case Incomplete => s
      case Error(e) => Enqueue(s, Refusal(d.wording(e)), true)
      case Complete(arguments, consumed) =>
        ParseConsumes(s.input);
        Processed(d, Executed(d, s, arguments, consumed))
  }

  /** A read has completed and its bytes are in the buffer. */
  function Filled<W>(s: SessionState<W>, chunk: Bytes): SessionState<W>
    requires s.pendingReads > 0
  {
    s.(input := s.input + chunk, pendingReads := s.pendingReads - 1)
  }

  function AfterRead<W>(d: Server<W>, s: SessionState<W>, chunk: Bytes): SessionState<W>
    requires s.pendingReads > 0
  {
    var filled := Filled(s, chunk);
    if |filled.input| > MAX_INPUT then
      Enqueue(filled, Refusal(d.wording(InputLimitExceeded)), true).(tripped := true)
    else
      var processed := Processed(d, filled);
      if processed.closeAfterWrite then processed else processed.(pendingReads := processed.pendingReads + 1)
  }

  function AfterWrite<W>(s: SessionState<W>): SessionState<W>
    requires s.output != [] && s.pendingWrites > 0
  {
    var rest := s.output[1..];
    s.(sent := s.sent + s.output[0], output := rest,
       pendingWrites := if rest != [] then s.pendingWrites else s.pendingWrites - 1,
       closed := s.closed || (rest == [] && s.closeAfterWrite))
  }

  // ----- The class -----

  class Session<W> {
    const server: Server<W>
    var world: W
    var input: Bytes
    var output: seq<Bytes>
    var closeAfterWrite: bool
    var closed: bool
    ghost var pendingReads: nat
    ghost var pendingWrites: nat
    ghost var tripped: bool
    ghost var sent: Bytes
    ghost var commands: seq<seq<Bytes>>
    ghost var replies: seq<Reply>

    ghost function State(): SessionState<W>
      reads this
    {
      SessionState(world, input, output, closeAfterWrite, pendingReads, pendingWrites, closed, tripped,
                   sent, commands, replies)
    }

    constructor (server: Server<W>, world: W)
      ensures this.server == server && State() == Start(world)
    {
      this.server, this.world := server, world;
      input, output := [], [];
      closeAfterWrite, closed, pendingReads, pendingWrites := false, false, 1, 0;
      tripped, sent, commands, replies := false, [], [], [];
    }

    method Queue(reply: Reply, close: bool)
      modifies this
      ensures State() == Enqueue(old(State()), reply, close)
    {
      hide EncodeReply;
      var writing := output != [];
      output := output + [EncodeReply(reply)];
      closeAfterWrite := closeAfterWrite || close;
      replies := replies + [reply];
      if !writing {
        Write();
      }
    }

    /** A read of the socket is started; `OnRead` is called when it completes. */
    method Read()
      modifies this`pendingReads
      ensures pendingReads == old(pendingReads) + 1
    {
      pendingReads := pendingReads + 1;
    }

    /** A write of the first queued reply is started; `OnWritten` is called when it completes. */
    method Write()
      requires output != []
      modifies this`pendingWrites
      ensures pendingWrites == old(pendingWrites) + 1
    {
      pendingWrites := pendingWrites + 1;
    }

    method Process()
      modifies this
      ensures State() == Processed(server, old(State()))
    {
      hide Parse, EncodeReply;
      while input != [] && !closeAfterWrite
        invariant Processed(server, State()) == Processed(server, old(State()))
        decreases |input|
      {
        var parsed := ParseCommand(input);
        match parsed {
          case Incomplete =>
            return;
          case Error(e) =>
            Queue(Refusal(server.wording(e)), true);
            return;
          case Complete(arguments, consumed) =>
            ParseConsumes(input);
            var outcome := server.dispatch(world, arguments);
            input, world := input[consumed..], outcome.world;
            commands := commands + [arguments];
            Queue(outcome.reply, outcome.close);
        }
      }
    }

    /** A read completed with `chunk`. */
    method OnRead(chunk: Bytes)
      requires pendingReads > 0
      modifies this
      ensures State() == AfterRead(server, old(State()), chunk)
    {
      hide Processed, EncodeReply;
      input, pendingReads := input + chunk, pendingReads - 1;
      if |input| > MAX_INPUT {
        Queue(Refusal(server.wording(InputLimitExceeded)), true);
        tripped := true;
        return;
      }
      Process();
      if !closeAfterWrite {
        Read();
      }
    }

    /** The write of the first queued reply completed. */
    method OnWritten()
      requires output != [] && pendingWrites > 0
      modifies this
      ensures State() == AfterWrite(old(State()))
    {
      pendingWrites, sent := pendingWrites - 1, sent + output[0];
      output := output[1..];
      if output != [] {
        Write();
      } else if closeAfterWrite {
        closed := true;
      }
    }
  }
}
