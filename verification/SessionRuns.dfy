/** What holds of a connection over every run, however the bytes arrive. */
module SessionRuns {
  import opened ByteStrings
  import opened RespCodec
  import opened RespGrammar
  import opened RespReplies
  import opened RespClient
  import opened SessionModel

  // ----- One pass over a whole stream -----

  /** How far a stream of requests has been dealt with, and what is left of it. */
  datatype Trace<W> = Trace(world: W, commands: seq<seq<Bytes>>, replies: seq<Reply>, close: bool, rest: Bytes)

  /** A trace with more bytes to come. */
  function Longer<W>(t: Trace<W>, y: Bytes): Trace<W> {
    t.(rest := t.rest + y)
  }

  function Dispatched<W>(d: Server<W>, t: Trace<W>, arguments: seq<Bytes>, rest: Bytes): Trace<W> {
    var outcome := d.dispatch(t.world, arguments);
    Trace(outcome.world, t.commands + [arguments], t.replies + [outcome.reply], outcome.close, rest)
  }

  /** Deals with all complete requests, up to the first protocol error or closing command. */
  function Drain<W>(d: Server<W>, t: Trace<W>): Trace<W>
    decreases |t.rest|
  {
    if t.close then t
    else
      match Parse(t.rest)
      case Incomplete => t
      case Error(e) => t.(replies := t.replies + [Refusal(d.wording(e))], close := true)
      case Complete(arguments, consumed) =>
        ParseConsumes(t.rest);
        Drain(d, Dispatched(d, t, arguments, t.rest[consumed..]))
  }

  /** What a stream does when all of it is there at once. */
  function OnePass<W>(d: Server<W>, world: W, stream: Bytes): Trace<W> {
    Drain(d, Trace(world, [], [], false, stream))
  }

  /** Bytes that come later change nothing that was done before them. */
  lemma {:induction false} DrainSplit<W>(d: Server<W>, t: Trace<W>, y: Bytes)
    requires !t.close
    ensures Drain(d, Longer(t, y)) ==
            if Drain(d, t).close then Longer(Drain(d, t), y) else Drain(d, Longer(Drain(d, t), y))
    decreases |t.rest|
  {
    hide Parse;
    if !Parse(t.rest).Incomplete? {
      ParseStable(t.rest, y);
    }
    if Parse(t.rest).Complete? {
      var arguments, consumed := Parse(t.rest).arguments, Parse(t.rest).consumed;
      ParseConsumes(t.rest);
      assert (t.rest + y)[consumed..] == t.rest[consumed..] + y;
      var next := Dispatched(d, t, arguments, t.rest[consumed..]);
      assert Drain(d, Longer(t, y)) == Drain(d, Longer(next, y));
      if !next.close {
        DrainSplit(d, next, y);
      }
    }
  }

  /** A session seen as a trace. */
  function View<W>(s: SessionState<W>): Trace<W> {
    Trace(s.world, s.commands, s.replies, s.closeAfterWrite, s.input)
  }

  lemma {:induction false} ProcessedIsDrain<W>(d: Server<W>, s: SessionState<W>)
    requires !s.closeAfterWrite
    ensures View(Processed(d, s)) == Drain(d, View(s))
    ensures var p := Processed(d, s);
            p.pendingReads == s.pendingReads && p.closed == s.closed && p.tripped == s.tripped
    decreases |s.input|
  {
    hide Parse, EncodeReply;
    if s.input == [] {
      EmptyIsIncomplete();
    } else {
      match Parse(s.input)
      case Incomplete =>
      case Error(_) =>
      case Complete(arguments, consumed) =>
        ParseConsumes(s.input);
        var next := Executed(d, s, arguments, consumed);
        if !next.closeAfterWrite {
          ProcessedIsDrain(d, next);
        }
    }
  }

  lemma EmptyIsIncomplete()
    ensures Parse([]) == Incomplete
  {}

  // ----- Runs -----

  /** A read delivers a chunk, or a write completes. */
  datatype Step = Chunk(bytes: Bytes) | Written

  predicate Enabled<W>(s: SessionState<W>, step: Step) {
    match step
    case Chunk(bytes) => s.pendingReads > 0 && 1 <= |bytes| <= READ_BUFFER
    case Written => s.pendingWrites > 0 && s.output != []
  }

  function Next<W>(d: Server<W>, s: SessionState<W>, step: Step): SessionState<W>
    requires Enabled(s, step)
  {
    match step
    case Chunk(bytes) => AfterRead(d, s, bytes)
    case Written => AfterWrite(s)
  }

  predicate CanRun<W>(d: Server<W>, s: SessionState<W>, steps: seq<Step>)
    decreases |steps|, 0
  {
    steps == [] || (CanRun(d, s, steps[..|steps| - 1])
                    && Enabled(Run(d, s, steps[..|steps| - 1]), steps[|steps| - 1]))
  }

  function Run<W>(d: Server<W>, s: SessionState<W>, steps: seq<Step>): SessionState<W>
    requires CanRun(d, s, steps)
    decreases |steps|, 1
  {
    if steps == [] then s else Next(d, Run(d, s, steps[..|steps| - 1]), steps[|steps| - 1])
  }

  /** The bytes a run has read. */
  function Received(steps: seq<Step>): Bytes {
    if steps == [] then []
    else
      var before := Received(steps[..|steps| - 1]);
      match steps[|steps| - 1]
      case Chunk(bytes) => before + bytes
      case Written => before
  }

  /** One write is in flight when something is queued, and none otherwise; what went out and what is queued are,
      byte for byte, the replies in the order of dispatch. Reading stops for good when close is
      requested, and the connection is closed just when then everything has gone out. */
  predicate QueueOk<W>(s: SessionState<W>) {
    && s.pendingWrites == (if s.output == [] then 0 else 1)
    && s.sent + Concat(s.output) == EncodeReplies(s.replies)
    && (s.closed <==> s.closeAfterWrite && s.output == [])
  }

  lemma {:induction false} EncodeRepliesAppend(xs: seq<Reply>, ys: seq<Reply>)
    ensures EncodeReplies(xs + ys) == EncodeReplies(xs) + EncodeReplies(ys)
  {
    if xs == [] {
      assert xs + ys == ys;
    } else {
      assert (xs + ys)[1..] == xs[1..] + ys;
      EncodeRepliesAppend(xs[1..], ys);
    }
  }

  lemma EnqueueKeepsQueue<W>(s: SessionState<W>, reply: Reply, close: bool)
    requires QueueOk(s) && !s.closeAfterWrite
    ensures QueueOk(Enqueue(s, reply, close))
  {
    hide EncodeReply;
    ConcatSnoc(s.output, EncodeReply(reply));
    EncodeRepliesAppend(s.replies, [reply]);
    assert EncodeReplies([reply]) == EncodeReply(reply) + EncodeReplies([]);
  }

  lemma {:induction false} ProcessedKeepsQueue<W>(d: Server<W>, s: SessionState<W>)
    requires QueueOk(s) && !s.closeAfterWrite
    ensures QueueOk(Processed(d, s))
    decreases |s.input|
  {
    hide Parse, QueueOk, EncodeReply;
    if s.input != [] {
      match Parse(s.input)
      case Incomplete =>
      case Error(e) => EnqueueKeepsQueue(s, Refusal(d.wording(e)), true);
      case Complete(arguments, consumed) =>
        ParseConsumes(s.input);
        var outcome := d.dispatch(s.world, arguments);
        var fed := s.(input := s.input[consumed..], world := outcome.world,
                      commands := s.commands + [arguments]);
        SameQueue(s, fed);
        EnqueueKeepsQueue(fed, outcome.reply, outcome.close);
        if !outcome.close {
          ProcessedKeepsQueue(d, Executed(d, s, arguments, consumed));
        }
    }
  }

  lemma SameQueue<W>(s: SessionState<W>, t: SessionState<W>)
    requires QueueOk(s) && t.pendingWrites == s.pendingWrites && t.output == s.output && t.sent == s.sent
    requires t.replies == s.replies && t.closed == s.closed && t.closeAfterWrite == s.closeAfterWrite
    ensures QueueOk(t)
  {}

  lemma WrittenKeepsQueue<W>(s: SessionState<W>)
    requires QueueOk(s) && s.output != [] && s.pendingWrites > 0
    ensures QueueOk(AfterWrite(s))
  {
    assert s.sent + Concat(s.output) == s.sent + s.output[0] + Concat(s.output[1..]);
  }

  /** The state of a run, told from the bytes it has received. */
  ghost predicate RunOk<W>(d: Server<W>, world: W, received: Bytes, s: SessionState<W>) {
    && QueueOk(s) && ReadOk(s) && (s.tripped ==> s.closeAfterWrite)
    && (!s.tripped ==> View(s) == OnePass(d, world, received))
  }

  /** One read is in flight until close is requested, and none afterwards. */
  predicate ReadOk<W>(s: SessionState<W>) {
    s.pendingReads == if s.closeAfterWrite then 0 else 1
  }

  lemma ReadKeepsQueue<W>(d: Server<W>, s: SessionState<W>, chunk: Bytes)
    requires QueueOk(s) && ReadOk(s) && !s.closeAfterWrite && !s.tripped
    ensures var t := AfterRead(d, s, chunk);
            QueueOk(t) && ReadOk(t) && (t.tripped ==> t.closeAfterWrite)
  {
    hide EncodeReply, QueueOk, Processed;
    var filled := Filled(s, chunk);
    SameQueue(s, filled);
    EnqueueKeepsQueue(filled, Refusal(d.wording(InputLimitExceeded)), true);
    ProcessedKeepsQueue(d, filled);
    ProcessedIsDrain(d, filled);
    var t := AfterRead(d, s, chunk);
    if |filled.input| > MAX_INPUT {
      SameQueue(Enqueue(filled, Refusal(d.wording(InputLimitExceeded)), true), t);
    } else {
      SameQueue(Processed(d, filled), t);
    }
  }

  /** A chunk that does not trip the limit takes the trace of the bytes so far to that of all. */
  lemma ReadFollowsTrace<W>(d: Server<W>, world: W, received: Bytes, s: SessionState<W>, chunk: Bytes)
    requires RunOk(d, world, received, s) && s.pendingReads > 0 && !AfterRead(d, s, chunk).tripped
    ensures View(AfterRead(d, s, chunk)) == OnePass(d, world, received + chunk)
  {
    hide EncodeReply, QueueOk, Processed, Drain;
    DrainSplit(d, Trace(world, [], [], false, received), chunk);
    ProcessedIsDrain(d, Filled(s, chunk));
  }

  lemma {:induction false} RunIsOk<W>(d: Server<W>, world: W, steps: seq<Step>)
    requires CanRun(d, Start(world), steps)
    ensures RunOk(d, world, Received(steps), Run(d, Start(world), steps))
  {
    hide QueueOk, AfterRead, AfterWrite, OnePass;
    if steps == [] {
      StartIsOk(d, world);
    } else {
      var n := |steps| - 1;
      RunIsOk(d, world, steps[..n]);
      var s := Run(d, Start(world), steps[..n]);
      match steps[n]
      case Chunk(bytes) =>
        ReadKeepsQueue(d, s, bytes);
        if !AfterRead(d, s, bytes).tripped {
          ReadFollowsTrace(d, world, Received(steps[..n]), s, bytes);
        }
      case Written =>
        WrittenIsOk(d, world, Received(steps[..n]), s);
    }
  }

  lemma StartIsOk<W>(d: Server<W>, world: W)
    ensures RunOk(d, world, [], Start(world))
  {
    EmptyIsIncomplete();
  }

  lemma WrittenIsOk<W>(d: Server<W>, world: W, received: Bytes, s: SessionState<W>)
    requires RunOk(d, world, received, s) && s.output != [] && s.pendingWrites > 0
    ensures RunOk(d, world, received, AfterWrite(s))
  {
    hide OnePass;
    WrittenKeepsQueue(s);
  }

  // ----- Main results -----

  /** Write-queue safety, over every run: at most one write is in flight, exactly when something is
      queued; the bytes sent are a prefix of the replies in dispatch order; the connection is closed
      only after close was requested and all replies have gone out, and then at once; and one read is
      in flight exactly until close is requested, so that nothing is queued after that. */
  lemma WriteQueueSafety<W>(d: Server<W>, world: W, steps: seq<Step>)
    requires CanRun(d, Start(world), steps)
    ensures var s := Run(d, Start(world), steps);
            && s.pendingWrites <= 1 && (s.pendingWrites == 1 <==> s.output != [])
            && s.sent <= EncodeReplies(s.replies)
            && s.sent + Concat(s.output) == EncodeReplies(s.replies)
            && (s.closed <==> s.closeAfterWrite && s.sent == EncodeReplies(s.replies))
            && s.pendingReads <= 1 && (s.pendingReads == 1 <==> !s.closeAfterWrite)
  {
    RunIsOk(d, world, steps);
    var s := Run(d, Start(world), steps);
    if s.closeAfterWrite {
      NothingEmptyQueued(d, world, steps);
    }
  }

  /** Every queued reply has at least one byte, so an empty queue is one whose bytes are all sent. */
  predicate NoEmpty(parts: seq<Bytes>) {
    forall i :: 0 <= i < |parts| ==> parts[i] != []
  }

  lemma ReplyNotEmpty(r: Reply)
    ensures EncodeReply(r) != []
  {}

  lemma {:induction false} ProcessedNoEmpty<W>(d: Server<W>, s: SessionState<W>)
    requires NoEmpty(s.output)
    ensures NoEmpty(Processed(d, s).output)
    decreases |s.input|
  {
    hide Parse, EncodeReply;
    if s.input != [] && !s.closeAfterWrite {
      match Parse(s.input)
      case Incomplete =>
      case Error(e) => ReplyNotEmpty(Refusal(d.wording(e)));
      case Complete(arguments, consumed) =>
        ParseConsumes(s.input);
        ReplyNotEmpty(d.dispatch(s.world, arguments).reply);
        ProcessedNoEmpty(d, Executed(d, s, arguments, consumed));
    }
  }

  lemma {:induction false} NothingEmptyQueued<W>(d: Server<W>, world: W, steps: seq<Step>)
    requires CanRun(d, Start(world), steps)
    ensures NoEmpty(Run(d, Start(world), steps).output)
  {
    hide EncodeReply, Processed;
    if steps != [] {
      var n := |steps| - 1;
      NothingEmptyQueued(d, world, steps[..n]);
      var s := Run(d, Start(world), steps[..n]);
      match steps[n]
      case Chunk(bytes) =>
        ReplyNotEmpty(Refusal(d.wording(InputLimitExceeded)));
        ProcessedNoEmpty(d, Filled(s, bytes));
      case Written =>
    }
  }

  lemma {:induction false} PrefixRuns<W>(d: Server<W>, s: SessionState<W>, steps: seq<Step>, n: nat)
    requires CanRun(d, s, steps) && n <= |steps|
    ensures CanRun(d, s, steps[..n])
  {
    hide Enabled;
    if n < |steps| {
      var m := |steps| - 1;
      PrefixRuns(d, s, steps[..m], n);
      assert steps[..m][..n] == steps[..n];
    } else {
      assert steps[..n] == steps;
    }
  }

  /** Once close is requested nothing is dispatched or queued any more, whatever follows. */
  lemma {:induction false} NothingQueuedAfterClose<W>(d: Server<W>, world: W, steps: seq<Step>, n: nat)
    requires CanRun(d, Start(world), steps) && n <= |steps| && CanRun(d, Start(world), steps[..n])
    requires Run(d, Start(world), steps[..n]).closeAfterWrite
    ensures var s, t := Run(d, Start(world), steps[..n]), Run(d, Start(world), steps);
            t.closeAfterWrite && t.replies == s.replies && t.commands == s.commands && t.world == s.world
  {
    hide QueueOk, OnePass, AfterRead;
    if n < |steps| {
      var m := |steps| - 1;
      assert steps[..m][..n] == steps[..n];
      NothingQueuedAfterClose(d, world, steps[..m], n);
      RunIsOk(d, world, steps[..m]);
      assert steps[m].Written?;
    } else {
      assert steps[..n] == steps;
    }
  }

  /** Chunk independence. However a stream is cut into reads and however writes come in between,
      once all of it has been read, or the session has stopped reading, the commands dispatched, the
      replies queued and the world left behind are those of one pass over the whole stream. */
  lemma ChunkIndependence<W>(d: Server<W>, world: W, stream: Bytes, steps: seq<Step>)
    requires CanRun(d, Start(world), steps) && Received(steps) <= stream
    requires var s := Run(d, Start(world), steps);
             !s.tripped && (Received(steps) == stream || s.closeAfterWrite)
    ensures var s, t := Run(d, Start(world), steps), OnePass(d, world, stream);
            && s.commands == t.commands && s.replies == t.replies && s.world == t.world
            && s.closeAfterWrite == t.close
  {
    hide QueueOk, Drain, Run;
    RunIsOk(d, world, steps);
    var received := Received(steps);
    DrainSplit(d, Trace(world, [], [], false, received), stream[|received|..]);
    assert received + stream[|received|..] == stream;
  }

  // ----- The world behind the connection -----

  /** What no command ends: `inv` speaks of the world, of the commands dispatched so far and of the
      replies to them. */
  ghost predicate KeptByCommands<W(!new)>(d: Server<W>, inv: (W, seq<seq<Bytes>>, seq<Reply>) -> bool) {
    forall w, commands, replies, arguments :: inv(w, commands, replies) && Encodable(arguments) ==>
      var outcome := d.dispatch(w, arguments);
      inv(outcome.world, commands + [arguments], replies + [outcome.reply])
  }

  /** The replies to the commands; one more may be a complaint about the input. */
  ghost predicate Keeping<W>(inv: (W, seq<seq<Bytes>>, seq<Reply>) -> bool, s: SessionState<W>) {
    && |s.commands| <= |s.replies| && (!s.closeAfterWrite ==> |s.commands| == |s.replies|)
    && inv(s.world, s.commands, s.replies[..|s.commands|])
  }

  lemma ComplaintKeeps<W>(inv: (W, seq<seq<Bytes>>, seq<Reply>) -> bool, s: SessionState<W>, text: Bytes)
    requires Keeping(inv, s)
    ensures Keeping(inv, Enqueue(s, Refusal(text), true))
  {
    assert (s.replies + [Refusal(text)])[..|s.commands|] == s.replies[..|s.commands|];
  }

  lemma {:induction false} ProcessedKeeps<W(!new)>(d: Server<W>, inv: (W, seq<seq<Bytes>>, seq<Reply>) -> bool,
                                                  s: SessionState<W>)
    requires KeptByCommands(d, inv) && Keeping(inv, s)
    ensures Keeping(inv, Processed(d, s))
    decreases |s.input|
  {
    hide Parse, EncodeReply, Encodable;
    if s.input != [] && !s.closeAfterWrite {
      match Parse(s.input)
      case Incomplete =>
      case Error(e) => ComplaintKeeps(inv, s, d.wording(e));
      case Complete(arguments, consumed) =>
        ParseConsumes(s.input);
        ParseLeaves(s.input);
        assert s.replies[..|s.commands|] == s.replies;
        var next := Executed(d, s, arguments, consumed);
        assert next.replies[..|next.commands|] == next.replies;
        ProcessedKeeps(d, inv, next);
    }
  }

  /** What every command keeps, every run keeps, at every moment and however the bytes arrive. */
  lemma {:induction false} RunKeeps<W(!new)>(d: Server<W>, inv: (W, seq<seq<Bytes>>, seq<Reply>) -> bool,
                                            world: W, steps: seq<Step>)
    requires KeptByCommands(d, inv) && inv(world, [], []) && CanRun(d, Start(world), steps)
    ensures Keeping(inv, Run(d, Start(world), steps))
  {
    hide KeptByCommands, Processed, EncodeReply;
    if steps != [] {
      var n := |steps| - 1;
      RunKeeps(d, inv, world, steps[..n]);
      var s := Run(d, Start(world), steps[..n]);
      match steps[n]
      case Chunk(bytes) =>
        assert Keeping(inv, Filled(s, bytes));
        ComplaintKeeps(inv, Filled(s, bytes), d.wording(InputLimitExceeded));
        ProcessedKeeps(d, inv, Filled(s, bytes));
      case Written =>
    }
  }

  // ----- The input limit -----

  /** A request, accepted as a whole. */
  predicate IsRequest(x: Bytes) {
    Parse(x).Complete? && Parse(x).consumed == |x|
  }

  /** Requests small enough for a read that ends one byte short of one of them, plus a full read
      buffer, to fit. */
  predicate Modest(requests: seq<Bytes>) {
    forall i :: 0 <= i < |requests| ==>
      IsRequest(requests[i]) && |requests[i]| + READ_BUFFER - 1 <= MAX_INPUT
  }

  /** What is left of a part of a stream of modest requests leaves room for a full read. */
  lemma {:induction false} LeftOverIsModest<W>(d: Server<W>, t: Trace<W>, requests: seq<Bytes>)
    requires Modest(requests) && t.rest <= Concat(requests) && !Drain(d, t).close
    ensures |Drain(d, t).rest| + READ_BUFFER <= MAX_INPUT
    decreases |requests|
  {
    hide Parse;
    if t.rest == [] {
      EmptyIsIncomplete();
    } else {
      var x, p := requests[0], t.rest;
      assert IsRequest(x);
      if |p| < |x| {
        assert p == Concat(requests)[..|p|] == x[..|p|];
        StrictPrefixIsIncomplete(x, p);
      } else {
        var rest := p[|x|..];
        assert p[..|x|] == Concat(requests)[..|x|] == x;
        assert p == x + rest;
        ParseStable(x, rest);
        assert rest == Concat(requests)[..|p|][|x|..] == Concat(requests[1..])[..|rest|];
        LeftOverIsModest(d, Dispatched(d, t, Parse(x).arguments, rest), requests[1..]);
      }
    }
  }

  /** The buffer bound: a stream of modest requests never trips the input limit, however it is cut. */
  lemma {:induction false} ModestNeverTrips<W>(d: Server<W>, world: W, requests: seq<Bytes>, steps: seq<Step>)
    requires Modest(requests) && CanRun(d, Start(world), steps) && Received(steps) <= Concat(requests)
    ensures !Run(d, Start(world), steps).tripped
  {
    hide QueueOk, Drain, IsRequest, Processed, EncodeReply;
    if steps != [] {
      var n := |steps| - 1;
      assert Received(steps[..n]) <= Received(steps);
      ModestNeverTrips(d, world, requests, steps[..n]);
      RunIsOk(d, world, steps[..n]);
      if steps[n].Chunk? {
        var s := Run(d, Start(world), steps[..n]);
        LeftOverIsModest(d, Trace(world, [], [], false, Received(steps[..n])), requests);
        ProcessedIsDrain(d, Filled(s, steps[n].bytes));
      }
    }
  }

  lemma Snoc<W>(d: Server<W>, s: SessionState<W>, steps: seq<Step>, step: Step)
    requires CanRun(d, s, steps) && Enabled(Run(d, s, steps), step)
    ensures CanRun(d, s, steps + [step])
    ensures Run(d, s, steps + [step]) == Next(d, Run(d, s, steps), step)
    ensures Received(steps + [step]) ==
            match step case Chunk(bytes) => Received(steps) + bytes case Written => Received(steps)
  {
    assert (steps + [step])[..|steps|] == steps;
  }

  /** Reading the first `n` bytes of a request in full reads: they all stay in the input buffer,
      unless the limit is hit already. */
  lemma {:induction false} FeedPart<W>(d: Server<W>, world: W, x: Bytes, n: nat) returns (steps: seq<Step>)
    requires IsRequest(x) && n < |x|
    ensures CanRun(d, Start(world), steps) && Received(steps) <= x
    ensures var s := Run(d, Start(world), steps);
            s.tripped || (s.pendingReads == 1 && s.input == Received(steps) == x[..n])
    decreases n
  {
    hide QueueOk, IsRequest, AfterRead, Drain, OnePass;
    if n == 0 {
      steps := [];
    } else {
      var k := if n < READ_BUFFER then n else READ_BUFFER;
      steps := FeedPart(d, world, x, n - k);
      if !Run(d, Start(world), steps).tripped {
        var chunk := Chunk(x[n - k..n]);
        Snoc(d, Start(world), steps, chunk);
        assert x[..n - k] + x[n - k..n] == x[..n];
        steps := steps + [chunk];
        RunIsOk(d, world, steps);
        PartIsIncomplete(d, world, x, n);
      }
    }
  }

  lemma PartIsIncomplete<W>(d: Server<W>, world: W, x: Bytes, n: nat)
    requires IsRequest(x) && n < |x|
    ensures OnePass(d, world, x[..n]) == Trace(world, [], [], false, x[..n])
  {
    StrictPrefixIsIncomplete(x, x[..n]);
  }

  /** A request over the bound trips the limit when a read ends one byte short of it and the next
      one is full. */
  lemma LongRequestCanTrip<W>(d: Server<W>, world: W, x: Bytes, y: Bytes) returns (steps: seq<Step>)
    requires IsRequest(x) && |x| + READ_BUFFER - 1 > MAX_INPUT && |y| >= READ_BUFFER - 1
    ensures CanRun(d, Start(world), steps) && Received(steps) <= x + y
    ensures Run(d, Start(world), steps).tripped
  {
    hide IsRequest, Processed, EncodeReply;
    RequestNotEmpty(x);
    var n := |x| - 1;
    steps := FeedPart(d, world, x, n);
    if !Run(d, Start(world), steps).tripped {
      var chunk := Chunk([x[n]] + y[..READ_BUFFER - 1]);
      Snoc(d, Start(world), steps, chunk);
      assert x[..n] + ([x[n]] + y[..READ_BUFFER - 1]) == x + y[..READ_BUFFER - 1];
      steps := steps + [chunk];
    }
  }

  lemma RequestNotEmpty(x: Bytes)
    requires IsRequest(x)
    ensures x != []
  {
    ParseConsumes(x);
  }

  /** The bound is exact: followed by modest requests, one more request is safe under every way of
      cutting the stream just when it is modest itself. */
  lemma InputLimitExact<W>(d: Server<W>, world: W, x: Bytes, requests: seq<Bytes>)
    requires IsRequest(x) && Modest(requests) && |Concat(requests)| >= READ_BUFFER - 1
    ensures (exists steps :: CanRun(d, Start(world), steps) && Received(steps) <= x + Concat(requests)
                             && Run(d, Start(world), steps).tripped)
            <==> |x| + READ_BUFFER - 1 > MAX_INPUT
  {
    hide IsRequest;
    if |x| + READ_BUFFER - 1 > MAX_INPUT {
      var steps := LongRequestCanTrip(d, world, x, Concat(requests));
    } else {
      var all := [x] + requests;
      assert all[1..] == requests && Concat(all) == x + Concat(requests);
      assert Modest(all);
      forall steps | CanRun(d, Start(world), steps) && Received(steps) <= x + Concat(requests)
        ensures !Run(d, Start(world), steps).tripped
      {
        ModestNeverTrips(d, world, all, steps);
      }
    }
  }

  // ----- Commands without bytes -----

  /** What has been done for a list of commands. */
  datatype Served<W> = Served(world: W, done: seq<seq<Bytes>>, replies: seq<Reply>, close: bool)

  /** One command after the other, up to the first that closes the connection. */
  function Serve<W>(d: Server<W>, v: Served<W>, commands: seq<seq<Bytes>>): Served<W>
    decreases |commands|
  {
    if v.close || commands == [] then v
    else
      var outcome := d.dispatch(v.world, commands[0]);
      Serve(d, Served(outcome.world, v.done + [commands[0]], v.replies + [outcome.reply], outcome.close),
            commands[1..])
  }

  function ServeAll<W>(d: Server<W>, world: W, commands: seq<seq<Bytes>>): Served<W> {
    Serve(d, Served(world, [], [], false), commands)
  }

  predicate AllEncodable(commands: seq<seq<Bytes>>) {
    forall i :: 0 <= i < |commands| ==> Encodable(commands[i])
  }

  function EncodeAll(commands: seq<seq<Bytes>>): Bytes {
    if commands == [] then [] else Encode(commands[0]) + EncodeAll(commands[1..])
  }

  /** Where serving the commands ends: at the last one, or at the first that closes. */
  lemma {:induction false} ServeEnds<W>(d: Server<W>, v: Served<W>, commands: seq<seq<Bytes>>)
    requires |v.replies| == |v.done|
    ensures var u := Serve(d, v, commands);
            && |u.replies| == |u.done| && u.done <= v.done + commands
            && (!u.close ==> u.done == v.done + commands)
    decreases |commands|
  {
    if !v.close && commands != [] {
      var outcome := d.dispatch(v.world, commands[0]);
      ServeEnds(d, Served(outcome.world, v.done + [commands[0]], v.replies + [outcome.reply], outcome.close),
                commands[1..]);
      assert v.done + [commands[0]] + commands[1..] == v.done + commands;
    }
  }

  /** `commands` are those of `all` that are still to be drained. */
  lemma {:induction false} DrainsEncoded<W>(d: Server<W>, v: Served<W>, commands: seq<seq<Bytes>>,
                                            all: seq<seq<Bytes>>)
    requires AllEncodable(commands) && v.done + commands == all && |v.replies| == |v.done|
    ensures var u := Serve(d, v, commands);
            u.done <= all
            && Drain(d, Trace(v.world, v.done, v.replies, v.close, EncodeAll(commands)))
               == Trace(u.world, u.done, u.replies, u.close, EncodeAll(all[|u.done|..]))
    decreases |commands|
  {
    hide Parse, Encode, Encodable;
    assert all[|v.done|..] == commands;
    if v.close {
    } else if commands == [] {
      EmptyIsIncomplete();
    } else {
      var rest := EncodeAll(commands[1..]);
      ParseOfEncoded(commands[0], rest);
      assert (Encode(commands[0]) + rest)[|Encode(commands[0])|..] == rest;
      assert v.done + [commands[0]] + commands[1..] == all;
      var outcome := d.dispatch(v.world, commands[0]);
      var next := Served(outcome.world, v.done + [commands[0]], v.replies + [outcome.reply], outcome.close);
      assert Dispatched(d, Trace(v.world, v.done, v.replies, false, EncodeAll(commands)), commands[0], rest)
          == Trace(next.world, next.done, next.replies, next.close, rest);
      DrainsEncoded(d, next, commands[1..], all);
    }
  }

  /** A stream of encoded commands does exactly what serving its commands does, up to the first one
      that closes the connection, with one reply each, and the client finds in the bytes sent exactly
      the successes and refusals of those replies. */
  lemma Pipeline<W>(d: Server<W>, world: W, commands: seq<seq<Bytes>>)
    requires AllEncodable(commands)
    requires forall r :: r in OnePass(d, world, EncodeAll(commands)).replies ==> Sendable(r)
    ensures var t, v := OnePass(d, world, EncodeAll(commands)), ServeAll(d, world, commands);
            && v.done <= commands && |v.replies| == |v.done| && (!v.close ==> v.done == commands)
            && t == Trace(v.world, v.done, v.replies, v.close, EncodeAll(commands[|v.done|..]))
            && ReadReplies(EncodeReplies(t.replies), |t.commands|) == Ok(Taken(Successes(t.replies), []))
  {
    var first: Served<W> := Served(world, [], [], false);
    assert [] + commands == commands;
    DrainsEncoded(d, first, commands, commands);
    ServeEnds(d, first, commands);
    var t := OnePass(d, world, EncodeAll(commands));
    ReadConcatenatedReplies(t.replies, []);
    assert EncodeReplies(t.replies) + [] == EncodeReplies(t.replies);
  }

  /** What follows a stream of whole requests, however spelled, none of which closed the connection. An
      unfinished request waits for more; a wrong one is refused once, and closes the connection:
      nothing from it on is dispatched. */
  lemma WhatFollows<W>(d: Server<W>, world: W, stream: Bytes, x: Bytes, e: ProtocolError)
    requires !OnePass(d, world, stream).close && OnePass(d, world, stream).rest == []
    ensures var t, u := OnePass(d, world, stream), OnePass(d, world, stream + x);
            && (UnfinishedRequest(x) ==> u == t.(rest := x))
            && (WrongRequest(x, e) ==>
                  u == t.(replies := t.replies + [Refusal(d.wording(e))], close := true, rest := x))
  {
    hide Parse, UnfinishedRequest, WrongRequest;
    DrainSplit(d, Trace(world, [], [], false, stream), x);
    assert [] + x == x;
    ParseExact(x, e, [], []);
  }

  /** The input limit, when it is hit: one refusal, close requested, nothing else changed. */
  lemma TripRefuses<W>(d: Server<W>, world: W, steps: seq<Step>, bytes: Bytes)
    requires CanRun(d, Start(world), steps) && Enabled(Run(d, Start(world), steps), Chunk(bytes))
    ensures var s := Run(d, Start(world), steps); var t := Next(d, s, Chunk(bytes));
            if |s.input| + |bytes| > MAX_INPUT then
              && t.tripped && t.closeAfterWrite && t.pendingReads == 0
              && t.world == s.world && t.commands == s.commands
              && t.replies == s.replies + [Refusal(d.wording(InputLimitExceeded))]
            else !t.tripped
  {
    hide QueueOk, Processed, OnePass, EncodeReply;
    RunIsOk(d, world, steps);
    ProcessedIsDrain(d, Filled(Run(d, Start(world), steps), bytes));
  }

  // ----- Two worlds -----

  /** Worlds no command can tell apart. */
  ghost predicate Bisimilar<W(!new)>(d: Server<W>, rel: (W, W) -> bool) {
    forall v, w, arguments :: rel(v, w) && Encodable(arguments) ==>
      var a, b := d.dispatch(v, arguments), d.dispatch(w, arguments);
      a.reply == b.reply && a.close == b.close && rel(a.world, b.world)
  }

  /** The same session but for the world behind it. */
  predicate SameBefore<W(==)>(rel: (W, W) -> bool, s: SessionState<W>, t: SessionState<W>) {
    rel(s.world, t.world) && t == s.(world := t.world)
  }

  lemma {:induction false} ProcessedSame<W(!new)>(d: Server<W>, rel: (W, W) -> bool,
                                                 s: SessionState<W>, t: SessionState<W>)
    requires Bisimilar(d, rel) && SameBefore(rel, s, t)
    ensures SameBefore(rel, Processed(d, s), Processed(d, t))
    decreases |s.input|
  {
    hide Parse, EncodeReply, Encodable;
    if s.input != [] && !s.closeAfterWrite {
      match Parse(s.input)
      case Incomplete =>
      case Error(_) =>
      case Complete(arguments, consumed) =>
        ParseLeaves(s.input);
        ParseConsumes(s.input);
        ProcessedSame(d, rel, Executed(d, s, arguments, consumed), Executed(d, t, arguments, consumed));
    }
  }

  /** Clients cannot tell such worlds apart either, in any run. */
  lemma {:induction false} RunsSame<W(!new)>(d: Server<W>, rel: (W, W) -> bool, v: W, w: W, steps: seq<Step>)
    requires Bisimilar(d, rel) && rel(v, w) && CanRun(d, Start(v), steps)
    ensures CanRun(d, Start(w), steps)
    ensures SameBefore(rel, Run(d, Start(v), steps), Run(d, Start(w), steps))
  {
    hide Bisimilar, Processed, EncodeReply;
    if steps != [] {
      var n := |steps| - 1;
      RunsSame(d, rel, v, w, steps[..n]);
      var s, t := Run(d, Start(v), steps[..n]), Run(d, Start(w), steps[..n]);
      match steps[n]
      case Chunk(bytes) =>
        ProcessedSame(d, rel, Filled(s, bytes), Filled(t, bytes));
      case Written =>
    }
  }
}
