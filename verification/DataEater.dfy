/** The reassembly of framed, authenticated commands from a byte stream, and the client that frames and checks them. */
module DataEater {
  import opened Basics

  const AUTH_SIZE: nat := 64

  // ---------------------------------------------------------------- the pure decoder

  function Size16(n: nat): (b: Bytes)
    ensures |b| == 2
  {
    [n / 256 % 256, n % 256]
  }

  function FrameSize(high: Byte, low: Byte): nat {
    (high as int) * 256 + (low as int)
  }

  /** The first frame of a stream without its two size octets, and what follows it. */
  function TakeFrame(s: Bytes): Option<(Bytes, Bytes)> {
    if |s| < 2 then None
    else
      var end := 2 + FrameSize(s[0], s[1]) + AUTH_SIZE;
      if |s| < end then None else Some((s[2..end], s[end..]))
  }

  /** All complete frames of a stream. */
  function Frames(s: Bytes): seq<Bytes>
    decreases |s|
  {
    match TakeFrame(s)
    case None => []
    case Some((frame, rest)) => [frame] + Frames(rest)
  }

  /** A command with its authenticator, as it stands in the stream. */
  function Framed(command: Bytes): Bytes
    requires |command| >= AUTH_SIZE
  {
    Size16(|command| - AUTH_SIZE) + command
  }

  predicate IsCommand(c: Bytes) {
    AUTH_SIZE <= |c| < AUTH_SIZE + 0x1_0000
  }

  predicate AreCommands(commands: seq<Bytes>) {
    forall i :: 0 <= i < |commands| ==> IsCommand(commands[i])
  }

  function FramedAll(commands: seq<Bytes>): Bytes
    requires AreCommands(commands)
  {
    if commands == [] then [] else Framed(commands[0]) + FramedAll(commands[1..])
  }

  lemma SizeReadsBack(n: nat)
    requires n < 0x1_0000
    ensures FrameSize(Size16(n)[0], Size16(n)[1]) == n
  {}

  /** A framed command is the first frame of any stream that begins with it. */
  lemma TakeFramed(c: Bytes, rest: Bytes)
    requires IsCommand(c)
    ensures TakeFrame(Framed(c) + rest) == Some((c, rest))
  {
    var s := Framed(c) + rest;
    SizeReadsBack(|c| - AUTH_SIZE);
    assert s[0] == Size16(|c| - AUTH_SIZE)[0] && s[1] == Size16(|c| - AUTH_SIZE)[1];
    assert s[2..2 + |c|] == c && s[2 + |c|..] == rest;
  }

  lemma FramedTaken(s: Bytes)
    requires TakeFrame(s).Some?
    ensures var (frame, rest) := TakeFrame(s).value; IsCommand(frame) && Framed(frame) + rest == s
  {
    var n := FrameSize(s[0], s[1]);
    assert Size16(n) == [s[0], s[1]];
  }

  lemma {:induction false} FramesOfFramed(commands: seq<Bytes>, rest: Bytes)
    requires AreCommands(commands)
    ensures Frames(FramedAll(commands) + rest) == commands + Frames(rest)
  {
    if commands == [] {
      assert FramedAll(commands) + rest == rest;
    } else {
      var tail := FramedAll(commands[1..]) + rest;
      assert FramedAll(commands) + rest == Framed(commands[0]) + tail;
      TakeFramed(commands[0], tail);
      FramesOfFramed(commands[1..], rest);
    }
  }

  // ---------------------------------------------------------------- the state machine

  class DataEater {
    var internalBuffer: Bytes
    var commandsList: seq<Bytes>
    var lastCommand: Bytes
    var isProcessing: bool
    var frameSize: nat
    var currentIndex: nat

    ghost predicate Valid()
      reads this
    {
      && (isProcessing ==> internalBuffer == [] && |lastCommand| == currentIndex < frameSize + AUTH_SIZE && frameSize < 0x1_0000)
      && (!isProcessing ==> lastCommand == [])
    }

    /** The bytes eaten and not yet part of a command: a header that was read, the command so far, and the buffer. */
    ghost function Pending(): Bytes
      reads this
    {
      (if isProcessing then Size16(frameSize) else []) + lastCommand + internalBuffer
    }

    constructor ()
      ensures Valid() && Pending() == [] && commandsList == []
    {
      internalBuffer, commandsList, lastCommand, isProcessing := [], [], [], false;
      frameSize, currentIndex := 0, 0;
    }

    method PopMsgSize() returns (msgSize: nat)
      requires |internalBuffer| >= 2
      modifies this`internalBuffer
      ensures msgSize == FrameSize(old(internalBuffer)[0], old(internalBuffer)[1])
      ensures internalBuffer == old(internalBuffer)[2..]
    {
      msgSize := (internalBuffer[0] as int) * 256 % 0x1_0000;
      internalBuffer := internalBuffer[1..];
      msgSize := (msgSize + internalBuffer[0]) % 0x1_0000;
      internalBuffer := internalBuffer[1..];
    }

    /** Moves bytes from the buffer into the command until one of them ends. */
    method ContinueProcessing()
      requires !isProcessing ==> lastCommand == []
      requires isProcessing ==> |lastCommand| == currentIndex < frameSize + AUTH_SIZE && frameSize < 0x1_0000
      modifies this
      ensures Valid()
      ensures match TakeFrame(old(Pending()))
              case None => commandsList == old(commandsList) && Pending() == old(Pending())
              case Some((frame, rest)) => commandsList == old(commandsList) + [frame] && Pending() == rest
    {
      hide TakeFrame, Size16, FrameSize;
      ghost var pending := Pending();
      if !isProcessing {
        assert pending == internalBuffer;
        if |internalBuffer| < 2 {
          TooShort(pending);
          return;
        }
        HeaderOf(internalBuffer);
        frameSize := PopMsgSize();
        currentIndex := 0;
        isProcessing := true;
      }
      while true
        invariant isProcessing && frameSize < 0x1_0000 && |lastCommand| == currentIndex <= frameSize + AUTH_SIZE
        invariant Pending() == pending && commandsList == old(commandsList)
        decreases |internalBuffer|, frameSize + AUTH_SIZE - currentIndex
      {
        if currentIndex == frameSize + AUTH_SIZE {
          Complete(frameSize, lastCommand, internalBuffer);
          commandsList := commandsList + [lastCommand];
          lastCommand := [];
          isProcessing := false;
          assert Pending() == internalBuffer;
          return;
        } else {
          if internalBuffer == [] {
            break;
          }
          MoveOne(frameSize, lastCommand, internalBuffer);
          lastCommand := lastCommand + [internalBuffer[0]];
          internalBuffer := internalBuffer[1..];
        }
        currentIndex := currentIndex + 1;
      }
      Incomplete(frameSize, lastCommand);
    }

    /** One call completes at most one frame: the first of what is pending. */
    method Eat(data: Bytes)
      requires Valid()
      modifies this
      ensures Valid()
      ensures match TakeFrame(old(Pending()) + data)
              case None => commandsList == old(commandsList) && Pending() == old(Pending()) + data
              case Some((frame, rest)) => commandsList == old(commandsList) + [frame] && Pending() == rest
    {
      var i := 0;
      ghost var pending := Pending();
      while i < |data|
        invariant i <= |data|
        invariant isProcessing == old(isProcessing) && lastCommand == old(lastCommand)
        invariant frameSize == old(frameSize) && currentIndex == old(currentIndex) && commandsList == old(commandsList)
        invariant internalBuffer == old(internalBuffer) + data[..i]
      {
        internalBuffer := internalBuffer + [data[i]];
        i := i + 1;
      }
      assert Pending() == pending + data;
      ContinueProcessing();
    }

    /** The newest command; it stays in the list. */
    method GetLastCommand() returns (command: Bytes)
      ensures command == Newest(commandsList)
    {
      if commandsList == [] {
        return [];
      }
      return commandsList[|commandsList| - 1];
    }
  }

  function Newest(commands: seq<Bytes>): Bytes {
    if commands == [] then [] else commands[|commands| - 1]
  }

  lemma TooShort(s: Bytes)
    requires |s| < 2
    ensures TakeFrame(s) == None
  {}

  lemma HeaderOf(s: Bytes)
    requires |s| >= 2
    ensures FrameSize(s[0], s[1]) < 0x1_0000
    ensures Size16(FrameSize(s[0], s[1])) + [] + s[2..] == s
  {
    SizeOf(s[0], s[1]);
    hide Size16, FrameSize;
    assert [s[0], s[1]] + [] + s[2..] == s;
  }

  lemma SizeOf(high: Byte, low: Byte)
    ensures FrameSize(high, low) < 0x1_0000 && Size16(FrameSize(high, low)) == [high, low]
  {}

  lemma Complete(size: nat, command: Bytes, rest: Bytes)
    requires size < 0x1_0000 && |command| == size + AUTH_SIZE
    ensures TakeFrame(Size16(size) + command + rest) == Some((command, rest))
  {
    TakeFramed(command, rest);
  }

  lemma MoveOne(size: nat, command: Bytes, buffer: Bytes)
    requires buffer != []
    ensures Size16(size) + (command + [buffer[0]]) + buffer[1..] == Size16(size) + command + buffer
  {}

  lemma Incomplete(size: nat, command: Bytes)
    requires size < 0x1_0000 && |command| < size + AUTH_SIZE
    ensures TakeFrame(Size16(size) + command + []) == None
  {
    SizeReadsBack(size);
    var s := Size16(size) + command + [];
    assert s[0] == Size16(size)[0] && s[1] == Size16(size)[1];
  }

  // ---------------------------------------------------------------- whole runs

  /** Commands and pending bytes after one call. */
  function AfterEating(commands: seq<Bytes>, pending: Bytes, data: Bytes): (seq<Bytes>, Bytes) {
    match TakeFrame(pending + data)
    case None => (commands, pending + data)
    case Some((frame, rest)) => (commands + [frame], rest)
  }

  function AfterAll(chunks: seq<Bytes>): (seq<Bytes>, Bytes) {
    if chunks == [] then ([], [])
    else
      var (commands, pending) := AfterAll(chunks[..|chunks| - 1]);
      AfterEating(commands, pending, chunks[|chunks| - 1])
  }

  function Stream(chunks: seq<Bytes>): Bytes {
    if chunks == [] then [] else Stream(chunks[..|chunks| - 1]) + chunks[|chunks| - 1]
  }

  lemma FramedAllMore(commands: seq<Bytes>, c: Bytes)
    requires AreCommands(commands) && IsCommand(c)
    ensures FramedAll(commands + [c]) == FramedAll(commands) + Framed(c)
  {
    if commands == [] {
      assert commands + [c] == [c] && [c][1..] == [];
    } else {
      assert (commands + [c])[1..] == commands[1..] + [c];
      FramedAllMore(commands[1..], c);
    }
  }

  lemma NothingFramed()
    ensures FramedAll([]) == []
  {}

  /** Nothing is lost or reordered: the bytes eaten are the completed commands, framed, and then the pending bytes. */
  lemma {:induction false} EatenIsKept(chunks: seq<Bytes>)
    ensures var (commands, pending) := AfterAll(chunks);
            && |commands| <= |chunks|
            && AreCommands(commands)
            && Stream(chunks) == FramedAll(commands) + pending
    decreases |chunks|
  {
    hide TakeFrame, FramedAll, Framed, IsCommand;
    if chunks == [] {
      NothingFramed();
    } else {
      var before, last := chunks[..|chunks| - 1], chunks[|chunks| - 1];
      EatenIsKept(before);
      var (commands, pending) := AfterAll(before);
      assert Stream(chunks) == FramedAll(commands) + (pending + last);
      if TakeFrame(pending + last).Some? {
        var (frame, rest) := TakeFrame(pending + last).value;
        FramedTaken(pending + last);
        FramedAllMore(commands, frame);
        assert FramedAll(commands) + (Framed(frame) + rest) == FramedAll(commands) + Framed(frame) + rest;
      }
    }
  }

  /** The commands are the first frames of the stream, and the frames still missing are in the pending bytes. */
  lemma CommandsAreFrames(chunks: seq<Bytes>)
    ensures Frames(Stream(chunks)) == AfterAll(chunks).0 + Frames(AfterAll(chunks).1)
  {
    EatenIsKept(chunks);
    FramesOfFramed(AfterAll(chunks).0, AfterAll(chunks).1);
  }

  /** How many frames are complete in the first `j` chunks, and how many of them are commands by then. */
  function FrameCount(chunks: seq<Bytes>, j: nat): nat
    requires j <= |chunks|
  {
    |Frames(Stream(chunks[..j]))|
  }

  function CommandCount(chunks: seq<Bytes>, j: nat): nat
    requires j <= |chunks|
  {
    |AfterAll(chunks[..j]).0|
  }

  /** Each chunk adds one command, unless every complete frame is one already. */
  lemma OneMoreChunk(chunks: seq<Bytes>, j: nat)
    requires j < |chunks|
    ensures CommandCount(chunks, j + 1) == Min(CommandCount(chunks, j) + 1, FrameCount(chunks, j + 1))
  {
    hide TakeFrame;
    var before, after := chunks[..j], chunks[..j + 1];
    assert after[..j] == before && after[j] == chunks[j];
    CommandsAreFrames(after);
    assert Frames([]) == [] by { TooShort([]); }
    var pending := AfterAll(before).1 + chunks[j];
    if TakeFrame(pending) == None {
      CommandsAreFrames(before);
      NoFrame(pending);
    }
  }

  lemma NoFrame(s: Bytes)
    requires TakeFrame(s) == None
    ensures Frames(s) == []
  {}

  /** The number of commands is the least sum of the frames complete at some time and the chunks after it. */
  lemma {:induction false} Lag(chunks: seq<Bytes>, n: nat) returns (least: nat)
    requires n <= |chunks|
    ensures least <= n && CommandCount(chunks, n) == FrameCount(chunks, least) + (n - least)
    ensures forall j: nat :: j <= n ==> CommandCount(chunks, n) <= FrameCount(chunks, j) + (n - j)
  {
    hide FrameCount, CommandCount;
    if n == 0 {
      least := 0;
      NothingYet(chunks);
    } else {
      var before := Lag(chunks, n - 1);
      OneMoreChunk(chunks, n - 1);
      least := if CommandCount(chunks, n) == FrameCount(chunks, n) then n else before;
    }
  }

  lemma NothingYet(chunks: seq<Bytes>)
    ensures FrameCount(chunks, 0) == 0 && CommandCount(chunks, 0) == 0
  {
    TooShort([]);
  }

  /** No stretch of chunks at the end completes more frames than it has chunks. */
  predicate KeepsUp(chunks: seq<Bytes>) {
    forall j: nat | j <= |chunks| :: FrameCount(chunks, |chunks|) - FrameCount(chunks, j) <= |chunks| - j
  }

  /** However the stream is cut: the commands are all its complete frames if and only if the cut keeps up with them. */
  lemma AllFramesIffKeepsUp(chunks: seq<Bytes>)
    ensures AfterAll(chunks).0 == Frames(Stream(chunks)) <==> KeepsUp(chunks)
  {
    hide FrameCount, CommandCount;
    var n := |chunks|;
    var least := Lag(chunks, n);
    CommandsAreFrames(chunks);
    WholeCounts(chunks);
    if CommandCount(chunks, n) == FrameCount(chunks, n) {
      assert Frames(AfterAll(chunks).1) == [];
      assert AfterAll(chunks).0 + [] == AfterAll(chunks).0;
    }
  }

  lemma WholeCounts(chunks: seq<Bytes>)
    ensures FrameCount(chunks, |chunks|) == |Frames(Stream(chunks))|
    ensures CommandCount(chunks, |chunks|) == |AfterAll(chunks).0|
  {
    assert chunks[..|chunks|] == chunks;
  }

  /** With chunks of at most 66 octets, the smallest frame, no complete frame is ever left pending. */
  lemma {:induction false} SmallChunksLeaveNoFrame(chunks: seq<Bytes>)
    requires forall c <- chunks :: |c| <= 2 + AUTH_SIZE
    ensures TakeFrame(AfterAll(chunks).1) == None
    decreases |chunks|
  {
    if chunks != [] {
      var before, last := chunks[..|chunks| - 1], chunks[|chunks| - 1];
      SmallChunksLeaveNoFrame(before);
      var pending := AfterAll(before).1;
      if TakeFrame(pending + last).Some? {
        var (frame, rest) := TakeFrame(pending + last).value;
        FramedTaken(pending + last);
      }
    }
  }

  /** However the stream is cut into such chunks, the commands are exactly its complete frames. */
  lemma SmallChunksGiveAllFrames(chunks: seq<Bytes>)
    requires forall c <- chunks :: |c| <= 2 + AUTH_SIZE
    ensures AfterAll(chunks).0 == Frames(Stream(chunks)) && KeepsUp(chunks)
  {
    CommandsAreFrames(chunks);
    SmallChunksLeaveNoFrame(chunks);
    AllFramesIffKeepsUp(chunks);
    hide KeepsUp;
  }

  /** One octet more and a command can be late: 65 octets of one empty frame, then its last octet and a whole second one. */
  lemma LargerChunksCanLag(frame: Bytes, auth: Bytes)
    requires auth == seq(AUTH_SIZE, _ => 0) && frame == Framed(auth)
    ensures |frame[65..] + frame| == 3 + AUTH_SIZE
    ensures AfterAll([frame[..65], frame[65..] + frame]).0 == [auth]
    ensures Frames(Stream([frame[..65], frame[65..] + frame])) == [auth, auth]
  {
    hide *;
    EmptyFrameCut(frame, auth);
    AfterTwo(frame[..65], frame[65..] + frame);
    EmptyFrameTwice(frame, auth);
    FramesOfOne(frame, auth);
    CommandsAreFrames([frame[..65], frame[65..] + frame]);
  }

  lemma AfterTwo(a: Bytes, b: Bytes)
    requires TakeFrame(a) == None
    ensures AfterAll([a, b]) == AfterEating([], a, b)
  {
    hide TakeFrame;
    var chunks: seq<Bytes> := [a, b];
    assert chunks[..1] == [a] && chunks[..1][..0] == [];
    assert [] + a == a;
    assert AfterAll(chunks[..1]) == ([], a);
  }

  lemma EmptyFrameTwice(frame: Bytes, auth: Bytes)
    requires |frame| == 66 && |auth| == AUTH_SIZE && frame == Framed(auth)
    ensures AfterEating([], frame[..65], frame[65..] + frame) == ([auth], frame)
    ensures TakeFrame(frame) == Some((auth, []))
  {
    hide TakeFrame, Framed;
    TakeFramed(auth, frame);
    TakeFramed(auth, []);
    assert frame + [] == frame;
    assert frame[..65] + (frame[65..] + frame) == frame + frame;
    var none: seq<Bytes> := [];
    assert none + [auth] == [auth];
  }

  lemma EmptyFrameCut(frame: Bytes, auth: Bytes)
    requires auth == seq(AUTH_SIZE, _ => 0) && frame == Framed(auth)
    ensures |frame| == 66 && TakeFrame(frame[..65]) == None && |frame[65..] + frame| == 3 + AUTH_SIZE
  {
    assert frame[..65][0] == frame[0] == 0 && frame[..65][1] == frame[1] == 0;
  }

  lemma FramesOfOne(frame: Bytes, auth: Bytes)
    requires TakeFrame(frame) == Some((auth, []))
    ensures Frames(frame) == [auth]
  {
    assert Frames([]) == [];
  }

  // ---------------------------------------------------------------- the client

  lemma SizeOctets(n: nat)
    requires n < 0x1_0000
    ensures Size16(n) == [n / 256, n % 256]
  {}

  /** A message is refused when its size does not fit 16 bits; its octets follow their number. */
  method SerializeMsg(msg: Bytes) returns (r: Result<Bytes>)
    ensures r == if |msg| < 0x1_0000 then Success(Size16(|msg|) + msg) else Failure(AssertionFailed)
  {
    hide Size16;
    if !(|msg| <= 0xFFFF) {
      return Failure(AssertionFailed);
    }
    var msgSize := |msg| % 0x1_0000;
    var packet := new Byte[msgSize + 2](i => 0);
    packet[0] := msgSize / 256;
    packet[1] := msgSize % 256;
    SizeOctets(msgSize);
    assert packet[..2] == Size16(|msg|) + msg[..0];
    var i := 0;
    while i < msgSize
      invariant i <= msgSize
      invariant packet[..i + 2] == Size16(|msg|) + msg[..i]
    {
      packet[i + 2] := msg[i];
      i := i + 1;
    }
    assert packet[..] == packet[..msgSize + 2] && msg[..msgSize] == msg;
    return Success(packet[..]);
  }

  /** The stream of a sent message: its serialization and then its authenticator. */
  function Sent(auth: Bytes -> Bytes, msg: Bytes): Bytes {
    Size16(|msg|) + msg + auth(msg)
  }

  /** Splits off the authenticator and compares; a command that is nothing but an authenticator is refused. */
  function CheckAuth(auth: Bytes -> Bytes, commandAndAuth: Bytes): bool {
    if |commandAndAuth| <= AUTH_SIZE then false
    else
      var size := |commandAndAuth| - AUTH_SIZE;
      commandAndAuth[size..] == auth(commandAndAuth[..size])
  }

  /** What one receive does: nothing yet, drop the connection, or execute a command. */
  datatype Outcome = Nothing | Dropped | Executed(command: Bytes)

  function OutcomeOf(auth: Bytes -> Bytes, commands: seq<Bytes>): Outcome {
    var last := Newest(commands);
    if last == [] then Nothing
    else if !CheckAuth(auth, last) then Dropped
    else Executed(last[..|last| - AUTH_SIZE])
  }

  method OnTcpReceive(eater: DataEater, auth: Bytes -> Bytes, data: Bytes) returns (outcome: Outcome)
    requires eater.Valid()
    modifies eater
    ensures eater.Valid()
    ensures (eater.commandsList, eater.Pending()) == AfterEating(old(eater.commandsList), old(eater.Pending()), data)
    ensures outcome == OutcomeOf(auth, eater.commandsList)
  {
    eater.Eat(data);
    var last := eater.GetLastCommand();
    if last == [] {
      return Nothing;
    }
    if !CheckAuth(auth, last) {
      return Dropped;
    }
    return Executed(last[..|last| - AUTH_SIZE]);
  }

  /** A message that was sent is one frame, and is executed as it was sent unless it is empty: then the receiver drops. */
  lemma SentIsReceived(auth: Bytes -> Bytes, msg: Bytes, rest: Bytes, commands: seq<Bytes>)
    requires |msg| < 0x1_0000 && |auth(msg)| == AUTH_SIZE
    ensures TakeFrame(Sent(auth, msg) + rest) == Some((msg + auth(msg), rest))
    ensures OutcomeOf(auth, commands + [msg + auth(msg)]) == if msg == [] then Dropped else Executed(msg)
  {
    var c := msg + auth(msg);
    assert Framed(c) == Sent(auth, msg);
    TakeFramed(c, rest);
    assert c[..|msg|] == msg && c[|msg|..] == auth(msg);
    assert c != [];
  }

  // ---------------------------------------------------------------- how often a command is executed

  /** What the receives did that did something. */
  function Handled(auth: Bytes -> Bytes, chunks: seq<Bytes>): seq<Outcome>
    decreases |chunks|
  {
    if chunks == [] then []
    else
      var now := OutcomeOf(auth, AfterAll(chunks).0);
      Handled(auth, chunks[..|chunks| - 1]) + if now == Nothing then [] else [now]
  }

  /** What executing each command once, in order, would do. */
  function EachOnce(auth: Bytes -> Bytes, commands: seq<Bytes>): seq<Outcome>
    decreases |commands|
  {
    if commands == [] then [] else EachOnce(auth, commands[..|commands| - 1]) + [OutcomeOf(auth, commands)]
  }

  /** Once a frame is complete, every further chunk finds another one complete. */
  predicate KeepsPace(chunks: seq<Bytes>) {
    forall i: nat, j: nat | i <= j <= |chunks| :: FrameCount(chunks, i) > 0 ==> FrameCount(chunks, j) > j - i
  }

  /** Once there is a command, every further chunk completes another one. */
  predicate Paced(chunks: seq<Bytes>, n: nat)
    requires n <= |chunks|
  {
    forall i: nat | i < n :: CommandCount(chunks, i) > 0 ==> CommandCount(chunks, i + 1) > CommandCount(chunks, i)
  }

  lemma FramePrefix(chunks: seq<Bytes>, j: nat)
    requires j <= |chunks|
    ensures CommandCount(chunks, j) <= FrameCount(chunks, j)
  {
    CommandsAreFrames(chunks[..j]);
  }

  lemma {:induction false} PacedGrows(chunks: seq<Bytes>, i: nat, j: nat)
    requires i <= j <= |chunks| && Paced(chunks, |chunks|) && CommandCount(chunks, i) > 0
    ensures CommandCount(chunks, j) >= CommandCount(chunks, i) + (j - i)
    decreases j - i
  {
    hide CommandCount;
    if i < j {
      PacedGrows(chunks, i, j - 1);
    }
  }

  /** The last chunk before the first complete frame, counted from a moment with a frame. */
  lemma {:induction false} BeforeFirst(chunks: seq<Bytes>, i: nat) returns (f: nat)
    requires i <= |chunks| && FrameCount(chunks, i) > 0
    ensures f < i && FrameCount(chunks, f) == 0 && FrameCount(chunks, f + 1) > 0
  {
    hide FrameCount;
    NothingYet(chunks);
    if FrameCount(chunks, i - 1) == 0 {
      f := i - 1;
    } else {
      f := BeforeFirst(chunks, i - 1);
    }
  }

  /** The pace of the commands is the pace of the frames. */
  lemma PaceOfFrames(chunks: seq<Bytes>)
    ensures Paced(chunks, |chunks|) <==> KeepsPace(chunks)
  {
    hide FrameCount, CommandCount;
    if Paced(chunks, |chunks|) {
      forall i: nat, j: nat | i <= j <= |chunks| && FrameCount(chunks, i) > 0 ensures FrameCount(chunks, j) > j - i {
        NothingYet(chunks);
        OneMoreChunk(chunks, i - 1);
        PacedGrows(chunks, i, j);
        FramePrefix(chunks, j);
      }
    }
    if KeepsPace(chunks) {
      forall i: nat | i < |chunks| && CommandCount(chunks, i) > 0
        ensures CommandCount(chunks, i + 1) > CommandCount(chunks, i)
      {
        FramePrefix(chunks, i);
        var f := BeforeFirst(chunks, i);
        var least := Lag(chunks, i);
        assert CommandCount(chunks, i) <= FrameCount(chunks, f) + (i - f);
        assert FrameCount(chunks, i + 1) > i + 1 - (f + 1);
        OneMoreChunk(chunks, i);
      }
    }
  }

  lemma OutcomeOfSome(auth: Bytes -> Bytes, commands: seq<Bytes>)
    requires AreCommands(commands)
    ensures OutcomeOf(auth, commands) == Nothing <==> commands == []
  {}

  lemma {:induction false} EachOnceCounts(auth: Bytes -> Bytes, commands: seq<Bytes>)
    ensures |EachOnce(auth, commands)| == |commands|
    decreases |commands|
  {
    if commands != [] {
      EachOnceCounts(auth, commands[..|commands| - 1]);
    }
  }

  /** One more chunk completes a command, or leaves the commands as they were. */
  lemma CommandsAfterChunk(chunks: seq<Bytes>, n: nat)
    requires n < |chunks|
    ensures AreCommands(AfterAll(chunks[..n + 1]).0)
    ensures var before, after := AfterAll(chunks[..n]).0, AfterAll(chunks[..n + 1]).0;
            if CommandCount(chunks, n + 1) > CommandCount(chunks, n)
            then after != [] && after[..|after| - 1] == before else after == before
  {
    hide TakeFrame;
    assert chunks[..n + 1][..n] == chunks[..n];
    EatenIsKept(chunks[..n + 1]);
  }

  /** As long as the pace is kept, each command was handled once. */
  lemma {:induction false} HandledWhilePaced(auth: Bytes -> Bytes, chunks: seq<Bytes>, n: nat)
    requires n <= |chunks| && Paced(chunks, n)
    ensures Handled(auth, chunks[..n]) == EachOnce(auth, AfterAll(chunks[..n]).0)
  {
    if n == 0 {
      NothingHandled(auth, chunks);
    } else {
      hide *;
      PacedStep(chunks, n - 1);
      HandledWhilePaced(auth, chunks, n - 1);
      HandledStep(auth, chunks, n - 1);
    }
  }

  /** There are at least as many receives with a command as commands, and more once the pace was not kept. */
  lemma {:induction false} HandledSoFar(auth: Bytes -> Bytes, chunks: seq<Bytes>, n: nat)
    requires n <= |chunks|
    ensures HandledCount(auth, chunks, n) >= CommandCount(chunks, n)
    ensures !Paced(chunks, n) ==> HandledCount(auth, chunks, n) > CommandCount(chunks, n)
  {
    if n == 0 {
      NothingHandled(auth, chunks);
    } else {
      hide HandledCount, CommandCount, Paced;
      var before := n - 1;
      PacedStep(chunks, before);
      HandledOneMore(auth, chunks, before);
      HandledSoFar(auth, chunks, before);
    }
  }

  function HandledCount(auth: Bytes -> Bytes, chunks: seq<Bytes>, n: nat): nat
    requires n <= |chunks|
  {
    |Handled(auth, chunks[..n])|
  }

  lemma HandledOneMore(auth: Bytes -> Bytes, chunks: seq<Bytes>, n: nat)
    requires n < |chunks|
    ensures CommandCount(chunks, n) <= CommandCount(chunks, n + 1) <= CommandCount(chunks, n) + 1
    ensures HandledCount(auth, chunks, n + 1)
         == HandledCount(auth, chunks, n) + if CommandCount(chunks, n + 1) == 0 then 0 else 1
  {
    hide Handled, CommandCount, EachOnce, AfterAll, OutcomeOf;
    HandledStep(auth, chunks, n);
  }

  lemma NothingHandled(auth: Bytes -> Bytes, chunks: seq<Bytes>)
    ensures Handled(auth, chunks[..0]) == [] == EachOnce(auth, AfterAll(chunks[..0]).0)
    ensures CommandCount(chunks, 0) == 0 && Paced(chunks, 0)
  {}

  lemma PacedStep(chunks: seq<Bytes>, n: nat)
    requires n < |chunks|
    ensures Paced(chunks, n + 1)
            <==> Paced(chunks, n) && (CommandCount(chunks, n) > 0 ==> CommandCount(chunks, n + 1) > CommandCount(chunks, n))
  {
    hide CommandCount;
  }

  /** One more receive handles the newest command, if there is one; the commands have one more, or stay as they were. */
  lemma HandledStep(auth: Bytes -> Bytes, chunks: seq<Bytes>, n: nat)
    requires n < |chunks|
    ensures CommandCount(chunks, n) <= CommandCount(chunks, n + 1) <= CommandCount(chunks, n) + 1
    ensures CommandCount(chunks, n + 1) == 0 ==> Handled(auth, chunks[..n + 1]) == Handled(auth, chunks[..n])
    ensures CommandCount(chunks, n + 1) > 0 ==>
              Handled(auth, chunks[..n + 1]) == Handled(auth, chunks[..n]) + [OutcomeOf(auth, AfterAll(chunks[..n + 1]).0)]
    ensures CommandCount(chunks, n + 1) == CommandCount(chunks, n) ==>
              EachOnce(auth, AfterAll(chunks[..n + 1]).0) == EachOnce(auth, AfterAll(chunks[..n]).0)
    ensures CommandCount(chunks, n + 1) > CommandCount(chunks, n) ==>
              EachOnce(auth, AfterAll(chunks[..n + 1]).0)
              == EachOnce(auth, AfterAll(chunks[..n]).0) + [OutcomeOf(auth, AfterAll(chunks[..n + 1]).0)]
  {
    var before, after := AfterAll(chunks[..n]).0, AfterAll(chunks[..n + 1]).0;
    CommandsAfterChunk(chunks, n);
    OutcomeOfSome(auth, after);
    assert chunks[..n + 1][..n] == chunks[..n];
    hide AfterAll, AreCommands, OutcomeOf;
    assert Handled(auth, chunks[..n]) + [] == Handled(auth, chunks[..n]);
  }

  /**
   * Every command is handled exactly once, in order, if and only if the cut keeps pace with the frames; if it does not,
   * there are more executions than commands, because the newest command is never removed.
   */
  lemma HandledOnceIffKeepsPace(auth: Bytes -> Bytes, chunks: seq<Bytes>)
    ensures Handled(auth, chunks) == EachOnce(auth, AfterAll(chunks).0) <==> KeepsPace(chunks)
    ensures |Handled(auth, chunks)| == |AfterAll(chunks).0| <==> KeepsPace(chunks)
    ensures |Handled(auth, chunks)| >= |AfterAll(chunks).0|
  {
    hide Handled, EachOnce, AfterAll, FrameCount;
    PaceOfFrames(chunks);
    HandledSoFar(auth, chunks, |chunks|);
    if Paced(chunks, |chunks|) {
      HandledWhilePaced(auth, chunks, |chunks|);
    }
    assert chunks[..|chunks|] == chunks;
    EachOnceCounts(auth, AfterAll(chunks).0);
  }

  /** A receive repeats the newest command exactly when every complete frame is a command already. */
  lemma CommandsAreRepeated(auth: Bytes -> Bytes, chunks: seq<Bytes>, n: nat)
    requires n < |chunks|
    ensures AfterAll(chunks[..n + 1]).0 == AfterAll(chunks[..n]).0 <==> FrameCount(chunks, n + 1) == CommandCount(chunks, n)
    ensures FrameCount(chunks, n + 1) == CommandCount(chunks, n) ==>
              OutcomeOf(auth, AfterAll(chunks[..n + 1]).0) == OutcomeOf(auth, AfterAll(chunks[..n]).0)
  {
    OneMoreChunk(chunks, n);
    CommandsAfterChunk(chunks, n);
    FramePrefix(chunks, n + 1);
    hide AfterAll, FrameCount;
  }

  /** A command is executed if and only if it is a message that is not empty and the authenticator of that message. */
  lemma AuthDecides(auth: Bytes -> Bytes, commands: seq<Bytes>, m: Bytes)
    requires commands != [] && |Newest(commands)| >= AUTH_SIZE
    ensures OutcomeOf(auth, commands) == Executed(m)
            <==> m != [] && |auth(m)| == AUTH_SIZE && Newest(commands) == m + auth(m)
    ensures OutcomeOf(auth, commands) == Dropped || OutcomeOf(auth, commands).Executed?
  {
    var c := Newest(commands);
    if OutcomeOf(auth, commands) == Executed(m) {
      assert c == c[..|c| - AUTH_SIZE] + c[|c| - AUTH_SIZE..];
    }
    if m != [] && |auth(m)| == AUTH_SIZE && c == m + auth(m) {
      assert c[..|m|] == m && c[|m|..] == auth(m);
    }
  }

  /** A frame of a stream stands in it, behind its size. */
  lemma {:induction false} FrameStandsIn(s: Bytes, i: nat) returns (before: Bytes, after: Bytes)
    requires i < |Frames(s)|
    ensures IsCommand(Frames(s)[i]) && s == before + Framed(Frames(s)[i]) + after
    decreases |s|
  {
    var (frame, rest) := TakeFrame(s).value;
    FramedTaken(s);
    if i == 0 {
      before, after := [], rest;
    } else {
      var b, a := FrameStandsIn(rest, i - 1);
      before, after := Framed(frame) + b, a;
    }
  }

  /** The receives that did something did it with some command of the stream. */
  lemma {:induction false} HandledFrom(auth: Bytes -> Bytes, chunks: seq<Bytes>, n: nat, i: nat) returns (j: nat)
    requires n <= |chunks| && i < |Handled(auth, chunks[..n])|
    ensures j <= n && AfterAll(chunks[..j]).0 != []
    ensures Handled(auth, chunks[..n])[i] == OutcomeOf(auth, AfterAll(chunks[..j]).0)
  {
    hide OutcomeOf, AfterAll;
    if n > 0 {
      assert chunks[..n][..n - 1] == chunks[..n - 1];
      if i < |Handled(auth, chunks[..n - 1])| {
        j := HandledFrom(auth, chunks, n - 1, i);
      } else {
        j := n;
        EatenIsKept(chunks[..n]);
        OutcomeOfSome(auth, AfterAll(chunks[..n]).0);
      }
    }
  }

  /**
   * However the stream is cut, whatever is executed is a message of the stream that is followed there by its own
   * authenticator: a forged or damaged frame is never executed.
   */
  lemma ExecutedIsAuthentic(auth: Bytes -> Bytes, chunks: seq<Bytes>, i: nat) returns (before: Bytes, after: Bytes)
    requires i < |Handled(auth, chunks)| && Handled(auth, chunks)[i].Executed?
    ensures var m := Handled(auth, chunks)[i].command;
            m != [] && |m| < 0x1_0000 && |auth(m)| == AUTH_SIZE && Stream(chunks) == before + Sent(auth, m) + after
  {
    hide Handled, AfterAll, Stream, Frames;
    var n := |chunks|;
    assert chunks[..n] == chunks;
    var j := HandledFrom(auth, chunks, n, i);
    var m, commands := Handled(auth, chunks)[i].command, AfterAll(chunks[..j]).0;
    EatenIsKept(chunks[..j]);
    AuthDecides(auth, commands, m);
    CommandsAreFrames(chunks[..j]);
    var last := |commands| - 1;
    var b, a := FrameStandsIn(Stream(chunks[..j]), last);
    var rest := StreamGoesOn(chunks, j);
    before, after := b, a + rest;
    SentIsFramed(auth, m);
    hide Framed, Sent;
    assert b + Framed(m + auth(m)) + a + rest == b + Framed(m + auth(m)) + (a + rest);
  }

  lemma SentIsFramed(auth: Bytes -> Bytes, m: Bytes)
    requires |auth(m)| == AUTH_SIZE
    ensures Framed(m + auth(m)) == Sent(auth, m)
  {}

  lemma {:induction false} StreamGoesOn(chunks: seq<Bytes>, j: nat) returns (rest: Bytes)
    requires j <= |chunks|
    ensures Stream(chunks) == Stream(chunks[..j]) + rest
    decreases |chunks|
  {
    if j == |chunks| {
      rest := [];
      assert chunks[..j] == chunks;
    } else {
      var init := chunks[..|chunks| - 1];
      var more := StreamGoesOn(init, j);
      assert init[..j] == chunks[..j];
      rest := more + chunks[|chunks| - 1];
    }
  }

  ghost function Outcomes(auth: Bytes -> Bytes, chunks: seq<Bytes>): seq<Outcome> {
    if chunks == [] then []
    else Outcomes(auth, chunks[..|chunks| - 1]) + [OutcomeOf(auth, AfterAll(chunks).0)]
  }

  /** When every receive brings exactly one message, each message is executed once, in order. */
  lemma {:induction false} OneMessageAtATime(auth: Bytes -> Bytes, messages: seq<Bytes>, chunks: seq<Bytes>)
    requires |chunks| == |messages|
    requires forall i :: 0 <= i < |messages| ==>
               0 < |messages[i]| < 0x1_0000 && |auth(messages[i])| == AUTH_SIZE && chunks[i] == Sent(auth, messages[i])
    ensures AfterAll(chunks).1 == []
    ensures |Outcomes(auth, chunks)| == |messages|
    ensures forall i :: 0 <= i < |messages| ==> Outcomes(auth, chunks)[i] == Executed(messages[i])
    decreases |chunks|
  {
    hide TakeFrame, Sent, OutcomeOf;
    if chunks != [] {
      var n := |chunks| - 1;
      OneMessageAtATime(auth, messages[..n], chunks[..n]);
      var commands := AfterAll(chunks[..n]).0;
      SentIsReceived(auth, messages[n], [], commands);
      assert [] + chunks[n] == Sent(auth, messages[n]) + [];
      assert AfterAll(chunks).0 == commands + [messages[n] + auth(messages[n])];
      assert forall i :: 0 <= i < n ==> messages[..n][i] == messages[i];
    }
  }
}
