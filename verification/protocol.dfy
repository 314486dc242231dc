/** The AT-command layer of `BLDevice.writecmd`: how a command is framed, how a
    reply is read off the serial link, how it is classified, and what a sequence
    of commands does to the link (the session semantics the driver methods are
    proved against). */
module Protocol {
  import opened Outcomes
  import opened Text

  /** "00\r": the status that ends every successful reply. */
  const Terminator: seq<byte> := [48, 48, 13]

  /** "\n01\t": the start of every error reply. */
  const ErrorPrefix: seq<byte> := [10, 48, 49, 9]

  /** The failures `writecmd` (and the operations built on it) raise. */
  datatype Error =
    | Unencodable(command: string)            // the frame is not ASCII: encoding raises, nothing is sent
    | NoResponse(command: string)             // nothing arrived before the deadline
    | DeviceError(code: seq<byte>)            // the module answered "\n01\t<code>" + one more byte
    | Unexpected(args: string, raw: seq<byte>)
    | Undecodable(raw: seq<byte>)             // a terminated reply that is not ASCII
    | MissingFile(path: string)               // upload: the compiled file does not exist

  predicate StartsWithPlus(args: string) {
    |args| > 0 && args[0] == '+'
  }

  /** The text `writecmd(args)` writes: "AT", a space unless the tail starts with
      '+', the tail, and a carriage return. */
  function Frame(args: string): (f: string)
    ensures |f| == |args| + (if StartsWithPlus(args) then 3 else 4)
    ensures StartsWith(f, "AT") && EndsWith(f, args + "\r")
    ensures f[2] == ' ' <==> !StartsWithPlus(args)
  {
    "AT" + (if StartsWithPlus(args) then "" else " ") + args + "\r"
  }

  /** Recovers the command tail from a frame; None for text no tail frames to. */
  function ParseFrame(f: string): Option<string> {
    if |f| < 4 || f[..2] != "AT" || f[|f| - 1] != '\r' then None
    else if f[2] == '+' then Some(f[2..|f| - 1])
    else if f[2] == ' ' && !StartsWithPlus(f[3..|f| - 1]) then Some(f[3..|f| - 1])
    else None
  }

  lemma ParseFrameOfFrame(args: string)
    ensures ParseFrame(Frame(args)) == Some(args)
  {
    var f := Frame(args);
    assert f[..2] == "AT";
    if StartsWithPlus(args) {
      assert f[2..|f| - 1] == args;
    } else {
      assert f[3..|f| - 1] == args;
    }
  }

  lemma FrameOfParseFrame(f: string)
    requires ParseFrame(f).Some?
    ensures Frame(ParseFrame(f).value) == f
  {
    var args := ParseFrame(f).value;
    if f[2] == '+' {
      assert f == "AT" + args + "\r";
    } else {
      assert f == "AT" + " " + args + "\r";
    }
  }

  /** Distinct commands never share a frame. */
  lemma FrameInjective(a: string, b: string)
    requires Frame(a) == Frame(b)
    ensures a == b
  {
    ParseFrameOfFrame(a);
    ParseFrameOfFrame(b);
  }

  /** Where the reader stops, searching from position i: at the first prefix
      ending in the terminator, or at `limit`, the number of bytes that arrive
      before the deadline. */
  function StopIndex(rx: seq<byte>, limit: nat, i: nat): (n: nat)
    requires i <= limit <= |rx|
    ensures i <= n <= limit
    ensures n == limit || EndsWith(rx[..n], Terminator)
    ensures forall j :: i <= j < n ==> !EndsWith(rx[..j], Terminator)
    decreases limit - i
  {
    if i == limit || EndsWith(rx[..i], Terminator) then i else StopIndex(rx, limit, i + 1)
  }

  /** How many bytes `writecmd` reads from the link when `window` bytes can arrive
      before its deadline. */
  function ReplyLength(rx: seq<byte>, window: nat): (n: nat)
    ensures n <= window && n <= |rx|
  {
    StopIndex(rx, Min(window, |rx|), 0)
  }

  /** The stopping point is unique: no earlier prefix ends in the terminator. */
  lemma StopIndexAt(rx: seq<byte>, limit: nat, n: nat)
    requires n <= limit <= |rx|
    requires n == limit || EndsWith(rx[..n], Terminator)
    requires forall j :: 0 <= j < n ==> !EndsWith(rx[..j], Terminator)
    ensures StopIndex(rx, limit, 0) == n
  {
  }

  /** A reply whose first terminator is at its end is read whole, and nothing of
      what follows it, provided it arrives before the deadline. */
  lemma {:induction false} ReadsWholeReply(reply: seq<byte>, rest: seq<byte>, window: nat)
    requires EndsWith(reply, Terminator)
    requires forall j :: 0 <= j < |reply| ==> !EndsWith(reply[..j], Terminator)
    requires |reply| <= window
    ensures ReplyLength(reply + rest, window) == |reply|
    ensures (reply + rest)[..|reply|] == reply && (reply + rest)[|reply|..] == rest
  {
    var rx := reply + rest;
    assert rx[..|reply|] == reply;
    forall j | 0 <= j < |reply| ensures !EndsWith(rx[..j], Terminator) {
      assert rx[..j] == reply[..j];
    }
    StopIndexAt(rx, Min(window, |rx|), |reply|);
  }

  /** How `writecmd` sorts what it read into exactly one outcome. */
  function Classify(args: string, reply: seq<byte>): (r: Result<string, Error>)
    ensures r.Success? <==> EndsWith(reply, Terminator) && AsciiBytes(reply)
    ensures r.Success? ==> Trimmed(r.value) && |r.value| <= |reply| - 3
  {
    if EndsWith(reply, Terminator) then
      DecodeAsciiChars(reply);
      match DecodeAscii(reply)
      case None => Failure(Undecodable(reply))
      case Some(text) =>
        StripTrimmed(text[..|text| - 3]);
        Success(Strip(text[..|text| - 3]))
    else if |reply| == 0 then Failure(NoResponse(Frame(args)))
    else if |reply| > 4 && reply[..4] == ErrorPrefix then Failure(DeviceError(reply[4..|reply| - 1]))
    else Failure(Unexpected(args, reply))
  }

  /** A success reply gives back its payload, whatever whitespace surrounds it. */
  lemma SuccessReply(args: string, pre: string, payload: string, post: string)
    requires AllSpace(pre) && AllSpace(post) && Trimmed(payload)
    requires IsAscii(pre + payload + post)
    ensures Classify(args, EncodeAscii(pre + payload + post) + Terminator) == Success(payload)
  {
    var body := pre + payload + post;
    assert EncodeAscii("00\r") == Terminator;
    EncodeAppend(body, "00\r");
    var reply := EncodeAscii(body + "00\r");
    assert reply == EncodeAscii(body) + Terminator;
    DecodeEncode(body + "00\r");
    assert (body + "00\r")[..|body|] == body;
    StripPadded(pre, payload, post);
  }

  /** An error reply "\n01\t<code>" followed by any one byte, when it does not
      end in the success terminator, gives back its code. */
  lemma ErrorReply(args: string, code: seq<byte>, last: byte)
    requires !EndsWith(ErrorPrefix + code + [last], Terminator)
    ensures Classify(args, ErrorPrefix + code + [last]) == Failure(DeviceError(code))
  {
    var reply := ErrorPrefix + code + [last];
    assert reply[..4] == ErrorPrefix;
    assert reply[4..|reply| - 1] == code;
  }

  /** The usual error reply "\n01\t<code>\r" gives back its code, unless the
      code ends in "00": then the reply also ends in the success terminator. */
  lemma CarriageReturnErrorReply(args: string, code: seq<byte>)
    requires !EndsWith(code, [48, 48])
    ensures Classify(args, ErrorPrefix + code + [13]) == Failure(DeviceError(code))
  {
    var reply := ErrorPrefix + code + [13];
    if |code| >= 2 {
      assert reply[|reply| - 3..] == code[|code| - 2..] + [13];
      assert reply[|reply| - 3..][..2] == code[|code| - 2..];
    } else if |code| == 1 {
      assert reply[|reply| - 3] == 9;
    } else {
      assert reply[|reply| - 3] == 49;
    }
    assert !EndsWith(reply, Terminator);
    ErrorReply(args, code, 13);
  }

  lemma ZeroZeroCodeReadsAsSuccess(args: string, code: seq<byte>)
    requires EndsWith(code, [48, 48]) && AsciiBytes(code)
    ensures Classify(args, ErrorPrefix + code + [13]).Success?
  {
    var reply := ErrorPrefix + code + [13];
    assert reply[|reply| - 3..] == code[|code| - 2..] + [13];
    assert AsciiBytes(reply) by {
      forall i | 0 <= i < |reply| ensures reply[i] < 128 {
        if 4 <= i < |reply| - 1 { assert reply[i] == code[i - 4]; }
      }
    }
    DecodeAsciiChars(reply);
  }

  /** An unterminated reply is exactly one of: nothing (no response), an error
      reply (device error), anything else (unexpected, raw bytes kept). */
  lemma UnterminatedReply(args: string, reply: seq<byte>)
    requires !EndsWith(reply, Terminator)
    ensures Classify(args, reply) == Failure(NoResponse(Frame(args))) <==> reply == []
    ensures Classify(args, reply).Failure? && Classify(args, reply).error.DeviceError? <==>
              |reply| > 4 && reply[..4] == ErrorPrefix
    ensures Classify(args, reply).Failure? && Classify(args, reply).error.Unexpected? <==>
              reply != [] && !(|reply| > 4 && reply[..4] == ErrorPrefix)
    ensures Classify(args, reply).Failure? && Classify(args, reply).error.Unexpected? ==>
              Classify(args, reply).error.raw == reply
  {
  }

  /** One step of a session: a command whose reply is read (`writecmd`), a command
      sent without reading (`expect_response=False`), or a `port.read` whose bytes
      are discarded. */
  datatype Step = Cmd(args: string, window: nat) | Send(args: string) | Drain(window: nat)

  /** What a session did: the first failure if any, the payloads of the answered
      commands, the frames written, and the bytes left unread on the link. */
  datatype Transcript = Transcript(failure: Option<Error>, payloads: seq<string>, frames: seq<string>, rest: seq<byte>)

  /** What `writecmd` reports once it has stopped reading, with `reply` read
      and `rest` still to come. */
  function Answer(args: string, reply: seq<byte>, rest: seq<byte>): Transcript {
    match Classify(args, reply)
    case Success(p) => Transcript(None, [p], [Frame(args)], rest)
    case Failure(e) => Transcript(Some(e), [], [Frame(args)], rest)
  }

  /** The read loop of `writecmd`: `response` has been read, `rx` is still to
      come, and `window` more bytes can arrive before the deadline. The result
      is the whole reply and what is left on the link. */
  function Receive(rx: seq<byte>, window: nat, response: seq<byte>): (r: (seq<byte>, seq<byte>))
    ensures r.0 + r.1 == response + rx
    ensures StartsWith(r.0, response)
    decreases |rx|
  {
    if EndsWith(response, Terminator) || window == 0 || rx == [] then (response, rx)
    else
      var r := Receive(rx[1..], window - 1, response + [rx[0]]);
      assert response + rx == (response + [rx[0]]) + rx[1..];
      assert r.0[..|response|] == (response + [rx[0]])[..|response|];
      r
  }

  /** The loop stops once the deadline has passed or the terminator is in. */
  lemma ReceiveDone(rx: seq<byte>, window: nat, i: nat)
    requires i <= Min(window, |rx|)
    requires i == Min(window, |rx|) || EndsWith(rx[..i], Terminator)
    ensures Receive(rx[i..], window - i, rx[..i]) == (rx[..i], rx[i..])
  {
    assert window - i == 0 || rx[i..] == [] || EndsWith(rx[..i], Terminator);
  }

  /** Otherwise it reads one more byte. */
  lemma ReceiveMore(rx: seq<byte>, window: nat, i: nat)
    requires i < Min(window, |rx|) && !EndsWith(rx[..i], Terminator)
    ensures Receive(rx[i..], window - i, rx[..i]) == Receive(rx[i + 1..], window - (i + 1), rx[..i + 1])
  {
    assert rx[i..][1..] == rx[i + 1..];
    assert rx[..i] + [rx[i]] == rx[..i + 1];
  }

  /** The loop stops where StopIndex says, having read exactly the bytes before
      that point. */
  lemma {:induction false} ReceiveStops(rx: seq<byte>, window: nat, i: nat)
    requires i <= Min(window, |rx|)
    ensures var n := StopIndex(rx, Min(window, |rx|), i);
            Receive(rx[i..], window - i, rx[..i]) == (rx[..n], rx[n..])
    decreases |rx| - i
  {
    var limit := Min(window, |rx|);
    if i == limit || EndsWith(rx[..i], Terminator) {
      ReceiveDone(rx, window, i);
    } else {
      ReceiveMore(rx, window, i);
      ReceiveStops(rx, window, i + 1);
    }
  }

  /** What one command does on the link. */
  function Perform(rx: seq<byte>, step: Step): Transcript {
    match step
    case Cmd(args, window) =>
      if !IsAscii(Frame(args)) then Transcript(Some(Unencodable(Frame(args))), [], [], rx)
      else var r := Receive(rx, window, []); Answer(args, r.0, r.1)
    case Send(args) =>
      if !IsAscii(Frame(args)) then Transcript(Some(Unencodable(Frame(args))), [], [], rx)
      else Transcript(None, [], [Frame(args)], rx)
    case Drain(window) => Transcript(None, [], [], rx[Min(window, |rx|)..])
  }

  /** One turn of the read loop. */
  lemma ReceiveNext(rx: seq<byte>, window: nat, response: seq<byte>)
    requires !EndsWith(response, Terminator) && window > 0 && rx != []
    ensures Receive(rx, window, response) == Receive(rx[1..], window - 1, response + [rx[0]])
  {
  }

  lemma ReceiveEnd(rx: seq<byte>, window: nat, response: seq<byte>)
    requires EndsWith(response, Terminator) || window == 0 || rx == []
    ensures Receive(rx, window, response) == (response, rx)
  {
  }

  /** The read loop takes the first ReplyLength bytes off the link. */
  lemma ReceiveReply(rx: seq<byte>, window: nat)
    ensures var n := ReplyLength(rx, window);
            Receive(rx, window, []) == (rx[..n], rx[n..])
  {
    ReceiveStops(rx, window, 0);
    assert rx[0..] == rx && rx[..0] == [];
  }

  /** A command reads the first ReplyLength bytes, sorts them with Classify and
      leaves the rest on the link. */
  lemma PerformCmd(rx: seq<byte>, args: string, window: nat)
    requires IsAscii(Frame(args))
    ensures var n := ReplyLength(rx, window);
            Perform(rx, Cmd(args, window)) == Answer(args, rx[..n], rx[n..])
  {
    ReceiveReply(rx, window);
  }

  /** What a command did, given what its read loop read and left. */
  lemma CmdAnswer(rx: seq<byte>, args: string, window: nat, reply: seq<byte>, rest: seq<byte>)
    requires IsAscii(Frame(args)) && Receive(rx, window, []) == (reply, rest)
    ensures Perform(rx, Cmd(args, window)) == Answer(args, reply, rest)
    ensures reply == rx[..ReplyLength(rx, window)]
  {
    ReceiveReply(rx, window);
  }

  /** `a` (which succeeded) followed by `b`. */
  function Then(a: Transcript, b: Transcript): Transcript {
    Transcript(b.failure, a.payloads + b.payloads, a.frames + b.frames, b.rest)
  }

  /** The steps run in order on the link, each by `perform`; the first failure
      halts the session. The session laws below hold whatever a single step
      does, so they are stated for any step semantics. */
  function Session(perform: (seq<byte>, Step) -> Transcript, rx: seq<byte>, steps: seq<Step>): Transcript
    decreases |steps|, 0
  {
    if steps == [] then Transcript(None, [], [], rx)
    else Resume(perform, perform(rx, steps[0]), steps[1..])
  }

  /** Carries on with `steps` after `t`, unless `t` failed. */
  function Resume(perform: (seq<byte>, Step) -> Transcript, t: Transcript, steps: seq<Step>): Transcript
    decreases |steps|, 1
  {
    if t.failure.Some? then t else Then(t, Session(perform, t.rest, steps))
  }

  /** The session `writecmd` and its callers run. */
  function Script(rx: seq<byte>, steps: seq<Step>): Transcript {
    Session(Perform, rx, steps)
  }

  function Continue(t: Transcript, steps: seq<Step>): Transcript {
    Resume(Perform, t, steps)
  }

  /** Running two sessions one after the other is running their concatenation. */
  lemma {:induction false} SessionAppend(perform: (seq<byte>, Step) -> Transcript, rx: seq<byte>, a: seq<Step>, b: seq<Step>)
    ensures Session(perform, rx, a + b) == Resume(perform, Session(perform, rx, a), b)
    decreases |a|
  {
    if a == [] {
      assert a + b == b;
    } else {
      assert (a + b)[0] == a[0];
      assert (a + b)[1..] == a[1..] + b;
      var t := perform(rx, a[0]);
      if t.failure.None? {
        SessionAppend(perform, t.rest, a[1..], b);
      }
    }
  }

  lemma ScriptAppend(rx: seq<byte>, a: seq<Step>, b: seq<Step>)
    ensures Script(rx, a + b) == Continue(Script(rx, a), b)
  {
    SessionAppend(Perform, rx, a, b);
  }

  /** The frames a session writes when every step succeeds. */
  function Frames(steps: seq<Step>): seq<string> {
    if steps == [] then []
    else (match steps[0]
          case Cmd(args, _) => [Frame(args)]
          case Send(args) => [Frame(args)]
          case Drain(_) => []) + Frames(steps[1..])
  }

  function CmdCount(steps: seq<Step>): nat {
    if steps == [] then 0 else (if steps[0].Cmd? then 1 else 0) + CmdCount(steps[1..])
  }

  /** The frames and commands of one step followed by more. */
  lemma FramesCons(step: Step, more: seq<Step>)
    ensures Frames([step] + more) == Frames([step]) + Frames(more)
    ensures CmdCount([step] + more) == CmdCount([step]) + CmdCount(more)
  {
    assert ([step] + more)[1..] == more && [step][1..] == [];
  }

  /** What a single step may do: write its own frame or nothing (nothing only
      when it failed, or when it writes none), answer with one payload exactly
      when it is a command that succeeded, and only consume bytes. */
  predicate StepLaw(perform: (seq<byte>, Step) -> Transcript, rx: seq<byte>, step: Step) {
    var t := perform(rx, step);
    var head := match step case Cmd(a, _) => [Frame(a)] case Send(a) => [Frame(a)] case Drain(_) => [];
    EndsWith(rx, t.rest) &&
    (t.frames == head || (t.failure.Some? && t.frames == [])) &&
    (t.failure.None? ==> |t.payloads| == (if step.Cmd? then 1 else 0))
  }

  lemma PerformLaw(rx: seq<byte>, step: Step)
    ensures StepLaw(Perform, rx, step)
  {
    if step.Cmd? && IsAscii(Frame(step.args)) {
      PerformCmd(rx, step.args, step.window);
      var n := ReplyLength(rx, step.window);
      assert rx[|rx| - |rx[n..]|..] == rx[n..];
    }
  }

  /** A session writes a prefix of its frames, all of them exactly when it
      succeeds, gets one payload per answered command, and only consumes bytes. */
  lemma {:induction false} SessionSendsPrefix(perform: (seq<byte>, Step) -> Transcript, rx: seq<byte>, steps: seq<Step>)
    requires forall r, step :: StepLaw(perform, r, step)
    ensures StartsWith(Frames(steps), Session(perform, rx, steps).frames)
    ensures Session(perform, rx, steps).failure.None? ==>
              Session(perform, rx, steps).frames == Frames(steps) &&
              |Session(perform, rx, steps).payloads| == CmdCount(steps)
    ensures EndsWith(rx, Session(perform, rx, steps).rest)
    decreases |steps|
  {
    if steps != [] {
      var t := perform(rx, steps[0]);
      assert StepLaw(perform, rx, steps[0]);
      var head := match steps[0] case Cmd(a, _) => [Frame(a)] case Send(a) => [Frame(a)] case Drain(_) => [];
      assert Frames(steps) == head + Frames(steps[1..]);
      if t.failure.None? {
        SessionSendsPrefix(perform, t.rest, steps[1..]);
        var u := Session(perform, t.rest, steps[1..]);
        assert (head + Frames(steps[1..]))[..|head + u.frames|] == head + u.frames by {
          assert Frames(steps[1..])[..|u.frames|] == u.frames;
        }
        assert rx[|rx| - |u.rest|..] == t.rest[|t.rest| - |u.rest|..];
      }
    }
  }

  lemma ScriptSendsPrefix(rx: seq<byte>, steps: seq<Step>)
    ensures StartsWith(Frames(steps), Script(rx, steps).frames)
    ensures Script(rx, steps).failure.None? ==>
              Script(rx, steps).frames == Frames(steps) && |Script(rx, steps).payloads| == CmdCount(steps)
    ensures EndsWith(rx, Script(rx, steps).rest)
  {
    forall r, step ensures StepLaw(Perform, r, step) {
      PerformLaw(r, step);
    }
    SessionSendsPrefix(Perform, rx, steps);
  }

  /** One more step after a session that has not failed. */
  lemma ScriptSnoc(rx: seq<byte>, steps: seq<Step>, step: Step)
    requires Script(rx, steps).failure.None?
    ensures Script(rx, steps + [step]) == Then(Script(rx, steps), Perform(Script(rx, steps).rest, step))
  {
    SessionAppend(Perform, rx, steps, [step]);
    SessionSingle(Perform, Script(rx, steps).rest, step);
  }

  /** After a failure nothing more happens on the link. */
  lemma ScriptHalts(rx: seq<byte>, steps: seq<Step>, more: seq<Step>)
    requires Script(rx, steps).failure.Some?
    ensures Script(rx, steps + more) == Script(rx, steps)
  {
    SessionAppend(Perform, rx, steps, more);
  }

  /** Running the first k + 1 steps is running the first k, then step k. */
  lemma ScriptStep(rx: seq<byte>, steps: seq<Step>, k: nat)
    requires k < |steps| && Script(rx, steps[..k]).failure.None?
    ensures var t := Script(rx, steps[..k]);
            Script(rx, steps[..k + 1]) == Then(t, Perform(t.rest, steps[k]))
  {
    assert steps[..k] + [steps[k]] == steps[..k + 1];
    ScriptSnoc(rx, steps[..k], steps[k]);
  }

  /** Steps whose first k fail go no further. */
  lemma ScriptStop(rx: seq<byte>, steps: seq<Step>, k: nat)
    requires k <= |steps| && Script(rx, steps[..k]).failure.Some?
    ensures Script(rx, steps) == Script(rx, steps[..k])
  {
    ScriptHalts(rx, steps[..k], steps[k..]);
    assert steps[..k] + steps[k..] == steps;
  }

  /** The same reply window for each command of a list. */
  function Cmds(cmds: seq<string>, window: nat): (steps: seq<Step>)
    ensures |steps| == |cmds| && forall i :: 0 <= i < |cmds| ==> steps[i] == Cmd(cmds[i], window)
  {
    seq(|cmds|, i requires 0 <= i < |cmds| => Cmd(cmds[i], window))
  }

  /** A list of commands writes one frame per command. */
  lemma {:induction false} CmdsFrames(cmds: seq<string>, window: nat)
    ensures |Frames(Cmds(cmds, window))| == |cmds| && CmdCount(Cmds(cmds, window)) == |cmds|
    ensures forall i :: 0 <= i < |cmds| ==> Frames(Cmds(cmds, window))[i] == Frame(cmds[i])
    decreases |cmds|
  {
    if cmds != [] {
      CmdsFrames(cmds[1..], window);
      assert Cmds(cmds, window)[1..] == Cmds(cmds[1..], window);
    }
  }

  lemma CmdsPrefix(cmds: seq<string>, k: nat, window: nat)
    requires k < |cmds|
    ensures Cmds(cmds[..k], window) + [Cmd(cmds[k], window)] == Cmds(cmds[..k + 1], window)
  {
  }

  /** Running the first k + 1 commands of a list is running the first k, then
      command k. */
  lemma CmdsStep(rx: seq<byte>, cmds: seq<string>, k: nat, window: nat)
    requires k < |cmds| && Script(rx, Cmds(cmds[..k], window)).failure.None?
    ensures var t := Script(rx, Cmds(cmds[..k], window));
            Script(rx, Cmds(cmds[..k + 1], window)) == Then(t, Perform(t.rest, Cmd(cmds[k], window)))
  {
    CmdsPrefix(cmds, k, window);
    ScriptSnoc(rx, Cmds(cmds[..k], window), Cmd(cmds[k], window));
  }

  /** A list of commands whose first k fail goes no further. */
  lemma CmdsHalt(rx: seq<byte>, cmds: seq<string>, k: nat, window: nat)
    requires k <= |cmds| && Script(rx, Cmds(cmds[..k], window)).failure.Some?
    ensures Script(rx, Cmds(cmds, window)) == Script(rx, Cmds(cmds[..k], window))
  {
    ScriptHalts(rx, Cmds(cmds[..k], window), Cmds(cmds[k..], window));
    assert Cmds(cmds[..k], window) + Cmds(cmds[k..], window) == Cmds(cmds, window);
  }

  lemma CmdsAppend(a: seq<string>, b: seq<string>, window: nat)
    ensures Cmds(a + b, window) == Cmds(a, window) + Cmds(b, window)
  {
  }

  /** Two steps: the second runs on what the first left, unless the first failed. */
  lemma ScriptPair(rx: seq<byte>, a: Step, b: Step)
    ensures var t1 := Perform(rx, a);
            Script(rx, [a, b]) == if t1.failure.Some? then t1 else Then(t1, Perform(t1.rest, b))
  {
    var t1 := Perform(rx, a);
    assert [a, b][0] == a && [a, b][1..] == [b];
    assert Script(rx, [a, b]) == Resume(Perform, t1, [b]);
    SessionSingle(Perform, t1.rest, b);
  }

  /** A single step run as a session is that step. */
  lemma SessionSingle(perform: (seq<byte>, Step) -> Transcript, rx: seq<byte>, step: Step)
    ensures Session(perform, rx, [step]) == perform(rx, step)
  {
    var t := perform(rx, step);
    assert [step][0] == step && [step][1..] == [];
    assert Session(perform, rx, [step]) == Resume(perform, t, []);
    if t.failure.None? {
      assert Session(perform, t.rest, []) == Transcript(None, [], [], t.rest);
      assert t.payloads + [] == t.payloads && t.frames + [] == t.frames;
    }
  }
}
