/** `BLDevice`: the driver object that talks to the module over the serial
    link. The link is the sequence of bytes the module will send (`rx`) and the
    log of frames written to it (`sent`); each method is proved against the
    session model of the Protocol module. */
module Driver {
  import opened Outcomes
  import opened Text
  import opened Protocol
  import opened Paths
  import opened Transfer
  import opened RunOutput

  /** `"I %d" % param`: the command that reads information register `param`. */
  function ParamCommand(param: nat): (c: string)
    ensures StartsWith(c, "I ") && |c| > 2 && AllDigits(c[2..]) && DecimalValue(c[2..]) == param
    ensures c[2] != '0' || c == "I 0"
  {
    var d := Decimal(param);
    assert ("I " + d)[2..] == d;
    "I " + d
  }

  /** `revision.replace(" ", "_")`. */
  function Underscored(s: string): (r: string)
    ensures |r| == |s| && ' ' !in r
    ensures forall i :: 0 <= i < |s| ==> r[i] == (if s[i] == ' ' then '_' else s[i])
  {
    if s == [] then [] else [if s[0] == ' ' then '_' else s[0]] + Underscored(s[1..])
  }

  /** `"%s_%s" % (model, revision.replace(" ", "_"))`. */
  function ModelId(model: string, revision: string): (id: string)
    ensures StartsWith(id, model + "_") && |id| == |model| + 1 + |revision|
    ensures ' ' !in id[|model| + 1..]
  {
    var id := model + "_" + Underscored(revision);
    assert id[..|model| + 1] == model + "_";
    assert id[|model| + 1..] == Underscored(revision);
    id
  }

  /** A revision without spaces appears verbatim after the underscore: only
      spaces are rewritten. */
  lemma ModelIdKeepsModel(model: string, revision: string)
    requires ' ' !in revision
    ensures ModelId(model, revision) == model + "_" + revision
  {
    var u := Underscored(revision);
    assert forall i :: 0 <= i < |revision| ==> u[i] == revision[i];
  }

  /** What `read_param` returns from the payload of a register read: the text
      after its last tab. */
  lemma ParamFieldValue(prefix: string, value: string)
    requires '\t' !in value
    ensures LastField(prefix + "\t" + value, '\t') == value
  {
    var s := prefix + "\t" + value;
    var r := LastField(s, '\t');
    assert s[|s| - |value|..] == value;
    assert s[|s| - |value| - 1] == '\t';
    assert r == s[|s| - |r|..];
    assert forall k :: |s| - |r| <= k < |s| ==> s[k] == r[k - (|s| - |r|)];
    assert |r| <= |value|;
    assert r == value[|value| - |r|..];
  }

  /** The frame `run` sends to start a program. */
  function RunCommand(name: string): string { "+RUN \"" + name + "\"" }

  /** The command `delete` sends (without the " +" that `upload` adds). */
  function DeleteCommand(name: string): string { "+DEL \"" + name + "\"" }

  const ListCommand: string := "+DIR"

  /** `format`: erase (with a longer reply window), check the link, factory
      reset without waiting for a reply, discard whatever arrives (at most 1024
      bytes), check the link again. */
  function FormatSteps(eraseWindow: nat, window: nat, drainWindow: nat): seq<Step> {
    [Cmd("Z", eraseWindow), Cmd("", window), Send("&F 1"), Drain(Min(RunReadSize, drainWindow)), Cmd("", window)]
  }

  /** The frames of a sequence shaped like FormatSteps. */
  lemma FormatShapeFrames(a: string, b: string, c: string, d: string, w1: nat, w2: nat, w3: nat, w4: nat)
    ensures var steps := [Cmd(a, w1), Cmd(b, w2), Send(c), Drain(w3), Cmd(d, w4)];
            Frames(steps) == [Frame(a), Frame(b), Frame(c), Frame(d)] && CmdCount(steps) == 3
  {
    var last := [Cmd(d, w4)];
    FramesCons(Drain(w3), last);
    FramesCons(Send(c), [Drain(w3)] + last);
    FramesCons(Cmd(b, w2), [Send(c), Drain(w3)] + last);
    FramesCons(Cmd(a, w1), [Cmd(b, w2), Send(c), Drain(w3)] + last);
    assert [Cmd(a, w1), Cmd(b, w2), Send(c), Drain(w3), Cmd(d, w4)]
        == [Cmd(a, w1)] + ([Cmd(b, w2)] + ([Send(c)] + ([Drain(w3)] + last)));
  }

  lemma FormatFrames(eraseWindow: nat, window: nat, drainWindow: nat)
    ensures Frames(FormatSteps(eraseWindow, window, drainWindow)) == [Frame("Z"), Frame(""), Frame("&F 1"), Frame("")]
    ensures CmdCount(FormatSteps(eraseWindow, window, drainWindow)) == 3
  {
    FormatShapeFrames("Z", "", "&F 1", "", eraseWindow, window, Min(RunReadSize, drainWindow), window);
  }

  /** `format` writes the erase, a check, the factory reset and a second check,
      in that order, stopping at the first failure; when it succeeds the three
      commands it waits for have each answered. */
  lemma FormatSends(rx: seq<byte>, eraseWindow: nat, window: nat, drainWindow: nat)
    ensures var t := Script(rx, FormatSteps(eraseWindow, window, drainWindow));
            StartsWith([Frame("Z"), Frame(""), Frame("&F 1"), Frame("")], t.frames) &&
            (t.failure.None? ==> t.frames == [Frame("Z"), Frame(""), Frame("&F 1"), Frame("")] && |t.payloads| == 3)
  {
    ScriptSendsPrefix(rx, FormatSteps(eraseWindow, window, drainWindow));
    FormatFrames(eraseWindow, window, drainWindow);
  }

  /** `detect_model`: read registers 0 (model) and 13 (revision). */
  function DetectSteps(window: nat): seq<Step> {
    [Cmd(ParamCommand(0), window), Cmd(ParamCommand(13), window)]
  }

  /** What `upload` does on the link for `path` when the local files are
      `files`: delete and open the device file, then, when the `.uwc` file
      exists, one hex write per 16-byte chunk and close; otherwise it stops with
      a missing-file error after the open. */
  function UploadSession(rx: seq<byte>, path: string, files: map<string, seq<byte>>, window: nat): Transcript {
    var file := UploadPath(path);
    var name := DeviceName(file);
    if file in files then Script(rx, Cmds(UploadCommands(name, files[file]), window))
    else
      var t := Script(rx, Cmds([DeleteForUpload(name), OpenForWrite(name)], window));
      if t.failure.Some? then t else Transcript(Some(MissingFile(file)), t.payloads, t.frames, t.rest)
  }

  /** A successful upload wrote exactly the framed upload commands for the file
      the path names, and those carry the file's bytes. */
  lemma UploadSessionSends(rx: seq<byte>, path: string, files: map<string, seq<byte>>, window: nat)
    requires UploadSession(rx, path, files, window).failure.None?
    ensures UploadPath(path) in files
    ensures var cmds := UploadCommands(DeviceName(UploadPath(path)), files[UploadPath(path)]);
            var frames := UploadSession(rx, path, files, window).frames;
            |frames| == |cmds| && forall i :: 0 <= i < |cmds| ==> frames[i] == Frame(cmds[i])
  {
    var file := UploadPath(path);
    var cmds := UploadCommands(DeviceName(file), files[file]);
    ScriptSendsPrefix(rx, Cmds(cmds, window));
    CmdsFrames(cmds, window);
  }

  /** What `run` does before it reads: check that the module answers, then
      start the program without waiting for a reply. */
  function RunStart(name: string, window: nat): seq<Step> {
    [Cmd("", window), Send(RunCommand(name))]
  }

  /** What `run` reports: the failure of its start, or the sorted answer, of
      which it reads at most 1024 bytes (and no more than arrive in `readWindow`). */
  function RunResult(rx: seq<byte>, name: string, window: nat, readWindow: nat): Result<RunOutcome, Error> {
    var t := Script(rx, RunStart(name, window));
    if t.failure.Some? then Failure(t.failure.value)
    else Success(ClassifyRun(t.rest[..Min(Min(RunReadSize, readWindow), |t.rest|)]))
  }

  /** Once the empty command succeeds, `run` only writes its start frame. */
  lemma RunStartRest(rx: seq<byte>, name: string, window: nat)
    requires Perform(rx, Cmd("", window)).failure.None? && IsAscii(Frame(RunCommand(name)))
    ensures var t := Script(rx, RunStart(name, window));
            t.failure.None? && t.rest == Perform(rx, Cmd("", window)).rest
  {
    var steps := RunStart(name, window);
    assert steps[..0] == [] && steps[..2] == steps;
    ScriptStep(rx, steps, 0);
    ScriptStep(rx, steps, 1);
  }

  /** When the module acknowledges the empty command with one whole reply, the
      program's answer is what follows that reply, cut to the read size. */
  lemma RunAfterReady(reply: seq<byte>, out: seq<byte>, name: string, window: nat, readWindow: nat)
    requires EndsWith(reply, Terminator) && |reply| <= window
    requires forall j :: 0 <= j < |reply| ==> !EndsWith(reply[..j], Terminator)
    requires Classify("", reply).Success? && IsAscii(Frame(RunCommand(name)))
    ensures RunResult(reply + out, name, window, readWindow)
         == Success(ClassifyRun(out[..Min(Min(RunReadSize, readWindow), |out|)]))
  {
    ReadsWholeReply(reply, out, window);
    assert IsAscii(Frame("")) by {
      assert Frame("") == "AT \r";
    }
    PerformCmd(reply + out, "", window);
    RunStartRest(reply + out, name, window);
  }

  /** The frames and link after steps[..k + 1], from those after steps[..k] and
      the effect of step k. */
  lemma Advance(rx0: seq<byte>, steps: seq<Step>, k: nat, sent0: seq<string>, mid: seq<string>, after: seq<string>, rest: seq<byte>)
    requires k < |steps| && Script(rx0, steps[..k]).failure.None?
    requires mid == sent0 + Script(rx0, steps[..k]).frames
    requires var u := Perform(Script(rx0, steps[..k]).rest, steps[k]);
             after == mid + u.frames && rest == u.rest
    ensures var t := Script(rx0, steps[..k + 1]);
            after == sent0 + t.frames && rest == t.rest &&
            t.failure == Perform(Script(rx0, steps[..k]).rest, steps[k]).failure
  {
    var t := Script(rx0, steps[..k]);
    ScriptStep(rx0, steps, k);
    AppendAssoc(sent0, t.frames, Perform(t.rest, steps[k]).frames);
  }

  class Device {
    /** The bytes the module will still send, in order. */
    var rx: seq<byte>
    /** The frames written to the link so far. */
    var sent: seq<string>
    /** The model string the compiler is chosen by, once known. */
    var model: Option<string>

    constructor(incoming: seq<byte>)
      ensures rx == incoming && sent == [] && model == None
    {
      rx := incoming;
      sent := [];
      model := None;
    }

    /** `writecmd(args, expect_response=False)`: only the frame is written. */
    method Write(args: string) returns (failure: Option<Error>)
      modifies this
      ensures var t := Perform(old(rx), Send(args));
              failure == t.failure && sent == old(sent) + t.frames && rx == t.rest && model == old(model)
      ensures failure.None? <==> IsAscii(Frame(args))
    {
      var frame := Frame(args);
      if !IsAscii(frame) {
        return Some(Unencodable(frame));
      }
      sent := sent + [frame];
      failure := None;
    }

    /** `writecmd(args)`: write the frame, then read one byte at a time until
        what was read ends in "00\r", the deadline passes (`window` bytes have
        arrived) or the module has nothing more to send, and classify it. */
    method WriteCmd(args: string, window: nat) returns (r: Result<string, Error>)
      modifies this
      ensures var t := Perform(old(rx), Cmd(args, window));
              sent == old(sent) + t.frames && rx == t.rest && model == old(model) &&
              (r.Failure? <==> t.failure.Some?) && (r.Failure? ==> t.failure == Some(r.error)) &&
              (r.Success? ==> t.payloads == [r.value])
      ensures IsAscii(Frame(args)) ==> r == Classify(args, old(rx)[..ReplyLength(old(rx), window)])
    {
      var frame := Frame(args);
      if !IsAscii(frame) {
        assert sent == old(sent) + [];
        return Failure(Unencodable(frame));
      }
      sent := sent + [frame];
      ghost var rx0 := rx;
      var response := ReadReply(window);
      CmdAnswer(rx0, args, window, response, rx);
      r := Classify(args, response);
    }

    /** The read loop of `writecmd`: one byte at a time until what was read ends
        in "00\r", the deadline passes (`window` bytes have arrived) or the
        module has nothing more to send. */
    method ReadReply(window: nat) returns (response: seq<byte>)
      modifies this
      ensures Receive(old(rx), window, []) == (response, rx)
      ensures sent == old(sent) && model == old(model)
    {
      response := [];
      var arrived := 0;
      while !EndsWith(response, Terminator) && arrived < window && rx != []
        invariant arrived <= window
        invariant Receive(old(rx), window, []) == Receive(rx, window - arrived, response)
        invariant sent == old(sent) && model == old(model)
        decreases |rx|
      {
        ReceiveNext(rx, window - arrived, response);
        response := response + [rx[0]];
        rx := rx[1..];
        arrived := arrived + 1;
      }
      ReceiveEnd(rx, window - arrived, response);
    }

    /** `port.read(n)`: whatever arrives before the deadline, at most `window`
        bytes, taken off the link. */
    method Read(window: nat) returns (bytes: seq<byte>)
      modifies this
      ensures var t := Perform(old(rx), Drain(window));
              sent == old(sent) && rx == t.rest && model == old(model) && bytes + rx == old(rx)
      ensures |bytes| == Min(window, |old(rx)|)
    {
      bytes := rx[..Min(window, |rx|)];
      rx := rx[Min(window, |rx|)..];
    }

    /** `read_param`: the last tab-separated field of the register's payload. */
    method ReadParam(param: nat, window: nat) returns (r: Result<string, Error>)
      modifies this
      ensures var t := Perform(old(rx), Cmd(ParamCommand(param), window));
              sent == old(sent) + t.frames && rx == t.rest && model == old(model) &&
              (r.Failure? <==> t.failure.Some?) && (r.Failure? ==> t.failure == Some(r.error)) &&
              (r.Success? ==> |t.payloads| == 1 && r.value == LastField(t.payloads[0], '\t'))
      ensures r.Success? ==> '\t' !in r.value
    {
      var reply := WriteCmd(ParamCommand(param), window);
      match reply
      case Failure(e) => r := Failure(e);
      case Success(payload) => r := Success(LastField(payload, '\t'));
    }

    /** `detect_model`: the model string is "model_revision" with the revision's
        spaces turned into underscores; a failed read leaves it unset. */
    method DetectModel(window: nat) returns (failure: Option<Error>)
      modifies this
      ensures var t := Script(old(rx), DetectSteps(window));
              failure == t.failure && sent == old(sent) + t.frames && rx == t.rest
      ensures var t := Script(old(rx), DetectSteps(window));
              t.failure.None? ==>
                (|t.payloads| == 2 &&
                 model == Some(ModelId(LastField(t.payloads[0], '\t'), LastField(t.payloads[1], '\t'))))
      ensures failure.Some? ==> model == old(model)
    {
      ghost var rx0, sent0 := rx, sent;
      ghost var t1 := Perform(rx0, Cmd(ParamCommand(0), window));
      ScriptPair(rx0, Cmd(ParamCommand(0), window), Cmd(ParamCommand(13), window));
      var m := ReadParam(0, window);
      if m.Failure? {
        return Some(m.error);
      }
      ghost var t2 := Perform(rx, Cmd(ParamCommand(13), window));
      var rev := ReadParam(13, window);
      AppendAssoc(sent0, t1.frames, t2.frames);
      if rev.Failure? {
        return Some(rev.error);
      }
      model := Some(ModelId(m.value, rev.value));
      failure := None;
    }

    /** `writecmd` for each command of a list in turn, stopping at the first
        one that fails. */
    method WriteAll(cmds: seq<string>, window: nat) returns (failure: Option<Error>)
      modifies this
      ensures var t := Script(old(rx), Cmds(cmds, window));
              failure == t.failure && sent == old(sent) + t.frames && rx == t.rest && model == old(model)
    {
      assert cmds[..0] == [];
      var i := 0;
      while i < |cmds|
        invariant i <= |cmds|
        invariant var t := Script(old(rx), Cmds(cmds[..i], window));
                  t.failure.None? && sent == old(sent) + t.frames && rx == t.rest && model == old(model)
      {
        CmdsStep(old(rx), cmds, i, window);
        var r := WriteCmd(cmds[i], window);
        if r.Failure? {
          CmdsHalt(old(rx), cmds, i + 1, window);
          return Some(r.error);
        }
        i := i + 1;
      }
      assert cmds[..i] == cmds;
      failure := None;
    }

    /** `upload`: the file `to_uwc` names is stored under its device name. */
    method Upload(path: string, files: map<string, seq<byte>>, window: nat) returns (failure: Option<Error>)
      modifies this
      ensures var t := UploadSession(old(rx), path, files, window);
              failure == t.failure && sent == old(sent) + t.frames && rx == t.rest && model == old(model)
    {
      var file := UploadPath(path);
      var name := DeviceName(file);
      ghost var sent0 := sent;
      ghost var t1 := Script(rx, Cmds([DeleteForUpload(name), OpenForWrite(name)], window));
      failure := WriteAll([DeleteForUpload(name), OpenForWrite(name)], window);
      if failure.Some? {
        OpenHalts(old(rx), path, files, window);
        return;
      }
      if file !in files {
        return Some(MissingFile(file));
      }
      var cs := Chunks(files[file], ChunkSize);
      UploadScript(old(rx), name, files[file], window);
      ghost var t2 := Script(rx, Cmds(WriteCommands(Rows(cs)), window));
      failure := WriteAll(WriteCommands(Rows(cs)), window);
      AppendAssoc(sent0, t1.frames, t2.frames);
      if failure.Some? {
        return;
      }
      ghost var t3 := Script(rx, Cmds([CloseFile], window));
      failure := WriteAll([CloseFile], window);
      AppendAssoc(sent0 + t1.frames, t2.frames, t3.frames);
      AppendAssoc(sent0, t1.frames + t2.frames, t3.frames);
    }

    /** The start of `run`: the link check, then the `+RUN` frame. */
    method StartProgram(name: string, window: nat) returns (failure: Option<Error>)
      modifies this
      ensures var t := Script(old(rx), RunStart(name, window));
              failure == t.failure && sent == old(sent) + t.frames && rx == t.rest && model == old(model)
    {
      ghost var rx0, sent0 := rx, sent;
      var steps := RunStart(name, window);
      assert steps[..0] == [];
      failure := ApplyNext(rx0, sent0, steps, 0);
      if failure.Some? {
        return;
      }
      failure := ApplyNext(rx0, sent0, steps, 1);
      assert steps[..2] == steps;
    }

    /** `run`: check the link, start the program stored under the path's
        device name, and sort what comes back within one read. */
    method Run(path: string, window: nat, readWindow: nat) returns (r: Result<RunOutcome, Error>)
      modifies this
      ensures var name := DeviceName(path);
              var t := Script(old(rx), RunStart(name, window) + [Drain(Min(RunReadSize, readWindow))]);
              sent == old(sent) + t.frames && rx == t.rest && model == old(model) &&
              r == RunResult(old(rx), name, window, readWindow) && (r.Failure? <==> t.failure.Some?)
    {
      var name := DeviceName(path);
      ghost var start := RunStart(name, window);
      ghost var drain := Drain(Min(RunReadSize, readWindow));
      var failure := StartProgram(name, window);
      if failure.Some? {
        ScriptHalts(old(rx), start, [drain]);
        return Failure(failure.value);
      }
      ScriptSnoc(old(rx), start, drain);
      ghost var rest := rx;
      var output := Read(Min(RunReadSize, readWindow));
      assert output == rest[..Min(Min(RunReadSize, readWindow), |rest|)];
      assert sent == old(sent) + Script(old(rx), start).frames + [];
      r := Success(ClassifyRun(output));
    }

    /** `list`: the module's directory listing, as `+DIR` answers it. */
    method List(window: nat) returns (r: Result<string, Error>)
      modifies this
      ensures var t := Perform(old(rx), Cmd(ListCommand, window));
              sent == old(sent) + t.frames && rx == t.rest && model == old(model) &&
              (r.Failure? <==> t.failure.Some?) && (r.Failure? ==> t.failure == Some(r.error)) &&
              (r.Success? ==> t.payloads == [r.value])
    {
      r := WriteCmd(ListCommand, window);
    }

    /** `delete`: removes the file stored under the path's device name. */
    method Delete(path: string, window: nat) returns (failure: Option<Error>)
      modifies this
      ensures var t := Perform(old(rx), Cmd(DeleteCommand(DeviceName(path)), window));
              failure == t.failure && sent == old(sent) + t.frames && rx == t.rest && model == old(model)
    {
      var r := WriteCmd(DeleteCommand(DeviceName(path)), window);
      failure := if r.Failure? then Some(r.error) else None;
    }

    /** One step of a fixed command sequence: `writecmd` with or without
        waiting for the reply, or a read whose bytes are dropped. */
    method Apply(step: Step) returns (failure: Option<Error>)
      modifies this
      ensures var t := Perform(old(rx), step);
              failure == t.failure && sent == old(sent) + t.frames && rx == t.rest && model == old(model)
    {
      match step
      case Cmd(args, window) =>
        var r := WriteCmd(args, window);
        failure := if r.Failure? then Some(r.error) else None;
      case Send(args) =>
        failure := Write(args);
      case Drain(window) =>
        var _ := Read(window);
        failure := None;
    }

    /** Step k of a fixed sequence, after steps[..k] went through: the link
        then shows steps[..k + 1], and a failure ends the whole sequence. */
    method ApplyNext(ghost rx0: seq<byte>, ghost sent0: seq<string>, steps: seq<Step>, k: nat) returns (failure: Option<Error>)
      requires k < |steps|
      requires var t := Script(rx0, steps[..k]);
               t.failure.None? && sent == sent0 + t.frames && rx == t.rest
      modifies this
      ensures var t := Script(rx0, steps[..k + 1]);
              failure == t.failure && sent == sent0 + t.frames && rx == t.rest && model == old(model)
      ensures failure.Some? ==> Script(rx0, steps) == Script(rx0, steps[..k + 1])
    {
      ghost var before := sent;
      failure := Apply(steps[k]);
      Advance(rx0, steps, k, sent0, before, sent, rx);
      if failure.Some? {
        ScriptStop(rx0, steps, k + 1);
      }
    }

    /** `format`: the five steps of FormatSteps, stopping at the first failure. */
    method Format(eraseWindow: nat, window: nat, drainWindow: nat) returns (failure: Option<Error>)
      modifies this
      ensures var t := Script(old(rx), FormatSteps(eraseWindow, window, drainWindow));
              failure == t.failure && sent == old(sent) + t.frames && rx == t.rest && model == old(model)
    {
      ghost var rx0, sent0 := rx, sent;
      var steps := FormatSteps(eraseWindow, window, drainWindow);
      assert steps[..0] == [];
      failure := ApplyNext(rx0, sent0, steps, 0);
      if failure.Some? {
        return;
      }
      failure := ApplyNext(rx0, sent0, steps, 1);
      if failure.Some? {
        return;
      }
      failure := ApplyNext(rx0, sent0, steps, 2);
      if failure.Some? {
        return;
      }
      failure := ApplyNext(rx0, sent0, steps, 3);
      if failure.Some? {
        return;
      }
      failure := ApplyNext(rx0, sent0, steps, 4);
      assert steps[..5] == steps;
    }
  }

  /** An upload whose delete or open fails ends there. */
  lemma OpenHalts(rx: seq<byte>, path: string, files: map<string, seq<byte>>, window: nat)
    requires Script(rx, Cmds([DeleteForUpload(DeviceName(UploadPath(path))), OpenForWrite(DeviceName(UploadPath(path)))], window)).failure.Some?
    ensures UploadSession(rx, path, files, window)
         == Script(rx, Cmds([DeleteForUpload(DeviceName(UploadPath(path))), OpenForWrite(DeviceName(UploadPath(path)))], window))
  {
    var file := UploadPath(path);
    if file in files {
      UploadScript(rx, DeviceName(file), files[file], window);
    }
  }

  /** The upload commands run as three sessions: open, the writes, close. */
  lemma UploadScript(rx: seq<byte>, name: string, data: seq<byte>, window: nat)
    ensures var open := Script(rx, Cmds([DeleteForUpload(name), OpenForWrite(name)], window));
            Script(rx, Cmds(UploadCommands(name, data), window)) ==
              Continue(Continue(open, Cmds(WriteCommands(Rows(ChunksOf(data, ChunkSize))), window)), Cmds([CloseFile], window))
  {
    var a, b, c := [DeleteForUpload(name), OpenForWrite(name)], WriteCommands(Rows(ChunksOf(data, ChunkSize))), [CloseFile];
    CmdsAppend(a + b, c, window);
    CmdsAppend(a, b, window);
    ScriptAppend(rx, Cmds(a, window) + Cmds(b, window), Cmds(c, window));
    ScriptAppend(rx, Cmds(a, window), Cmds(b, window));
  }
}
