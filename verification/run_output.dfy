/** How `run` reads the module's answer to `+RUN`: one read of up to 1024 bytes,
    sorted into what the tool reports. */
module RunOutput {
  import opened Text
  import opened Protocol

  /** The most `run` reads after starting a program. */
  const RunReadSize: nat := 1024

  /** "\n00": the one unterminated answer `run` passes over in silence. */
  const BareStatus: seq<byte> := [10, 48, 48]

  datatype RunOutcome =
    | ProbablyRunning                 // nothing arrived
    | Completed(shown: seq<byte>)     // ended in the success terminator; `shown` printed when not empty
    | RunFailed(code: seq<byte>)      // an error reply, code as `writecmd` extracts it
    | Ignored                         // exactly "\n00"
    | Immediate(output: seq<byte>)    // anything else, shown as it came

  /** The branches of `run` after `port.read(1024)`, in the source's order. */
  function ClassifyRun(output: seq<byte>): (r: RunOutcome)
    ensures r.Completed? ==> output == r.shown + Terminator
    ensures r.RunFailed? ==> |output| > 4 && output == ErrorPrefix + r.code + [output[|output| - 1]] && !EndsWith(output, Terminator)
    ensures r.Immediate? ==> r.output == output && output != []
    ensures r.Ignored? <==> output == BareStatus
    ensures r.ProbablyRunning? <==> output == []
  {
    if |output| == 0 then ProbablyRunning
    else if |output| >= 3 && output[|output| - 3..] == Terminator then
      assert output == output[..|output| - 3] + output[|output| - 3..];
      Completed(output[..|output| - 3])
    else if |output| > 4 && output[..4] == ErrorPrefix then
      assert output == output[..4] + output[4..|output| - 1] + [output[|output| - 1]];
      RunFailed(output[4..|output| - 1])
    else if output != BareStatus then Immediate(output)
    else Ignored
  }

  /** A terminated answer is success even when it also starts like an error
      reply, and its bytes before the terminator are shown exactly when there
      are any. */
  lemma TerminatedRun(output: seq<byte>)
    requires EndsWith(output, Terminator)
    ensures ClassifyRun(output) == Completed(output[..|output| - 3])
    ensures |ClassifyRun(output).shown| > 0 <==> |output| > 3
  {
  }

  /** Program output followed by the terminator is reported as exactly that output. */
  lemma ProgramOutputShown(text: seq<byte>)
    ensures ClassifyRun(text + Terminator) == Completed(text)
  {
    var out := text + Terminator;
    assert out[|out| - 3..] == Terminator;
    assert out[..|out| - 3] == text;
  }

  /** The source's example: "hello\r\n00\r" completes and shows "hello\r\n". */
  lemma HelloRun()
    ensures ClassifyRun([104, 101, 108, 108, 111, 13, 10, 48, 48, 13]) ==
              Completed([104, 101, 108, 108, 111, 13, 10])
  {
    ProgramOutputShown([104, 101, 108, 108, 111, 13, 10]);
    assert [104, 101, 108, 108, 111, 13, 10] + Terminator == [104, 101, 108, 108, 111, 13, 10, 48, 48, 13];
  }

  /** An error reply from the program, "\n01\t<code>" and any one byte, yields
      its code when it does not end in the success terminator. */
  lemma ProgramErrorShown(code: seq<byte>, last: byte)
    requires !EndsWith(ErrorPrefix + code + [last], Terminator)
    ensures ClassifyRun(ErrorPrefix + code + [last]) == RunFailed(code)
  {
    var out := ErrorPrefix + code + [last];
    assert out[..4] == ErrorPrefix && out[4..|out| - 1] == code;
    assert out[|out| - 3..] != Terminator;
  }

  /** `run` scans what it reads the way `writecmd` classifies a reply, but
      where `writecmd` would fail it reports instead: nothing means the program
      is probably running, an error reply is shown with the same code, and any
      other unterminated answer except "\n00" is shown as immediate output. */
  lemma RunAgreesWithReader(args: string, output: seq<byte>)
    ensures Classify(args, output).Success? ==> ClassifyRun(output).Completed?
    ensures Classify(args, output) == Outcomes.Failure(NoResponse(Frame(args))) <==> ClassifyRun(output) == ProbablyRunning
    ensures (Classify(args, output).Failure? && Classify(args, output).error.DeviceError?) <==> ClassifyRun(output).RunFailed?
    ensures Classify(args, output).Failure? && Classify(args, output).error.DeviceError? ==>
              ClassifyRun(output).code == Classify(args, output).error.code
    ensures (Classify(args, output).Failure? && Classify(args, output).error.Unexpected?) <==>
              (ClassifyRun(output).Immediate? || ClassifyRun(output).Ignored?)
  {
  }
}
