/** The part of `main` that decides which operations a command line asks for:
    running a source or compiled file uploads it first, and uploading a source
    file compiles it first. */
module Cli {
  import opened Outcomes
  import opened Paths

  /** The file arguments of `-c`, `-l` and `-r`, as argparse leaves them. */
  datatype Request = Request(compile: Option<string>, load: Option<string>, run: Option<string>)

  datatype Op = Compile | Load | Run

  /** An argument Python treats as true: given and not empty. */
  predicate Given(arg: Option<string>) {
    arg.Some? && arg.value != []
  }

  function Extension(arg: Option<string>): string {
    if arg.Some? then SplitExt(arg.value).1 else []
  }

  /** `-r` of a ".uwc" or ".sb" file also loads it; then `-l` of a ".sb" file
      also compiles it. Chaining never invents a file: each argument is the one
      given or the one of a later operation, and `-r` is never changed. */
  function Chain(req: Request): (r: Request)
    ensures r.run == req.run
    ensures r.load == req.load || (r.load == req.run && Extension(r.run) in {".uwc", ".sb"})
    ensures r.compile == req.compile || (r.compile == r.load && Extension(r.load) == ".sb")
  {
    var load := if req.run.Some? && (Extension(req.run) == ".uwc" || Extension(req.run) == ".sb") then req.run else req.load;
    var compile := if load.Some? && Extension(load) == ".sb" then load else req.compile;
    Request(compile, load, req.run)
  }

  /** The operations `main` reports and performs, in its order. */
  function Ops(req: Request): (ops: seq<Op>)
    ensures Compile in ops <==> Given(req.compile)
    ensures Load in ops <==> Given(req.load)
    ensures Run in ops <==> Given(req.run)
    ensures forall i, j :: 0 <= i < j < |ops| ==> OpRank(ops[i]) < OpRank(ops[j])
  {
    (if Given(req.compile) then [Compile] else []) +
    (if Given(req.load) then [Load] else []) +
    (if Given(req.run) then [Run] else [])
  }

  function OpRank(op: Op): nat {
    match op
    case Compile => 0
    case Load => 1
    case Run => 2
  }

  /** Chaining twice adds nothing. */
  lemma ChainIdempotent(req: Request)
    ensures Chain(Chain(req)) == Chain(req)
  {
  }

  /** Running a SmartBASIC source compiles, uploads and runs it, all on the
      same file. */
  lemma RunSource(path: string)
    requires path != [] && SplitExt(path).1 == ".sb"
    ensures var r := Chain(Request(None, None, Some(path)));
            r == Request(Some(path), Some(path), Some(path)) && Ops(r) == [Compile, Load, Run]
  {
  }

  /** Running a compiled file uploads and runs it, without compiling. */
  lemma RunCompiled(path: string)
    requires path != [] && SplitExt(path).1 == ".uwc"
    ensures var r := Chain(Request(None, None, Some(path)));
            r == Request(None, Some(path), Some(path)) && Ops(r) == [Load, Run]
  {
  }

  /** Running any other file only runs it: the module is expected to hold it. */
  lemma RunStored(path: string)
    requires path != [] && SplitExt(path).1 != ".uwc" && SplitExt(path).1 != ".sb"
    ensures var r := Chain(Request(None, None, Some(path)));
            r == Request(None, None, Some(path)) && Ops(r) == [Run]
  {
  }

  /** Loading a source file compiles it first. */
  lemma LoadSource(path: string)
    requires path != [] && SplitExt(path).1 == ".sb"
    ensures var r := Chain(Request(None, Some(path), None));
            r == Request(Some(path), Some(path), None) && Ops(r) == [Compile, Load]
  {
  }
}
