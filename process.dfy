/** External processes as the build sees them: a command builder that only
    ever appends arguments, and what became of running the command. */
module Process {

  /** The result of trying to run a command: it launched and exited with or
      without a success status, or it could not be launched at all (missing
      executable, no permission). */
  datatype Outcome = Ran(exitOk: bool) | LaunchError

  /** A command under construction: a program name and its argument list. */
  class Command {
    const program: string
    var args: seq<string>

    constructor (program: string)
      ensures this.program == program && args == []
    {
      this.program := program;
      args := [];
    }

    /** Appends one argument. */
    method Arg(arg: string)
      modifies this
      ensures args == old(args) + [arg]
    {
      args := args + [arg];
    }

    /** Appends several arguments, one at a time, in order. */
    method Args(more: seq<string>)
      modifies this
      ensures args == old(args) + more
    {
      for i := 0 to |more|
        invariant args == old(args) + more[..i]
      {
        assert more[..i + 1] == more[..i] + [more[i]];
        Arg(more[i]);
      }
      assert more[..|more|] == more;
    }

    /** The whole command line, program first: what a failure report shows. */
    function CommandLine(): seq<string>
      reads this
    {
      [program] + args
    }
  }
}
