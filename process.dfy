/** The boundary to external processes: what `subprocess.run` reports, and
    how a command-line tool reads the argument vector it is given. */
module Process {
  import opened Text

  /** What `subprocess.run(command, stdout=PIPE, stderr=PIPE, text=True)` did. */
  datatype ProcessResult =
    | Completed(returncode: int, stderr: string)  // the child ran and exited
    | Raised(message: string)                     // subprocess.run itself raised (tool missing, undecodable output, ...)

  /** The process runner: what running a given argument vector yields. */
  type Runner = seq<string> -> ProcessResult

  /** How a conventional command-line tool reads its arguments (argv without
      the program name): an argument in `valued` takes the next argument as
      its value, any other argument starting with '-' is a switch, and the
      rest are positionals. Order is kept within each list. */
  datatype CommandLine = CommandLine(switches: seq<string>, options: seq<(string, string)>, positionals: seq<string>)

  function ReadArgs(args: seq<string>, valued: set<string>): CommandLine
    decreases |args|
  {
    if args == [] then CommandLine([], [], [])
    else if args[0] in valued && |args| >= 2 then
      var rest := ReadArgs(args[2..], valued);
      rest.(options := [(args[0], args[1])] + rest.options)
    else if StartsWith(args[0], "-") then
      var rest := ReadArgs(args[1..], valued);
      rest.(switches := [args[0]] + rest.switches)
    else
      var rest := ReadArgs(args[1..], valued);
      rest.(positionals := [args[0]] + rest.positionals)
  }
}
