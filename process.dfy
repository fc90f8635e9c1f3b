/** The operating system as the shell sees it: a working directory that
    `chdir` may change, programs that `fork`/`execvp` start, the status
    reports `waitpid` hands back, and the text written to the terminal.
    All of it is one value that the shell's operations take and return. */
module Os {

  type Path = seq<char>

  /** The state of the shell process and what it has done so far:
      `cwd` its working directory, `dirs` the directories that exist
      (absolute paths), `attempts` every path handed to `chdir`,
      `launched` every argument vector a child was started with, `out` the
      text on standard output and `err` the messages on standard error. */
  datatype Process = Process(cwd: Path, dirs: set<Path>, attempts: seq<Path>,
                             launched: seq<seq<seq<char>>>, out: seq<char>, err: seq<seq<char>>)

  /** Where `chdir(path)` leads from `cwd`: an absolute path stands for
      itself, a relative one is taken below the working directory. Either
      way the path ends the result, and from an absolute working directory
      every path leads to an absolute one. */
  function Resolve(cwd: Path, path: Path): (r: Path)
    ensures |path| <= |r| && r[|r| - |path|..] == path
    ensures cwd != [] && cwd[0] == '/' ==> r != [] && r[0] == '/'
  {
    if path != [] && path[0] == '/' then path else cwd + "/" + path
  }

  /** `chdir`: 0 and the new working directory when the target exists, -1
      and the old one otherwise; either way the attempt is on record and
      nothing else changes. */
  function Chdir(p: Process, path: Path): (r: (int, Process))
    ensures r.1.attempts == p.attempts + [path]
    ensures r.0 == 0 <==> path != [] && Resolve(p.cwd, path) in p.dirs
    ensures r.0 == 0 || r.0 == -1
    ensures r.0 == 0 ==> r.1.cwd == Resolve(p.cwd, path)
    ensures r.0 != 0 ==> r.1.cwd == p.cwd
    ensures r.1.(attempts := p.attempts, cwd := p.cwd) == p
  {
    var q := p.(attempts := p.attempts + [path]);
    if path != [] && Resolve(p.cwd, path) in p.dirs then (0, q.(cwd := Resolve(p.cwd, path)))
    else (-1, q)
  }

  /** `lsh_launch`: the child is started with the argument vector and the
      shell waits for it; the shell always carries on. */
  function Launch(p: Process, args: seq<seq<char>>): (r: (int, Process))
    ensures r.0 == 1
    ensures r.1.launched == p.launched + [args]
    ensures r.1.(launched := p.launched) == p
  {
    (1, p.(launched := p.launched + [args]))
  }

  /** What `waitpid(..., WUNTRACED)` reports about the child. */
  datatype WaitStatus = Exited(code: int) | Signaled(signal: int) | Stopped(signal: int)

  /** WIFEXITED or WIFSIGNALED: the child is gone. */
  predicate Gone(s: WaitStatus) {
    s.Exited? || s.Signaled?
  }

  /** The parent's `waitpid` loop: calls `waitpid` until a report says the
      child exited or was killed, and returns the index of that report.
      Reports that the child stopped keep the shell waiting. */
  method WaitForChild(reports: seq<WaitStatus>) returns (k: nat)
    requires exists i | 0 <= i < |reports| :: Gone(reports[i])
    ensures k < |reports| && Gone(reports[k])
    ensures forall i | 0 <= i < k :: !Gone(reports[i])
  {
    k := 0;
    var status := reports[k];
    while !Gone(status)
      invariant k < |reports| && status == reports[k]
      invariant forall i | 0 <= i < k :: !Gone(reports[i])
      invariant exists i | k <= i < |reports| :: Gone(reports[i])
      decreases |reports| - k
    {
      k := k + 1;
      status := reports[k];
    }
  }
}
