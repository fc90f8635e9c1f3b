/** The built-in commands and the dispatcher (`lsh_execute`): a table of
    names with a parallel table of functions, scanned in order; a name
    that is not in it is started as a program. Every command returns the
    status the loop tests: 1 to carry on, 0 to stop. */
module Builtins {
  import opened Os

  datatype Option<T> = None | Some(value: T)

  /** builtin_str: the names of the built-in commands, in table order. */
  const BuiltinStr: seq<seq<char>> := ["cd", "help", "exit"]

  /** The functions of builtin_func. */
  datatype Builtin = ChangeDir | PrintHelp | ExitShell

  /** builtin_func: the function for each name, at the same index. */
  const BuiltinFunc: seq<Builtin> := [ChangeDir, PrintHelp, ExitShell]

  /** `lsh_num_builtins`: the size of builtin_str, which builtin_func matches. */
  function NumBuiltins(): (n: nat)
    ensures n == |BuiltinStr| && n == |BuiltinFunc|
  {
    |BuiltinStr|
  }

  /** The `strcmp` scan of builtin_str from index `from`: the first index
      whose name is `name`, or None when no later name is. */
  function Lookup(name: seq<char>, from: nat): (r: Option<nat>)
    requires from <= |BuiltinStr|
    ensures r.Some? ==> from <= r.value < |BuiltinStr| && BuiltinStr[r.value] == name
    ensures r.Some? ==> forall j | from <= j < r.value :: BuiltinStr[j] != name
    ensures r.None? <==> forall j | from <= j < |BuiltinStr| :: BuiltinStr[j] != name
    decreases |BuiltinStr| - from
  {
    if from == |BuiltinStr| then None
    else if BuiltinStr[from] == name then Some(from)
    else Lookup(name, from + 1)
  }

  /** The message `lsh_cd` writes to standard error when it has no argument. */
  const CdUsage: seq<char> := "lsh: expected argument to \"cd\"\n"

  /** The tag `perror` puts before the system's message when `chdir` fails. */
  const ChdirErrorTag: seq<char> := "nMSh"

  /** `lsh_cd`: with no second argument, complains and changes nothing
      else; otherwise makes one `chdir` attempt and reports its failure.
      The shell carries on either way. */
  function Cd(p: Process, args: seq<seq<char>>): (r: (int, Process))
    ensures r.0 == 1
    ensures r.1.launched == p.launched && r.1.out == p.out && r.1.dirs == p.dirs
    ensures |args| < 2 ==> r.1 == p.(err := p.err + [CdUsage])
    ensures |args| >= 2 ==> r.1.attempts == p.attempts + [args[1]]
    ensures |args| >= 2 ==> (r.1.cwd == Resolve(p.cwd, args[1]) && r.1.err == p.err) || (r.1.cwd == p.cwd && r.1.err == p.err + [ChdirErrorTag])
  {
    if |args| < 2 then (1, p.(err := p.err + [CdUsage]))
    else
      var (code, q) := Chdir(p, args[1]);
      if code != 0 then (1, q.(err := q.err + [ChdirErrorTag])) else (1, q)
  }

  /** The opening lines of the help text (its colours are not modelled). */
  const HelpHeader: seq<char> :=
    "nMUD Shell (NMSh)\nType program names and arguments, and hit enter.\nThe following are built in:\n"

  /** The closing line of the help text. */
  const HelpFooter: seq<char> := "Use the man command for information on other programs.\n"

  /** The help line for one built-in. */
  function HelpLine(name: seq<char>): (r: seq<char>)
    ensures |r| == |name| + 3
  {
    "  " + name + "\n"
  }

  /** One help line per name, in order. */
  function Listing(names: seq<seq<char>>): seq<char> {
    if names == [] then [] else Listing(names[..|names| - 1]) + HelpLine(names[|names| - 1])
  }

  /** The whole text `lsh_help` prints. */
  function HelpText(): seq<char> {
    HelpHeader + Listing(BuiltinStr) + HelpFooter
  }

  lemma {:induction false} ListingAppend(a: seq<seq<char>>, b: seq<seq<char>>)
    ensures Listing(a + b) == Listing(a) + Listing(b)
    decreases |b|
  {
    if b == [] {
      assert a + b == a;
    } else {
      var c, last := b[..|b| - 1], b[|b| - 1];
      assert (a + b)[..|a + b| - 1] == a + c && (a + b)[|a + b| - 1] == last;
      assert Listing(a + b) == Listing(a + c) + HelpLine(last);
      ListingAppend(a, c);
      assert Listing(b) == Listing(c) + HelpLine(last);
      assert Listing(a) + Listing(c) + HelpLine(last) == Listing(a) + (Listing(c) + HelpLine(last));
    }
  }

  lemma ListingSnoc(names: seq<seq<char>>, i: nat)
    requires i < |names|
    ensures Listing(names[..i + 1]) == Listing(names[..i]) + HelpLine(names[i])
  {
    assert names[..i + 1][..i] == names[..i];
  }

  /** The listing names every built-in on a line of its own, in table
      order: the line for `names[i]` comes right after the lines for the
      names before it. */
  lemma ListingShowsEach(names: seq<seq<char>>, i: nat)
    requires i < |names|
    ensures var at := |Listing(names[..i])|;
      at + |names[i]| + 3 <= |Listing(names)| && Listing(names)[at..at + |names[i]| + 3] == HelpLine(names[i])
  {
    assert names == names[..i] + [names[i]] + names[i + 1..];
    ListingAppend(names[..i] + [names[i]], names[i + 1..]);
    ListingAppend(names[..i], [names[i]]);
    assert Listing([names[i]]) == Listing([]) + HelpLine(names[i]);
  }

  /** `lsh_help`: prints the header, one line per entry of builtin_str, and
      the footer; the shell carries on. The text is gathered in `text` and
      appended to standard output as one piece. */
  method Help(p: Process, args: seq<seq<char>>) returns (status: int, q: Process)
    ensures status == 1 && q == p.(out := p.out + HelpText())
  {
    var names := BuiltinStr;
    var text := HelpHeader;
    var i := 0;
    while i < |names|
      invariant i <= |names|
      invariant text == HelpHeader + Listing(names[..i])
    {
      ListingSnoc(names, i);
      text := text + HelpLine(names[i]);
      i := i + 1;
    }
    assert names[..i] == names;
    status, q := 1, p.(out := p.out + (text + HelpFooter));
  }

  /** `lsh_exit`: stops the shell and changes nothing. */
  function Exit(p: Process, args: seq<seq<char>>): (r: (int, Process))
    ensures r.0 == 0 && r.1 == p
  {
    (0, p)
  }

  /** What calling builtin_func's entry `f` does. */
  function Apply(f: Builtin, p: Process, args: seq<seq<char>>): (r: (int, Process)) {
    match f
    case ChangeDir => Cd(p, args)
    case PrintHelp => (1, p.(out := p.out + HelpText()))
    case ExitShell => Exit(p, args)
  }

  /** Calls builtin_func's entry `f`. */
  method Run(f: Builtin, p: Process, args: seq<seq<char>>) returns (status: int, q: Process)
    ensures (status, q) == Apply(f, p, args)
  {
    match f
    case ChangeDir =>
      var r := Cd(p, args);
      status, q := r.0, r.1;
    case PrintHelp =>
      status, q := Help(p, args);
    case ExitShell =>
      var r := Exit(p, args);
      status, q := r.0, r.1;
  }

  /** Specification of `lsh_execute`: an empty command does nothing, the
      first built-in whose name matches runs, and anything else is launched. */
  function Dispatch(p: Process, args: seq<seq<char>>): (r: (int, Process)) {
    if args == [] then (1, p)
    else
      match Lookup(args[0], 0)
      case Some(i) => Apply(BuiltinFunc[i], p, args)
      case None => Launch(p, args)
  }

  /** `lsh_execute`: scans builtin_str for the command's name and runs the
      matching builtin_func entry, or launches the command. */
  method Execute(p: Process, args: seq<seq<char>>) returns (status: int, q: Process)
    ensures (status, q) == Dispatch(p, args)
  {
    if args == [] {
      return 1, p;
    }
    var i := 0;
    while i < NumBuiltins()
      invariant i <= NumBuiltins()
      invariant Lookup(args[0], i) == Lookup(args[0], 0)
    {
      if args[0] == BuiltinStr[i] {
        status, q := Run(BuiltinFunc[i], p, args);
        return;
      }
      i := i + 1;
    }
    var r := Launch(p, args);
    status, q := r.0, r.1;
  }

  // ---------------------------------------------------------------------
  // What the dispatcher promises

  /** An empty command changes nothing and the shell carries on. */
  lemma DispatchEmpty(p: Process)
    ensures Dispatch(p, []) == (1, p)
  {
  }

  /** The names in builtin_str are distinct, so a name's entry is found
      wherever the scan starts before it. */
  lemma {:induction false} LookupFinds(i: nat, from: nat)
    requires from <= i < |BuiltinStr|
    ensures Lookup(BuiltinStr[i], from) == Some(i)
    decreases i - from
  {
    if from < i {
      assert BuiltinStr[from] != BuiltinStr[i];
      LookupFinds(i, from + 1);
    }
  }

  /** A command named in builtin_str runs the function at the same index of
      builtin_func. */
  lemma DispatchBuiltin(p: Process, args: seq<seq<char>>, i: nat)
    requires args != [] && i < |BuiltinStr| && args[0] == BuiltinStr[i]
    ensures Dispatch(p, args) == Apply(BuiltinFunc[i], p, args)
  {
    LookupFinds(i, 0);
  }

  /** Any other command is launched, with its whole argument vector, and
      the shell carries on. */
  lemma DispatchLaunches(p: Process, args: seq<seq<char>>)
    requires args != [] && args[0] !in BuiltinStr
    ensures Dispatch(p, args) == (1, p.(launched := p.launched + [args]))
  {
  }

  /** The shell stops exactly when the command is `exit`; every other
      command, built in or not, answers 1. */
  lemma DispatchStops(p: Process, args: seq<seq<char>>)
    ensures var status := Dispatch(p, args).0; status == 0 || status == 1
    ensures Dispatch(p, args).0 == 0 <==> args != [] && args[0] == "exit"
  {
    if args != [] && args[0] == "exit" {
      DispatchBuiltin(p, args, 2);
    }
  }

  /** `cd` with no directory complains and changes nothing else. */
  lemma DispatchCdAlone(p: Process, args: seq<seq<char>>)
    requires |args| == 1 && args[0] == "cd"
    ensures Dispatch(p, args) == (1, p.(err := p.err + [CdUsage]))
  {
    DispatchBuiltin(p, args, 0);
  }

  /** `cd dir` makes exactly one `chdir` attempt, on `dir`; the directory
      changes when the target exists and stays put (with an error report)
      when it does not; the shell carries on either way. */
  lemma DispatchCdMoves(p: Process, args: seq<seq<char>>)
    requires |args| >= 2 && args[0] == "cd"
    ensures var (status, q) := Dispatch(p, args);
      status == 1 && q.attempts == p.attempts + [args[1]] && q.launched == p.launched &&
      (args[1] != [] && Resolve(p.cwd, args[1]) in p.dirs ==> q.cwd == Resolve(p.cwd, args[1]) && q.err == p.err) &&
      (args[1] == [] || Resolve(p.cwd, args[1]) !in p.dirs ==> q.cwd == p.cwd && q.err == p.err + [ChdirErrorTag])
  {
    DispatchBuiltin(p, args, 0);
  }

  /** `help` prints the help text whatever its arguments, and nothing else changes. */
  lemma DispatchHelp(p: Process, args: seq<seq<char>>)
    requires args != [] && args[0] == "help"
    ensures Dispatch(p, args) == (1, p.(out := p.out + HelpText()))
  {
    DispatchBuiltin(p, args, 1);
  }
}
