/** The shell's main loop (`lsh_loop`): prompt, read a line, split it,
    execute it, and go round again while the command answered non-zero.
    The C loop has no other way out, so at end of input it prompts for
    ever; here it is given a bound on the number of rounds. */
module CommandLoop {
  import opened CStrings
  import opened LineReader
  import opened Tokenizer
  import opened Os
  import opened Builtins

  /** The prompt printed at the start of every round. */
  const Prompt: seq<char> := "#> "

  /** The argument vector the shell builds from one input line: the tokens
      of its C string. */
  function Words(line: seq<char>): seq<seq<char>> {
    Split(CStr(line))
  }

  /** The command that stops the shell. */
  predicate IsExit(args: seq<seq<char>>) {
    args != [] && args[0] == "exit"
  }

  /** Where a bounded run of the loop ends: the process state, the input
      position, how many rounds ran, and whether a command stopped it. */
  datatype Outcome = Outcome(proc: Process, cursor: nat, rounds: nat, stopped: bool)

  /** Specification of `lsh_loop`, for at most `fuel` rounds, reading `text`
      from position `cursor`. */
  function Session(text: seq<char>, cursor: nat, p: Process, fuel: nat): (r: Outcome)
    requires cursor <= |text|
    ensures r.rounds <= fuel && cursor <= r.cursor <= |text|
    ensures !r.stopped ==> r.rounds == fuel
    decreases fuel
  {
    if fuel == 0 then Outcome(p, cursor, 0, false)
    else
      var (line, next) := NextLine(text, cursor);
      var (status, q) := Dispatch(p.(out := p.out + Prompt), Words(line));
      if status == 0 then Outcome(q, next, 1, true)
      else
        var r := Session(text, next, q, fuel - 1);
        r.(rounds := r.rounds + 1)
  }

  /** `lsh_loop`, run for at most `fuel` rounds. */
  method Loop(input: Stdin, p: Process, fuel: nat) returns (q: Process, rounds: nat, stopped: bool)
    requires input.Valid()
    modifies input
    ensures input.Valid()
    ensures Session(input.text, old(input.cursor), p, fuel) == Outcome(q, input.cursor, rounds, stopped)
  {
    ghost var start := input.cursor;
    q, rounds, stopped := p, 0, false;
    while !stopped && rounds < fuel
      invariant input.Valid() && start <= input.cursor
      invariant rounds <= fuel
      invariant stopped ==> Session(input.text, start, p, fuel) == Outcome(q, input.cursor, rounds, true)
      invariant !stopped ==> var r := Session(input.text, input.cursor, q, fuel - rounds);
        Session(input.text, start, p, fuel) == r.(rounds := r.rounds + rounds)
      decreases fuel - rounds
    {
      ghost var before, from := q, input.cursor;
      q := q.(out := q.out + Prompt);
      var buffer, len := ReadLine(input);
      ghost var orig := buffer[..];
      assert orig[len] == Nul;
      var tokens, count := SplitLine(buffer);
      assert tokens[..][..count] == tokens[..count];
      TokenizeSplits(orig, buffer[..], tokens[..], count);
      ReadLineString(orig, len, orig[..len]);
      var args := Argv(buffer[..], tokens[..]);
      assert args == Words(NextLine(input.text, from).0);
      var status;
      status, q := Execute(q, args);
      rounds := rounds + 1;
      stopped := status == 0;
    }
  }

  // ---------------------------------------------------------------------
  // What the loop promises

  /** The input position after `k` lines have been read from `cursor`. */
  function After(text: seq<char>, cursor: nat, k: nat): (r: nat)
    requires cursor <= |text|
    ensures cursor <= r <= |text|
    decreases k
  {
    if k == 0 then cursor else After(text, NextLine(text, cursor).1, k - 1)
  }

  /** The argument vectors of the `k` lines read from `cursor`, in order. */
  function Commands(text: seq<char>, cursor: nat, k: nat): (r: seq<seq<seq<char>>>)
    requires cursor <= |text|
    ensures |r| == k
    decreases k
  {
    if k == 0 then []
    else
      var (line, next) := NextLine(text, cursor);
      [Words(line)] + Commands(text, next, k - 1)
  }

  /** One round of the loop: the first line's command runs after the
      prompt, and the loop goes on from the next line unless it was `exit`. */
  lemma SessionRound(text: seq<char>, cursor: nat, p: Process, fuel: nat, line: seq<char>, next: nat, q: Process)
    requires cursor <= |text| && fuel > 0 && (line, next) == NextLine(text, cursor)
    requires q == Dispatch(p.(out := p.out + Prompt), Words(line)).1
    ensures next <= |text|
    ensures IsExit(Words(line)) ==> Session(text, cursor, p, fuel) == Outcome(q, next, 1, true)
    ensures !IsExit(Words(line)) ==> var r := Session(text, next, q, fuel - 1);
      Session(text, cursor, p, fuel) == r.(rounds := r.rounds + 1)
  {
    DispatchStops(p.(out := p.out + Prompt), Words(line));
  }

  /** The loop reads exactly one line per round: where the input stands
      when it ends is fixed by the number of rounds. */
  lemma {:induction false} SessionReadsOneLinePerRound(text: seq<char>, cursor: nat, p: Process, fuel: nat)
    requires cursor <= |text|
    ensures var r := Session(text, cursor, p, fuel); r.cursor == After(text, cursor, r.rounds)
    decreases fuel
  {
    if fuel > 0 {
      var line, next := NextLine(text, cursor).0, NextLine(text, cursor).1;
      var q := Dispatch(p.(out := p.out + Prompt), Words(line)).1;
      SessionRound(text, cursor, p, fuel, line, next, q);
      var r0 := Session(text, cursor, p, fuel);
      if !IsExit(Words(line)) {
        SessionReadsOneLinePerRound(text, next, q, fuel - 1);
        var r := Session(text, next, q, fuel - 1);
        assert r0.rounds == r.rounds + 1 && r0.cursor == r.cursor;
        assert After(text, cursor, r.rounds + 1) == After(text, next, r.rounds);
      } else {
        assert r0.rounds == 1 && r0.cursor == next;
        assert After(text, cursor, 1) == After(text, next, 0);
      }
    }
  }

  /** None of the commands is `exit`. */
  predicate NoExit(cmds: seq<seq<seq<char>>>) {
    forall i | 0 <= i < |cmds| :: !IsExit(cmds[i])
  }

  /** The loop runs every command up to and including the first `exit` and
      stops right there. Without an `exit` it runs for as long as it is let. */
  lemma {:induction false} SessionStopsAtFirstExit(text: seq<char>, cursor: nat, p: Process, fuel: nat)
    requires cursor <= |text|
    ensures var r := Session(text, cursor, p, fuel);
      var cmds := Commands(text, cursor, r.rounds);
      (r.stopped ==> r.rounds > 0 && IsExit(cmds[r.rounds - 1]) && NoExit(cmds[..r.rounds - 1])) &&
      (!r.stopped ==> r.rounds == fuel && NoExit(cmds))
    decreases fuel
  {
    if fuel > 0 {
      var line, next := NextLine(text, cursor).0, NextLine(text, cursor).1;
      var q := Dispatch(p.(out := p.out + Prompt), Words(line)).1;
      SessionRound(text, cursor, p, fuel, line, next, q);
      var r0 := Session(text, cursor, p, fuel);
      if IsExit(Words(line)) {
        var cmds := Commands(text, cursor, 1);
        assert cmds == [Words(line)] + Commands(text, next, 0);
        assert cmds[..0] == [];
      } else {
        SessionStopsAtFirstExit(text, next, q, fuel - 1);
        var r := Session(text, next, q, fuel - 1);
        var rest := Commands(text, next, r.rounds);
        var cmds := Commands(text, cursor, r.rounds + 1);
        assert r0.rounds == r.rounds + 1 && r0.stopped == r.stopped;
        assert cmds == [Words(line)] + rest;
        NoExitCons(Words(line), rest, r.rounds);
      }
    }
  }

  /** A command that is not `exit`, put in front, moves the first `exit`
      one place on and keeps a run without `exit` free of it. */
  lemma NoExitCons(c: seq<seq<char>>, cmds: seq<seq<seq<char>>>, k: nat)
    requires !IsExit(c) && k == |cmds|
    ensures NoExit(cmds) ==> NoExit([c] + cmds)
    ensures 0 < k && IsExit(cmds[k - 1]) && NoExit(cmds[..k - 1]) ==>
      IsExit(([c] + cmds)[k]) && NoExit(([c] + cmds)[..k])
  {
    var all := [c] + cmds;
    assert forall i | 0 <= i < |cmds| :: all[i + 1] == cmds[i];
    if 0 < k {
      var front, tail := all[..k], cmds[..k - 1];
      assert front == [c] + tail;
      assert forall i | 0 <= i < k - 1 :: front[i + 1] == tail[i];
    }
  }

  /** The first command, if it is `exit`, stops the shell after one round,
      with nothing changed but the prompt it printed. */
  lemma SessionExit(text: seq<char>, cursor: nat, p: Process, fuel: nat)
    requires cursor <= |text| && fuel > 0
    requires IsExit(Words(NextLine(text, cursor).0))
    ensures Session(text, cursor, p, fuel) == Outcome(p.(out := p.out + Prompt), NextLine(text, cursor).1, 1, true)
  {
    DispatchBuiltin(p.(out := p.out + Prompt), Words(NextLine(text, cursor).0), 2);
  }

  /** `n` prompts in a row. */
  function Prompts(n: nat): (r: seq<char>)
    ensures |r| == 3 * n
  {
    if n == 0 then [] else Prompt + Prompts(n - 1)
  }

  /** At end of input every line is empty, so the shell never stops: each
      round prints a prompt and does nothing else. */
  lemma {:induction false} SessionAtEof(text: seq<char>, p: Process, fuel: nat)
    ensures Session(text, |text|, p, fuel) == Outcome(p.(out := p.out + Prompts(fuel)), |text|, fuel, false)
    decreases fuel
  {
    if fuel > 0 {
      NextLineAtEof(text);
      assert CStr([]) == [];
      var p1 := p.(out := p.out + Prompt);
      SessionAtEof(text, p1, fuel - 1);
      assert p1.out + Prompts(fuel - 1) == p.out + Prompts(fuel);
    }
  }
}
