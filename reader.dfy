/** The line reader (`lsh_read_line`): standard input is a fixed text read
    through a cursor, one `getchar` at a time; a line is copied into a heap
    buffer that starts at 1024 characters and grows by 1024 at a time. */
module LineReader {
  import opened CStrings

  /** LSH_RL_BUFSIZE: the initial size of the line buffer and its growth step. */
  const ReadBufSize: nat := 1024

  /** What `getchar` returns: a character, or EOF. */
  datatype InputChar = Chr(c: char) | Eof

  /** Standard input: the whole text the user will type, and how much of it
      has been consumed. */
  class Stdin {
    const text: seq<char>
    var cursor: nat

    ghost predicate Valid()
      reads this
    {
      cursor <= |text|
    }

    constructor (text: seq<char>)
      ensures Valid() && this.text == text && cursor == 0
    {
      this.text := text;
      cursor := 0;
    }

    /** `getchar`: the next character, or EOF (for ever) once the text is used up. */
    method GetChar() returns (c: InputChar)
      requires Valid()
      modifies this
      ensures Valid()
      ensures old(cursor) < |text| ==> c == Chr(text[old(cursor)]) && cursor == old(cursor) + 1
      ensures old(cursor) == |text| ==> c == Eof && cursor == old(cursor)
    {
      if cursor < |text| {
        c := Chr(text[cursor]);
        cursor := cursor + 1;
      } else {
        c := Eof;
      }
    }
  }

  /** Where the line starting at `from` ends: the first newline at or after
      `from`, or the end of the text. */
  function LineEnd(s: seq<char>, from: nat): (e: nat)
    requires from <= |s|
    ensures from <= e <= |s|
    ensures e < |s| ==> s[e] == '\n'
    ensures forall k | from <= k < e :: s[k] != '\n'
    decreases |s| - from
  {
    if from == |s| || s[from] == '\n' then from else LineEnd(s, from + 1)
  }

  /** The line the reader returns when the cursor is at `from`, and where the
      cursor is afterwards (past the newline, which is consumed but not kept). */
  function NextLine(s: seq<char>, from: nat): (r: (seq<char>, nat))
    requires from <= |s|
    ensures from + |r.0| <= |s| && r.0 == s[from..from + |r.0|] && '\n' !in r.0
    ensures from + |r.0| < |s| ==> s[from + |r.0|] == '\n' && r.1 == from + |r.0| + 1
    ensures from + |r.0| == |s| ==> r.1 == |s|
  {
    var e := LineEnd(s, from);
    (s[from..e], if e < |s| then e + 1 else e)
  }

  /** A line followed by a newline is read back whole, and the cursor stops
      right after its newline whatever follows. */
  lemma NextLineOfLine(s: seq<char>, from: nat, line: seq<char>)
    requires '\n' !in line
    requires from + |line| < |s| && s[from..from + |line|] == line && s[from + |line|] == '\n'
    ensures NextLine(s, from) == (line, from + |line| + 1)
  {
  }

  /** At end of input the reader returns the empty line and consumes nothing. */
  lemma NextLineAtEof(s: seq<char>)
    ensures NextLine(s, |s|) == ([], |s|)
  {
  }

  /** `lsh_read_line`: reads characters until a newline or EOF and returns the
      buffer holding them followed by a NUL. `len` is the final value of
      `position`. */
  method ReadLine(input: Stdin) returns (buffer: array<char>, ghost len: nat)
    requires input.Valid()
    modifies input
    ensures input.Valid() && fresh(buffer)
    ensures len < buffer.Length && buffer[len] == Nul
    ensures (buffer[..len], input.cursor) == NextLine(input.text, old(input.cursor))
    ensures buffer.Length > 0 && buffer.Length % ReadBufSize == 0
    ensures buffer.Length == (len / ReadBufSize + 1) * ReadBufSize
  {
    ghost var start := input.cursor;
    var bufsize := ReadBufSize;
    var position := 0;
    buffer := new char[bufsize];
    while true
      invariant input.Valid() && start <= input.cursor
      invariant input.cursor == start + position
      invariant fresh(buffer) && buffer.Length == bufsize
      invariant bufsize > 0 && bufsize % ReadBufSize == 0
      invariant position < bufsize
      invariant bufsize == (position / ReadBufSize + 1) * ReadBufSize
      invariant buffer[..position] == input.text[start..input.cursor]
      invariant forall k | start <= k < input.cursor :: input.text[k] != '\n'
      decreases |input.text| - input.cursor
    {
      var c := input.GetChar();
      if c == Eof || c == Chr('\n') {
        buffer[position] := Nul;
        len := position;
        return;
      }
      buffer[position] := c.c;
      position := position + 1;
      assert buffer[..position] == input.text[start..input.cursor];
      if position >= bufsize {
        bufsize := bufsize + ReadBufSize;
        ghost var was := buffer[..position];
        buffer := Realloc(buffer, bufsize);
        assert buffer[..position] == was;
      }
    }
  }

  /** The string `lsh_read_line` hands back is the line, cut short at its
      first NUL if it has one. */
  lemma {:induction false} ReadLineString(buffer: seq<char>, len: nat, line: seq<char>)
    requires len < |buffer| && buffer[..len] == line && buffer[len] == Nul
    ensures CStr(buffer) == CStr(line)
    ensures Nul !in line ==> CStr(buffer) == line
  {
    var n := StrLen(line);
    assert buffer[..n] == CStr(line);
    assert buffer[n] == Nul;
    CStrOfTerminated(buffer, CStr(line));
    if Nul !in line {
      CStrOfPlain(line);
    }
  }
}
