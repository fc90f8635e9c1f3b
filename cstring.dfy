/** C strings and heap buffers as the shell sees them: a C string is the
    characters of a buffer up to (not including) its first NUL, and a
    buffer that grows is reallocated with its old contents copied. */
module CStrings {

  /** The NUL character that ends every C string. */
  const Nul: char := '\0'

  /** `strlen`: the index of the first NUL of `s`, or `|s|` when there is none. */
  function StrLen(s: seq<char>): (n: nat)
    ensures n <= |s|
    ensures n < |s| ==> s[n] == Nul
    ensures forall i | 0 <= i < n :: s[i] != Nul
  {
    if s == [] || s[0] == Nul then 0 else 1 + StrLen(s[1..])
  }

  /** The C string held by a buffer: everything before its first NUL. */
  function CStr(s: seq<char>): (r: seq<char>)
    ensures Nul !in r
  {
    s[..StrLen(s)]
  }

  /** Characters that are followed by a NUL are read back in full. */
  lemma {:induction false} CStrOfTerminated(s: seq<char>, w: seq<char>)
    requires Nul !in w
    requires |w| < |s| && s[..|w|] == w && s[|w|] == Nul
    ensures CStr(s) == w
  {
    if w != [] {
      assert s[0] == w[0];
      CStrOfTerminated(s[1..], w[1..]);
    }
  }

  /** A string without NUL is its own C string. */
  lemma {:induction false} CStrOfPlain(s: seq<char>)
    requires Nul !in s
    ensures CStr(s) == s
  {
    if s != [] {
      CStrOfPlain(s[1..]);
    }
  }

  /** A NUL cuts a C string short: whatever follows it is lost. */
  lemma {:induction false} CStrCut(w: seq<char>, rest: seq<char>)
    requires Nul !in w
    ensures CStr(w + [Nul] + rest) == w
  {
    CStrOfTerminated(w + [Nul] + rest, w);
  }

  /** `realloc`: a new buffer of `size` elements that starts with the old one. */
  method Realloc<T(0)>(a: array<T>, size: nat) returns (b: array<T>)
    requires a.Length <= size
    ensures fresh(b) && b.Length == size
    ensures forall i | 0 <= i < a.Length :: b[i] == a[i]
  {
    b := new T[size];
    forall i | 0 <= i < a.Length {
      b[i] := a[i];
    }
  }
}
