/** C strings: immutable buffers read through an index, with a NUL behind the last character. */
module CString {

  const NUL: char := '\0'

  /** What `buf[i]` reads; every index at or past the end reads the terminator. */
  function At(buf: string, i: nat): char {
    if i < |buf| then buf[i] else NUL
  }

  /** The value of a signed C `char` that holds the byte c. */
  function Ord(c: char): int {
    if c as int < 128 then c as int else c as int - 256
  }

  /** A text that fits a C string. */
  predicate NoNul(s: string) {
    NUL !in s
  }

  /** The C string at the front of a buffer. */
  function Visible(buf: string): (t: string)
    ensures t <= buf && NoNul(t) && (|t| < |buf| ==> buf[|t|] == NUL)
  {
    if buf == [] || buf[0] == NUL then [] else [buf[0]] + Visible(buf[1..])
  }

  lemma {:induction false} VisibleIs(t: string, n: nat)
    requires n < |t| && t[n] == NUL && forall k :: 0 <= k < n ==> t[k] != NUL
    ensures Visible(t) == t[..n]
    decreases n
  {
    if n > 0 {
      VisibleIs(t[1..], n - 1);
      assert t[..n] == [t[0]] + t[1..][..n - 1];
    }
  }

  predicate Unquotable(c: char) {
    c == '\\' || c == '"' || c == '\''
  }

  /** A text without quotes and backslashes. */
  predicate Straight(s: string) {
    forall k :: 0 <= k < |s| ==> !Unquotable(s[k])
  }

  /** isspace(3). */
  predicate IsSpace(c: char) {
    c == ' ' || '\t' <= c <= '\r'
  }

  datatype Option<+T> = None | Some(value: T)
}
