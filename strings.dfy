/** Character classes and the C string functions the program relies on
    (isdigit, isspace, strchr, strrchr, strcspn), over strings without NUL.
    One model char stands for one byte of a C string. */
module Strings {

  datatype Option<+T> = None | Some(value: T)

  /** isdigit in the "C" locale */
  predicate IsDigit(c: char) {
    '0' <= c <= '9'
  }

  /** isspace in the "C" locale: space, \t, \n, \v, \f, \r */
  predicate IsSpace(c: char) {
    c == ' ' || c == '\t' || c == '\n' || c == '\U{B}' || c == '\U{C}' || c == '\r'
  }

  /** strchr: the index of the first occurrence of c, if any */
  function FirstIndex(s: string, c: char): (r: Option<nat>)
    ensures r.Some? ==> r.value < |s| && s[r.value] == c && c !in s[..r.value]
    ensures r.None? ==> c !in s
  {
    if s == [] then None
    else if s[0] == c then Some(0)
    else
      match FirstIndex(s[1..], c)
      case None => None
      case Some(k) => Some(k + 1)
  }

  /** strrchr: the index of the last occurrence of c, if any */
  function LastIndex(s: string, c: char): (r: Option<nat>)
    ensures r.Some? ==> r.value < |s| && s[r.value] == c && c !in s[r.value + 1..]
    ensures r.None? ==> c !in s
  {
    if s == [] then None
    else if s[|s| - 1] == c then Some(|s| - 1)
    else LastIndex(s[..|s| - 1], c)
  }

  /** strcspn(s, "\n"): the length of the longest prefix without a newline */
  function NewlineFreeLength(s: string): (n: nat)
    ensures n <= |s| && '\n' !in s[..n]
    ensures n < |s| ==> s[n] == '\n'
  {
    match FirstIndex(s, '\n')
    case None => |s|
    case Some(k) => k
  }

  /** s[strcspn(s, "\n")] = 0: cut the string at its first newline */
  function TruncateAtNewline(s: string): (r: string)
    ensures '\n' !in r
    ensures r <= s
    ensures |r| < |s| ==> s[|r|] == '\n'
    ensures '\n' !in s ==> r == s
  {
    s[..NewlineFreeLength(s)]
  }

  lemma TruncateAtNewlineDropsTerminator(s: string)
    requires '\n' !in s
    ensures TruncateAtNewline(s + "\n") == s
  {
    assert (s + "\n")[..|s|] == s;
  }

  /** Regrouping a concatenation of three sequences, proved away from any other facts */
  lemma ConcatAssoc<T>(a: seq<T>, b: seq<T>, c: seq<T>)
    ensures a + b + c == a + (b + c)
  {
  }

  /** A non-empty right operand splits into its front and its last element */
  lemma SplitLast<T>(a: seq<T>, b: seq<T>)
    requires b != []
    ensures b == b[..|b| - 1] + [b[|b| - 1]]
    ensures a + b == (a + b[..|b| - 1]) + [b[|b| - 1]]
  {
    assert b == b[..|b| - 1] + [b[|b| - 1]];
    ConcatAssoc(a, b[..|b| - 1], [b[|b| - 1]]);
  }

  /** Moving the first element of a non-empty right operand to the left operand */
  lemma ShiftFirst<T>(a: seq<T>, b: seq<T>)
    requires b != []
    ensures (a + [b[0]]) + b[1..] == a + b
  {
    assert b == [b[0]] + b[1..];
    ConcatAssoc(a, [b[0]], b[1..]);
  }
}
