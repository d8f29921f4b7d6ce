/**
 Byte strings. A Go string or byte slice is a Dafny string whose characters are byte values, so that byte literals
 read as they do in the source.
 */
module Bytes {
  type Byte = c: char | c as int < 256 witness 'a'

  /** The stop classes of the scan kernels. */
  predicate BasicStringStop(b: char) {
    b == '"' || b == '\\'
  }

  predicate BasicStringEscapeStop(b: char) {
    b == '"' || b == '\\' || b as int < 0x20 || b as int >= 0x80
  }

  predicate BasicStringStrictStop(b: char) {
    b == '"' || b == '\\' || b as int == 0x7f || (b as int < 0x20 && b != '\t')
  }

  predicate CommentBodyStop(b: char) {
    b as int == 0x7f || (b as int < 0x20 && b != '\t')
  }

  predicate BareValueDelimiter(b: char) {
    b == ' ' || b == '\t' || b == '\r' || b == '\n' || b == ',' || b == ']' || b == '}' || b == '#' || b == '='
  }

  predicate LiteralStringStop(b: char) {
    b == '\''
  }

  predicate NewlineStop(b: char) {
    b == '\n'
  }

  predicate BareKeyByte(b: char) {
    'A' <= b <= 'Z' || 'a' <= b <= 'z' || '0' <= b <= '9' || b == '_' || b == '-'
  }

  predicate Blank(b: char) {
    b == ' ' || b == '\t'
  }

  /** The index of the first byte of a class, or the length when there is none: what every scalar scan returns. */
  function FirstStop(s: string, stop: char -> bool): (n: nat)
    ensures n <= |s|
    ensures forall i :: 0 <= i < n ==> !stop(s[i])
    ensures n < |s| ==> stop(s[n])
  {
    if s == [] || stop(s[0]) then 0 else 1 + FirstStop(s[1..], stop)
  }

  /** The three facts that pin down a first stop. */
  lemma FirstStopUnique(s: string, stop: char -> bool, n: nat)
    requires n <= |s| && (forall i :: 0 <= i < n ==> !stop(s[i])) && (n < |s| ==> stop(s[n]))
    ensures FirstStop(s, stop) == n
  {
    var _ := FirstStop(s, stop);
  }
}
