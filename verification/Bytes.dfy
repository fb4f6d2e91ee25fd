/** Raw bytes, as files and sockets deliver them. */
module Bytes {
  type Byte = b: int | 0 <= b < 256

  const NEWLINE: Byte := 10

  /** The offset just past the first newline at or after p, or 0 when there is
      none: the end of the complete line that begins at p. */
  function LineEnd(content: seq<Byte>, p: nat): (e: nat)
    requires p <= |content|
    ensures e != 0 ==> p < e <= |content| && content[e - 1] == NEWLINE
    ensures e != 0 ==> forall i :: p <= i < e - 1 ==> content[i] != NEWLINE
    ensures e == 0 ==> forall i :: p <= i < |content| ==> content[i] != NEWLINE
    decreases |content| - p
  {
    if p == |content| then 0
    else if content[p] == NEWLINE then p + 1
    else LineEnd(content, p + 1)
  }

  lemma {:induction false} LineEndOf(content: seq<Byte>, p: nat, e: nat)
    requires p < e <= |content| && content[e - 1] == NEWLINE
    requires forall i :: p <= i < e - 1 ==> content[i] != NEWLINE
    ensures LineEnd(content, p) == e
    decreases e - p
  {
  }
}
