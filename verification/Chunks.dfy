/** How repeated `read(fd, buf, size)` calls cut a file up. */
module Chunks {
  import opened Bytes

  /** The file position after `k` reads. */
  function ReadUpTo(input: seq<byte>, size: nat, k: nat): (p: nat)
    ensures p <= |input|
  {
    if k == 0 then 0 else
      var p := ReadUpTo(input, size, k - 1);
      p + Min(size, |input| - p)
  }

  /** What the `k`-th read returns, counting from 1. */
  function Chunk(input: seq<byte>, size: nat, k: nat): seq<byte>
    requires k >= 1
  {
    input[ReadUpTo(input, size, k - 1)..ReadUpTo(input, size, k)]
  }

  /** Chunks 1 to `k`, one after the other. */
  function Joined(input: seq<byte>, size: nat, k: nat): seq<byte> {
    if k == 0 then [] else Joined(input, size, k - 1) + Chunk(input, size, k)
  }

  lemma {:induction false} ReadUpToClosedForm(input: seq<byte>, size: nat, k: nat)
    ensures ReadUpTo(input, size, k) == Min(k * size, |input|)
  {
    if k > 0 {
      ReadUpToClosedForm(input, size, k - 1);
      assert k * size == (k - 1) * size + size;
    }
  }

  lemma {:induction false} JoinedIsPrefix(input: seq<byte>, size: nat, k: nat)
    ensures Joined(input, size, k) == input[..ReadUpTo(input, size, k)]
  {
    if k > 0 {
      JoinedIsPrefix(input, size, k - 1);
    }
  }

  /** The first `k` reads all returned `size` bytes. */
  ghost predicate FullReads(input: seq<byte>, size: nat, k: nat) {
    k == 0 || (FullReads(input, size, k - 1) && ReadUpTo(input, size, k) == ReadUpTo(input, size, k - 1) + size)
  }
}
