/** Bytes as the C++ code sees them through `unsigned char`, and sequences of them. */
module Bytes {

  type Byte = x: int | 0 <= x < 256

  /** Concatenation is associative; stated alone so that other proofs need not rediscover it. */
  lemma Assoc<T>(a: seq<T>, b: seq<T>, c: seq<T>)
    ensures (a + b) + c == a + (b + c)
  {
  }

  /** The bytes of a list of chunks in order. */
  function Concat(chunks: seq<seq<Byte>>): seq<Byte> {
    if chunks == [] then [] else chunks[0] + Concat(chunks[1..])
  }

  lemma {:induction false} ConcatSnoc(chunks: seq<seq<Byte>>, last: seq<Byte>)
    ensures Concat(chunks + [last]) == Concat(chunks) + last
  {
    if chunks == [] {
      assert [last][1..] == [];
    } else {
      ConcatSnoc(chunks[1..], last);
      Assoc(chunks[0], Concat(chunks[1..]), last);
      assert (chunks + [last])[1..] == chunks[1..] + [last];
    }
  }
}
