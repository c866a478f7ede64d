/** Byte strings cut into chunks, and the padding between them. */
module Chunks {
  import opened Words

  /** The smallest number of bytes that aligns x to a multiple of `size`. */
  function Gap(x: nat, size: nat): (g: nat)
    requires size > 0
    ensures g < size && (x + g) % size == 0
  {
    GapAligns(x, size);
    (size - x % size) % size
  }

  lemma GapAligns(x: nat, size: nat)
    requires size > 0
    ensures (x + (size - x % size) % size) % size == 0
  {
    if x % size == 0 {
      ModUnique(size, size, 1, 0);
    } else {
      ModUnique(size - x % size, size, 0, size - x % size);
      ModUnique(x + size - x % size, size, x / size + 1, 0);
    }
  }

  function Zeros(n: nat): (s: seq<u8>)
    ensures |s| == n
  {
    seq(n, _ => 0)
  }

  lemma {:induction false} LEOfZeros(n: nat)
    ensures LE(Zeros(n)) == 0
  {
    if n > 0 {
      LEOfZeros(n - 1);
      assert Zeros(n)[1..] == Zeros(n - 1);
    }
  }

  lemma LEPadded(s: seq<u8>, n: nat)
    ensures LE(s + Zeros(n)) == LE(s)
  {
    hide LE;
    LEConcat(s, Zeros(n));
    LEOfZeros(n);
  }

  /** The chunks, one after the other. */
  ghost function Flatten<T>(chunks: seq<seq<T>>): seq<T> {
    if chunks == [] then [] else Flatten(chunks[..|chunks| - 1]) + chunks[|chunks| - 1]
  }

  lemma FlattenNext<T>(chunks: seq<seq<T>>, i: nat)
    requires i < |chunks|
    ensures Flatten(chunks[..i + 1]) == Flatten(chunks[..i]) + chunks[i]
  {
    assert chunks[..i + 1][..i] == chunks[..i];
  }
}
