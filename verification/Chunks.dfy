/** Chunk headers. */
module Chunks {

  /** The head field of a chunk: its size with the two status bits packed below it. */
  datatype Head = Head(size: nat, cinuse: bool, pinuse: bool)

  const PINUSE_BIT: nat := 1
  const CINUSE_BIT: nat := 2

  function HeadWord(h: Head): nat {
    h.size + (if h.cinuse then CINUSE_BIT else 0) + (if h.pinuse then PINUSE_BIT else 0)
  }

  /** Reading a head word back: `head & ~FLAG_BITS`, `head & CINUSE_BIT`, `head & PINUSE_BIT`. */
  function HeadOf(word: nat): Head {
    Head(word - word % 8, (word / 2) % 2 == 1, word % 2 == 1)
  }

  /** The three fields share a word without loss exactly when the size leaves the flag bits free. */
  lemma HeadWordRoundTrip(h: Head)
    ensures HeadOf(HeadWord(h)) == h <==> h.size % 8 == 0
    ensures h.size % 8 == 0 ==> (HeadWord(h) % 2 == 1 <==> h.pinuse) && (HeadWord(h) / 2 % 2 == 1 <==> h.cinuse)
  {
  }
}
