/** The visitor bitmap: 64-bit words, one bit per hashed position. */
module VisitorBits {
  import opened Basics

  /** A `u64` as its bits, least significant first. */
  type Word = w: seq<bool> | |w| == 64 witness seq(64, _ => false)

  function Zero(): Word { seq(64, _ => false) }

  /** `1 << j`. */
  function Mask(j: nat): Word
    requires j < 64
  {
    Zero()[j := true]
  }

  function And(a: Word, b: Word): Word { seq(64, i requires 0 <= i < 64 => a[i] && b[i]) }

  function Or(a: Word, b: Word): Word { seq(64, i requires 0 <= i < 64 => a[i] || b[i]) }

  predicate IsSet(words: seq<Word>, p: nat)
    requires p < 64 * |words|
  {
    words[p / 64][p % 64]
  }

  ghost function SetBits(words: seq<Word>): set<nat> { set p: nat | p < 64 * |words| && IsSet(words, p) }

  function LittleEndian(bytes: seq<byte>): nat
  {
    if bytes == [] then 0 else bytes[0] + 256 * LittleEndian(bytes[1..])
  }

  /** The bit a visitor hashes to, in a bitmap of `n` words. */
  function Position(fingerprint: seq<byte>, n: nat): (p: nat)
    requires |fingerprint| >= 8 && n > 0
    ensures p < 64 * n
  {
    LittleEndian(fingerprint[..8]) % (64 * n)
  }

  /** The bitmap with one more position marked. */
  function Marked(words: seq<Word>, p: nat): seq<Word>
    requires p < 64 * |words|
  {
    words[p / 64 := Or(words[p / 64], Mask(p % 64))]
  }

  /** The test for a mask sees exactly its bit. */
  lemma MaskTests(w: Word, j: nat)
    requires j < 64
    ensures And(w, Mask(j)) == Zero() <==> !w[j]
  {
    if w[j] { assert And(w, Mask(j))[j]; }
  }

  /** Setting a bit adds that position and no other. */
  lemma MarkSets(words: seq<Word>, p: nat)
    requires p < 64 * |words|
    ensures SetBits(Marked(words, p)) == SetBits(words) + {p}
  {
    forall q: nat | q < 64 * |words| ensures IsSet(Marked(words, p), q) <==> q == p || IsSet(words, q) {
      if q / 64 == p / 64 && q % 64 == p % 64 { assert q == p; }
    }
  }
}
