/** Replacing every occurrence of a secret by "***", on bytes. */
module Masking {
  import opened Basics

  type Bytes = seq<byte>

  const STAR: byte := 42
  const MASK: Bytes := [STAR, STAR, STAR]

  /** `w` stands at position `i` of `t`. */
  predicate OccursAt(t: Bytes, w: Bytes, i: nat) { i + |w| <= |t| && t[i..i + |w|] == w }

  ghost predicate Contains(t: Bytes, w: Bytes) { exists i: nat :: OccursAt(t, w, i) }

  /** `str::replace(p, "***")`: leftmost occurrences, not overlapping. */
  function Replace(t: Bytes, p: Bytes): Bytes
    requires p != []
    decreases |t|
  {
    if p <= t then MASK + Replace(t[|p|..], p)
    else if t == [] then []
    else [t[0]] + Replace(t[1..], p)
  }

  /** A word no part of which a mask can supply. */
  ghost predicate MaskProof(w: Bytes)
  {
    w != [] && w[0] != STAR && w[|w| - 1] != STAR && !Contains(w, MASK)
  }

  // ----- one step of masking

  lemma ReplaceHit(p: Bytes, rest: Bytes)
    requires p != []
    ensures Replace(p + rest, p) == MASK + Replace(rest, p)
  {
    assert (p + rest)[|p|..] == rest;
  }

  lemma ReplaceMiss(c: byte, rest: Bytes, p: Bytes)
    requires p != [] && !(p <= [c] + rest)
    ensures Replace([c] + rest, p) == [c] + Replace(rest, p)
  {
    assert ([c] + rest)[1..] == rest;
  }

  // ----- occurrences

  lemma OccursTail(t: Bytes, w: Bytes, i: nat, d: nat)
    requires d <= i && d <= |t|
    ensures OccursAt(t, w, i) <==> OccursAt(t[d..], w, i - d)
  {
    if i + |w| <= |t| { assert t[d..][i - d..i - d + |w|] == t[i..i + |w|]; }
  }

  lemma OccursShift(a: Bytes, t: Bytes, w: Bytes, i: nat)
    ensures OccursAt(a + t, w, |a| + i) <==> OccursAt(t, w, i)
  {
    OccursTail(a + t, w, |a| + i, |a|);
    assert (a + t)[|a|..] == t;
  }

  lemma PrefixOccurs(t: Bytes, w: Bytes)
    ensures w <= t <==> OccursAt(t, w, 0)
  {
    if |w| <= |t| { assert t[0..|w|] == t[..|w|]; }
  }

  lemma TooLong(t: Bytes, w: Bytes)
    requires |t| < |w|
    ensures !Contains(t, w)
  {
  }

  lemma ContainsTail(t: Bytes, w: Bytes, d: nat)
    requires d <= |t| && Contains(t[d..], w)
    ensures Contains(t, w)
  {
    var i: nat :| OccursAt(t[d..], w, i);
    OccursTail(t, w, i + d, d);
  }

  // ----- a mask supplies no part of a mask-proof word

  /** What starts inside a mask starts with a star. */
  lemma InsideMask(t: Bytes, p: Bytes, w: Bytes, i: nat)
    requires p != [] && p <= t && w != []
    requires i < 3 && OccursAt(Replace(t, p), w, i)
    ensures w[0] == STAR
  {
    var out := Replace(t, p);
    assert out[i] == STAR;
    assert out[i..i + |w|][0] == out[i];
  }

  /** What starts with a mask ends in it or contains it. */
  lemma StartsWithMask(out: Bytes, u: Bytes)
    requires MASK <= out && u <= out && u != []
    ensures u[|u| - 1] == STAR || Contains(u, MASK)
  {
    if |u| >= 3 {
      assert u[0..3] == out[..3] == MASK;
      assert OccursAt(u, MASK, 0);
    } else {
      assert u[|u| - 1] == out[|u| - 1] == MASK[|u| - 1];
    }
  }

  /** The rest of a mask-proof word can only continue in the text itself. */
  lemma {:induction false} PrefixComesFromText(t: Bytes, p: Bytes, u: Bytes)
    requires p != []
    requires u <= Replace(t, p)
    requires !Contains(u, MASK) && (u == [] || u[|u| - 1] != STAR)
    ensures u <= t
    decreases |t|
  {
    if u != [] {
      if p <= t { StartsWithMask(Replace(t, p), u); }
      var rest := u[1..];
      if Contains(rest, MASK) { ContainsTail(u, MASK, 1); }
      PrefixComesFromText(t[1..], p, rest);
      assert u == [t[0]] + rest;
    }
  }

  /** Masking one word makes no mask-proof word appear that was not there. */
  lemma {:induction false} OccurrenceComesFromText(t: Bytes, p: Bytes, w: Bytes, i: nat)
    requires p != [] && MaskProof(w)
    requires OccursAt(Replace(t, p), w, i)
    ensures Contains(t, w)
    decreases |t|
  {
    if p <= t {
      if i < 3 { InsideMask(t, p, w, i); }
      OccursShift(MASK, Replace(t[|p|..], p), w, i - 3);
      OccurrenceComesFromText(t[|p|..], p, w, i - 3);
      ContainsTail(t, w, |p|);
    } else if t != [] {
      if i == 0 {
        PrefixOccurs(Replace(t, p), w);
        PrefixComesFromText(t, p, w);
        PrefixOccurs(t, w);
      } else {
        OccursShift([t[0]], Replace(t[1..], p), w, i - 1);
        OccurrenceComesFromText(t[1..], p, w, i - 1);
        ContainsTail(t, w, 1);
      }
    }
  }

  lemma ReplaceAddsNothing(t: Bytes, p: Bytes, w: Bytes)
    requires p != [] && MaskProof(w)
    requires Contains(Replace(t, p), w)
    ensures Contains(t, w)
  {
    var i: nat :| OccursAt(Replace(t, p), w, i);
    OccurrenceComesFromText(t, p, w, i);
  }

  /** Masking a mask-proof word leaves no occurrence of it, overlapping or not. */
  lemma {:induction false} ReplaceErasesAt(t: Bytes, p: Bytes, i: nat)
    requires p != [] && OccursAt(Replace(t, p), p, i)
    ensures !MaskProof(p)
    decreases |t|
  {
    if p <= t {
      if i < 3 {
        InsideMask(t, p, p, i);
      } else {
        OccursShift(MASK, Replace(t[|p|..], p), p, i - 3);
        ReplaceErasesAt(t[|p|..], p, i - 3);
      }
    } else if i > 0 {
      OccursShift([t[0]], Replace(t[1..], p), p, i - 1);
      ReplaceErasesAt(t[1..], p, i - 1);
    } else if MaskProof(p) {
      PrefixOccurs(Replace(t, p), p);
      PrefixComesFromText(t, p, p);
    }
  }

  lemma ReplaceErases(t: Bytes, p: Bytes)
    requires MaskProof(p)
    ensures !Contains(Replace(t, p), p)
  {
    forall i: nat | OccursAt(Replace(t, p), p, i)
      ensures false
    {
      ReplaceErasesAt(t, p, i);
    }
  }

  // ----- what masking does to a given text

  /** A text without the word is left alone. */
  lemma {:induction false} ReplaceAbsent(t: Bytes, p: Bytes)
    requires p != [] && !Contains(t, p)
    ensures Replace(t, p) == t
    decreases |t|
  {
    if p <= t { PrefixOccurs(t, p); }
    if t != [] {
      var tail := t[1..];
      if Contains(tail, p) { ContainsTail(t, p, 1); }
      ReplaceAbsent(tail, p);
      assert t == [t[0]] + tail;
    }
  }

  lemma OccursHere(t: Bytes, w: Bytes, i: nat)
    requires i <= |t|
    ensures OccursAt(t, w, i) <==> w <= t[i..]
  {
    OccursTail(t, w, i, i);
    PrefixOccurs(t[i..], w);
  }

  /** Up to the first occurrence the text stays. */
  lemma {:induction false} ReplaceSkip(t: Bytes, p: Bytes, j: nat)
    requires p != [] && j <= |t|
    requires forall i :: 0 <= i < j ==> !OccursAt(t, p, i)
    ensures Replace(t, p) == t[..j] + Replace(t[j..], p)
    decreases j
  {
    if j == 0 {
      assert t[0..] == t;
    } else {
      ReplaceSkip(t, p, j - 1);
      OccursHere(t, p, j - 1);
      SkipOne(t, p, j - 1);
    }
  }

  lemma SkipOne(t: Bytes, p: Bytes, j: nat)
    requires p != [] && j < |t| && !(p <= t[j..])
    ensures t[..j] + Replace(t[j..], p) == t[..j + 1] + Replace(t[j + 1..], p)
  {
    var c, rest := t[j], t[j + 1..];
    assert t[j..] == [c] + rest && t[..j + 1] == t[..j] + [c];
    ReplaceMiss(c, rest, p);
    Regroup(t[..j], c, Replace(rest, p));
  }

  lemma Regroup(a: Bytes, c: byte, b: Bytes)
    ensures a + ([c] + b) == a + [c] + b
  {
  }

  /** Masking starts at the first occurrence. */
  lemma {:induction false} ReplaceFirst(t: Bytes, p: Bytes, j: nat)
    requires p != [] && OccursAt(t, p, j)
    requires forall i :: 0 <= i < j ==> !OccursAt(t, p, i)
    ensures Replace(t, p) == t[..j] + MASK + Replace(t[j + |p|..], p)
  {
    ReplaceSkip(t, p, j);
    OccursHere(t, p, j);
    assert t[j..][|p|..] == t[j + |p|..];
  }

  // ----- words that masking cannot erase

  /** The text around a masked word can complete the mask to the word again. */
  lemma LeakAfterMask(p: Bytes)
    requires p != [] && p[0] == STAR
    ensures Replace(p + p[1..], p) == [] + MASK + p[1..]
    ensures Contains(Replace(p + p[1..], p), p)
  {
    var rest := p[1..];
    ReplaceHit(p, rest);
    TooLong(rest, p);
    ReplaceAbsent(rest, p);
    assert [] + MASK == MASK;
    StarAfterMask(p);
  }

  lemma StarAfterMask(p: Bytes)
    requires p != [] && p[0] == STAR
    ensures Contains(MASK + p[1..], p)
  {
    assert (MASK + p[1..])[2..2 + |p|] == p;
    assert OccursAt(MASK + p[1..], p, 2);
  }

  /** A word that overlaps itself like this begins as it ends. */
  lemma EarlyOverlap(p: Bytes, j: nat)
    requires 0 <= j < |p| - 1
    requires OccursAt(p[..|p| - 1] + p, p, j)
    ensures p[0] == p[|p| - 1]
  {
    var n := |p|;
    var t := p[..n - 1] + p;
    assert t[j] == t[j..j + n][0] == p[0];
    assert t[j] == p[j];
    assert t[j + n - 1] == t[j..j + n][n - 1] == p[n - 1];
    assert t[j + n - 1] == p[j];
  }

  lemma NoEarlyOverlap(p: Bytes, t: Bytes)
    requires p != [] && p[0] != p[|p| - 1]
    requires t == p[..|p| - 1] + p
    ensures forall j :: 0 <= j < |p| - 1 ==> !OccursAt(t, p, j)
  {
    forall j | 0 <= j < |p| - 1
      ensures !OccursAt(t, p, j)
    {
      if OccursAt(t, p, j) { EarlyOverlap(p, j); }
    }
  }

  lemma {:induction false} LeakBeforeMask(p: Bytes)
    requires p != [] && p[0] != STAR && p[|p| - 1] == STAR
    ensures Replace(p[..|p| - 1] + p, p) == p[..|p| - 1] + MASK + []
    ensures Contains(Replace(p[..|p| - 1] + p, p), p)
  {
    var n := |p|;
    var init := p[..n - 1];
    var t := init + p;
    OccursShift(init, p, p, 0);
    PrefixOccurs(p, p);
    NoEarlyOverlap(p, t);
    ReplaceFirst(t, p, n - 1);
    assert t[n - 1 + n..] == [] && t[..n - 1] == init;
    PrefixWithStar(p, []);
  }

  lemma PrefixWithStar(p: Bytes, rest: Bytes)
    requires p != [] && p[|p| - 1] == STAR
    ensures Contains(p[..|p| - 1] + MASK + rest, p)
  {
    var out := p[..|p| - 1] + MASK + rest;
    assert out[0..|p|] == p;
    assert OccursAt(out, p, 0);
  }

  /** A mask that stands early in `p[..k] + p` stands in the first part of `p`. */
  lemma EarlyMask(p: Bytes, k: nat, i: nat)
    requires p != [] && p[0] != STAR && k <= |p| && i < k + k
    requires OccursAt(p[..k] + p, MASK, i)
    ensures exists j: nat :: j < k && OccursAt(p, MASK, j)
  {
    var t := p[..k] + p;
    assert t[i..i + 3] == MASK;
    if i >= k {
      OccursShift(p[..k], p, MASK, i - k);
      assert OccursAt(p, MASK, i - k);
    } else if i + 3 > k {
      Straddle(p, k, i);
    } else {
      assert p[i..i + 3] == t[i..i + 3];
      assert OccursAt(p, MASK, i);
    }
  }

  lemma Straddle(p: Bytes, k: nat, i: nat)
    requires p != [] && i < k <= |p| && k < i + 3
    requires OccursAt(p[..k] + p, MASK, i)
    ensures p[0] == STAR
  {
    var t := p[..k] + p;
    assert t[k] == t[i..i + 3][k - i];
  }

  lemma LeakAroundMask(p: Bytes, k: nat)
    requires p != [] && p[0] != STAR
    requires OccursAt(p, MASK, k) && forall j :: 0 <= j < k ==> !OccursAt(p, MASK, j)
    ensures Replace(p[..k] + p + p[k + 3..], p) == p[..k] + MASK + p[k + 3..]
    ensures Contains(Replace(p[..k] + p + p[k + 3..], p), p)
  {
    var u, v, n := p[..k], p[k + 3..], |p|;
    var t := u + p + v;
    assert p == u + MASK + v by { assert p[k..k + 3] == MASK; }
    assert t[k..k + n] == p;
    assert OccursAt(t, p, k);
    forall j | 0 <= j < k
      ensures !OccursAt(t, p, j)
    {
      if OccursAt(t, p, j) { EarlierCopy(p, k, j); }
    }
    ReplaceFirst(t, p, k);
    assert t[k + n..] == v && t[..k] == u;
    TooLong(v, p);
    ReplaceAbsent(v, p);
    assert Replace(t, p) == p;
    PrefixOccurs(p, p);
  }

  lemma EarlierCopy(p: Bytes, k: nat, j: nat)
    requires p != [] && p[0] != STAR && j < k
    requires OccursAt(p, MASK, k)
    requires OccursAt(p[..k] + p + p[k + 3..], p, j)
    ensures exists i: nat :: i < k && OccursAt(p, MASK, i)
  {
    var u, v, n := p[..k], p[k + 3..], |p|;
    var t := u + p + v;
    assert t[j..j + n][k..k + 3] == MASK;
    assert t[j + k..j + k + 3] == MASK;
    assert j + k + 3 <= |u + p|;
    assert (u + p)[j + k..j + k + 3] == t[j + k..j + k + 3];
    EarlyMask(p, k, j + k);
  }

  lemma FirstOccurrence(t: Bytes, w: Bytes, i: nat) returns (k: nat)
    requires OccursAt(t, w, i)
    ensures k <= i && OccursAt(t, w, k) && forall j :: 0 <= j < k ==> !OccursAt(t, w, j)
  {
    k := 0;
    while !OccursAt(t, w, k)
      invariant k <= i
      invariant forall j :: 0 <= j < k ==> !OccursAt(t, w, j)
      decreases i - k
    {
      k := k + 1;
    }
  }

  ghost predicate ErasedFromEveryText(p: Bytes)
    requires p != []
  {
    forall t: Bytes :: !Contains(Replace(t, p), p)
  }

  /** Masking erases a word from every text if and only if the word neither
      starts nor ends with a star nor contains the mask. */
  lemma ErasedFromEveryTextIff(p: Bytes)
    requires p != []
    ensures ErasedFromEveryText(p) <==> MaskProof(p)
  {
    if MaskProof(p) {
      forall t: Bytes
        ensures !Contains(Replace(t, p), p)
      {
        ReplaceErases(t, p);
      }
    } else {
      var t, _, _ := Leak(p);
    }
  }

  /** A text from which masking does not erase the word, and what masking makes of
      it: one mask, between less of the word than all. */
  lemma Leak(p: Bytes) returns (t: Bytes, a: Bytes, b: Bytes)
    requires p != [] && !MaskProof(p)
    ensures Contains(Replace(t, p), p)
    ensures Replace(t, p) == a + MASK + b && |a| < |p| && |b| < |p|
  {
    if p[0] == STAR {
      LeakAfterMask(p);
      t, a, b := p + p[1..], [], p[1..];
    } else if p[|p| - 1] == STAR {
      LeakBeforeMask(p);
      t, a, b := p[..|p| - 1] + p, p[..|p| - 1], [];
    } else {
      var i: nat :| OccursAt(p, MASK, i);
      var k := FirstOccurrence(p, MASK, i);
      LeakAroundMask(p, k);
      t, a, b := p[..k] + p + p[k + 3..], p[..k], p[k + 3..];
    }
  }

  /** A word without a star that is longer than what stands beside a mask. */
  lemma NotAroundMask(a: Bytes, b: Bytes, w: Bytes)
    requires w != [] && STAR !in w && |a| < |w| && |b| < |w|
    ensures !Contains(a + MASK + b, w)
  {
    forall i: nat ensures !OccursAt(a + MASK + b, w, i) {
      if OccursAt(a + MASK + b, w, i) { CoversMask(a, b, w, i); }
    }
  }

  lemma CoversMask(a: Bytes, b: Bytes, w: Bytes, i: nat)
    requires |a| < |w| && |b| < |w| && OccursAt(a + MASK + b, w, i)
    ensures STAR in w
  {
    var t, k := a + MASK + b, Max(i, |a|);
    assert w[k - i] == t[i..i + |w|][k - i] == t[k];
    assert t[k] == STAR;
  }

  lemma {:induction false} ReplaceLength(t: Bytes, p: Bytes)
    requires p != []
    ensures |p| >= 3 ==> |Replace(t, p)| <= |t|
    ensures |p| <= 3 ==> |Replace(t, p)| >= |t|
    decreases |t|
  {
    if p <= t {
      ReplaceLength(t[|p|..], p);
    } else if t != [] {
      ReplaceLength(t[1..], p);
    }
  }

  /** Masking changes every text that has the word, unless the word is the mask. */
  lemma ReplaceChanges(t: Bytes, p: Bytes)
    requires p != [] && p != MASK && Contains(t, p)
    ensures Replace(t, p) != t
  {
    var i: nat :| OccursAt(t, p, i);
    var j := FirstOccurrence(t, p, i);
    var rest := t[j + |p|..];
    ReplaceFirst(t, p, j);
    ReplaceLength(rest, p);
    assert |Replace(t, p)| == j + 3 + |Replace(rest, p)| && |t| == j + |p| + |rest|;
    if |p| == 3 {
      assert Replace(t, p)[j..j + 3] == MASK;
    }
  }

  lemma {:induction false} MaskingTheMask(t: Bytes)
    ensures Replace(t, MASK) == t
    decreases |t|
  {
    if MASK <= t {
      MaskingTheMask(t[3..]);
      assert t == MASK + t[3..];
    } else if t != [] {
      MaskingTheMask(t[1..]);
    }
  }

  /** In particular words without a star are mask-proof. */
  lemma StarFreeIsMaskProof(w: Bytes)
    requires w != [] && STAR !in w
    ensures MaskProof(w)
  {
    if Contains(w, MASK) { MaskHasStar(w); }
  }

  lemma MaskHasStar(w: Bytes)
    requires Contains(w, MASK)
    ensures STAR in w
  {
    var i: nat :| OccursAt(w, MASK, i);
    assert w[i..i + 3][0] == w[i];
  }

  // ----- several words, one after the other

  function ReplaceAll(t: Bytes, ps: seq<Bytes>): Bytes
    requires forall i :: 0 <= i < |ps| ==> ps[i] != []
    decreases |ps|
  {
    if ps == [] then t else ReplaceAll(Replace(t, ps[0]), ps[1..])
  }

  lemma {:induction false} AllAddNothing(t: Bytes, ps: seq<Bytes>, w: Bytes)
    requires forall i :: 0 <= i < |ps| ==> ps[i] != []
    requires MaskProof(w) && !Contains(t, w)
    ensures !Contains(ReplaceAll(t, ps), w)
    decreases |ps|
  {
    if ps != [] {
      if Contains(Replace(t, ps[0]), w) { ReplaceAddsNothing(t, ps[0], w); }
      AllAddNothing(Replace(t, ps[0]), ps[1..], w);
    }
  }

  /** After masking words one by one, whatever the others are, none that is
      mask-proof is left. */
  lemma {:induction false} AllErased(t: Bytes, ps: seq<Bytes>, w: Bytes)
    requires forall i :: 0 <= i < |ps| ==> ps[i] != []
    requires w in ps && MaskProof(w)
    ensures !Contains(ReplaceAll(t, ps), w)
    decreases |ps|
  {
    if w == ps[0] {
      ReplaceErases(t, w);
      AllAddNothing(Replace(t, w), ps[1..], w);
    } else {
      assert w in ps[1..];
      AllErased(Replace(t, ps[0]), ps[1..], w);
    }
  }

  /** A text with none of the words is left alone. */
  lemma {:induction false} AllAbsent(t: Bytes, ps: seq<Bytes>)
    requires forall i :: 0 <= i < |ps| ==> ps[i] != [] && !Contains(t, ps[i])
    ensures ReplaceAll(t, ps) == t
  {
    if ps != [] {
      ReplaceAbsent(t, ps[0]);
      AllAbsent(t, ps[1..]);
    }
  }
}
