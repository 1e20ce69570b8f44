/** The secret redactor: every secret and its base64 form is masked in turn. */
module Redaction {
  import opened Basics
  import opened Masking

  // ----- base64, section 4 of RFC 4648

  const PAD: byte := 61

  /** The code of the letter for a six-bit value. */
  function Letter(v: nat): byte
    requires v < 64
  {
    if v < 26 then 65 + v
    else if v < 52 then 97 + (v - 26)
    else if v < 62 then 48 + (v - 52)
    else if v == 62 then 43 else 47
  }

  function Value(c: byte): nat
  {
    if 65 <= c <= 90 then c - 65
    else if 97 <= c <= 122 then c - 97 + 26
    else if 48 <= c <= 57 then c - 48 + 52
    else if c == 43 then 62 else 63
  }

  function Base64(b: Bytes): Bytes
  {
    if b == [] then []
    else if |b| == 1 then [Letter(b[0] / 4), Letter(b[0] % 4 * 16), PAD, PAD]
    else if |b| == 2 then [Letter(b[0] / 4), Letter(b[0] % 4 * 16 + b[1] / 16), Letter(b[1] % 16 * 4), PAD]
    else [Letter(b[0] / 4), Letter(b[0] % 4 * 16 + b[1] / 16),
          Letter(b[1] % 16 * 4 + b[2] / 64), Letter(b[2] % 64)] + Base64(b[3..])
  }

  function FromBase64(s: Bytes): Bytes
  {
    if |s| < 4 then []
    else
      var b0 := Value(s[0]) * 4 + Value(s[1]) / 16;
      var b1 := Value(s[1]) % 16 * 16 + Value(s[2]) / 4;
      var b2 := Value(s[2]) % 4 * 64 + Value(s[3]);
      if s[2] == PAD then [b0] else if s[3] == PAD then [b0, b1] else [b0, b1, b2] + FromBase64(s[4..])
  }

  lemma LetterValue(v: nat)
    requires v < 64
    ensures Value(Letter(v)) == v
    ensures Letter(v) != PAD && Letter(v) != STAR
  {
  }

  lemma Sextets(b0: byte, b1: byte, b2: byte)
    ensures var v0, v1, v2, v3 := b0 / 4, b0 % 4 * 16 + b1 / 16, b1 % 16 * 4 + b2 / 64, b2 % 64;
            && v0 < 64 && v1 < 64 && v2 < 64 && v3 < 64
            && v0 * 4 + v1 / 16 == b0 && v1 % 16 * 16 + v2 / 4 == b1 && v2 % 4 * 64 + v3 == b2
  {
  }

  /** The letters of three bytes hold the three bytes. */
  lemma LettersHold(b0: byte, b1: byte, b2: byte)
    ensures var s := Letters(b0, b1, b2);
            && Value(s[0]) * 4 + Value(s[1]) / 16 == b0
            && Value(s[1]) % 16 * 16 + Value(s[2]) / 4 == b1
            && Value(s[2]) % 4 * 64 + Value(s[3]) == b2
            && s[2] != PAD && s[3] != PAD
  {
    Sextets(b0, b1, b2);
    LetterValue(b0 / 4);
    LetterValue(b0 % 4 * 16 + b1 / 16);
    LetterValue(b1 % 16 * 4 + b2 / 64);
    LetterValue(b2 % 64);
  }

  /** The four letters of three bytes. */
  function Letters(b0: byte, b1: byte, b2: byte): (s: Bytes)
    ensures |s| == 4
  {
    [Letter(b0 / 4), Letter(b0 % 4 * 16 + b1 / 16), Letter(b1 % 16 * 4 + b2 / 64), Letter(b2 % 64)]
  }

  lemma EncodeOne(b0: byte)
    ensures Base64([b0]) == Letters(b0, 0, 0)[..2] + [PAD, PAD]
  {
  }

  lemma EncodeTwo(b0: byte, b1: byte)
    ensures Base64([b0, b1]) == Letters(b0, b1, 0)[..3] + [PAD]
  {
  }

  lemma EncodeGroup(b0: byte, b1: byte, b2: byte, rest: Bytes)
    ensures Base64([b0, b1, b2] + rest) == Letters(b0, b1, b2) + Base64(rest)
  {
    assert ([b0, b1, b2] + rest)[3..] == rest;
  }

  lemma DecodeOne(s: Bytes, b0: byte)
    requires |s| == 4 && s[2] == PAD && Value(s[0]) * 4 + Value(s[1]) / 16 == b0
    ensures FromBase64(s) == [b0]
  {
  }

  lemma DecodeTwo(s: Bytes, b0: byte, b1: byte)
    requires |s| == 4 && s[2] != PAD && s[3] == PAD
    requires Value(s[0]) * 4 + Value(s[1]) / 16 == b0
    requires Value(s[1]) % 16 * 16 + Value(s[2]) / 4 == b1
    ensures FromBase64(s) == [b0, b1]
  {
  }

  lemma OneByte(b0: byte)
    ensures FromBase64(Base64([b0])) == [b0]
  {
    LettersHold(b0, 0, 0);
    EncodeOne(b0);
    var l := Letters(b0, 0, 0);
    DecodeOne(l[..2] + [PAD, PAD], b0);
  }

  lemma TwoBytes(b0: byte, b1: byte)
    ensures FromBase64(Base64([b0, b1])) == [b0, b1]
  {
    LettersHold(b0, b1, 0);
    EncodeTwo(b0, b1);
    var l := Letters(b0, b1, 0);
    DecodeTwo(l[..3] + [PAD], b0, b1);
  }

  lemma DecodeGroup(s: Bytes, rest: Bytes, b0: byte, b1: byte, b2: byte)
    requires |s| == 4 && s[2] != PAD && s[3] != PAD
    requires Value(s[0]) * 4 + Value(s[1]) / 16 == b0
    requires Value(s[1]) % 16 * 16 + Value(s[2]) / 4 == b1
    requires Value(s[2]) % 4 * 64 + Value(s[3]) == b2
    ensures FromBase64(s + rest) == [b0, b1, b2] + FromBase64(rest)
  {
    assert (s + rest)[4..] == rest;
  }

  lemma ThreeBytes(b0: byte, b1: byte, b2: byte, rest: Bytes)
    ensures FromBase64(Base64([b0, b1, b2] + rest)) == [b0, b1, b2] + FromBase64(Base64(rest))
  {
    LettersHold(b0, b1, b2);
    EncodeGroup(b0, b1, b2, rest);
    DecodeGroup(Letters(b0, b1, b2), Base64(rest), b0, b1, b2);
  }

  /** Decoding an encoded secret gives it back. */
  lemma {:induction false} Base64RoundTrip(b: Bytes)
    ensures FromBase64(Base64(b)) == b
  {
    if |b| == 1 {
      OneByte(b[0]);
      assert b == [b[0]];
    } else if |b| == 2 {
      TwoBytes(b[0], b[1]);
      assert b == [b[0], b[1]];
    } else if |b| >= 3 {
      ThreeBytes(b[0], b[1], b[2], b[3..]);
      Base64RoundTrip(b[3..]);
      assert b == [b[0], b[1], b[2]] + b[3..];
    }
  }

  /** Base64 text has no star, so no mask can be part of it. */
  lemma {:induction false} Base64IsMaskProof(b: Bytes)
    requires b != []
    ensures MaskProof(Base64(b))
  {
    Base64NoStar(b);
    StarFreeIsMaskProof(Base64(b));
  }

  lemma {:induction false} Base64NoStar(b: Bytes)
    ensures STAR !in Base64(b)
    ensures b != [] ==> Base64(b) != []
  {
    if |b| >= 3 { Base64NoStar(b[3..]); }
  }

  // ----- the redactor

  const BUILT_IN_KEYS: seq<string> := [
    "SIGSTORE_ID_TOKEN", "PERMANU_SIGSTORE_ID_TOKEN", "COSIGN_KEY", "PERMANU_COSIGN_KEY", "COSIGN_PASSWORD"]

  function Encoded(values: seq<Bytes>): (e: seq<Bytes>)
    ensures |e| == |values|
    ensures forall i :: 0 <= i < |e| ==> e[i] == Base64(values[i])
  {
    seq(|values|, i requires 0 <= i < |values| => Base64(values[i]))
  }

  ghost predicate LongestFirst(values: seq<Bytes>)
  {
    forall i, j :: 0 <= i < j < |values| ==> |values[i]| >= |values[j]|
  }

  ghost predicate NonEmptyDistinct(values: seq<Bytes>)
  {
    && (forall i :: 0 <= i < |values| ==> values[i] != [])
    && (forall i, j :: 0 <= i < j < |values| ==> values[i] != values[j])
  }

  lemma EncodedNonEmpty(values: seq<Bytes>)
    requires forall i :: 0 <= i < |values| ==> values[i] != []
    ensures forall i :: 0 <= i < |Encoded(values)| ==> Encoded(values)[i] != []
  {
    forall i | 0 <= i < |values|
      ensures Encoded(values)[i] != []
    {
      Base64NoStar(values[i]);
    }
  }

  /** The output of a redactor that holds `values`. */
  ghost function Redacted(values: seq<Bytes>, text: Bytes): Bytes
    requires forall i :: 0 <= i < |values| ==> values[i] != []
  {
    EncodedNonEmpty(values);
    ReplaceAll(ReplaceAll(text, values), Encoded(values))
  }

  /** For every text and every set of secrets, no base64 form of a secret is left,
      and no secret that neither starts nor ends with a star nor contains the mask,
      whatever the other secrets are. */
  lemma NoSecretLeft(values: seq<Bytes>, text: Bytes, secret: Bytes)
    requires forall i :: 0 <= i < |values| ==> values[i] != []
    requires secret in values
    ensures MaskProof(secret) ==> !Contains(Redacted(values, text), secret)
    ensures !Contains(Redacted(values, text), Base64(secret))
  {
    EncodedNonEmpty(values);
    var once := ReplaceAll(text, values);
    if MaskProof(secret) {
      AllErased(text, values, secret);
      AllAddNothing(once, Encoded(values), secret);
    }
    var i :| 0 <= i < |values| && values[i] == secret;
    assert Encoded(values)[i] == Base64(secret);
    Base64IsMaskProof(secret);
    AllErased(once, Encoded(values), Base64(secret));
  }

  /** Text that holds no secret in either form passes unchanged; so a second
      redaction changes nothing. */
  lemma RedactionIsIdempotent(values: seq<Bytes>, text: Bytes)
    requires forall i :: 0 <= i < |values| ==> values[i] != [] && MaskProof(values[i])
    ensures Redacted(values, Redacted(values, text)) == Redacted(values, text)
  {
    EncodedNonEmpty(values);
    var out := Redacted(values, text);
    forall i | 0 <= i < |values|
      ensures !Contains(out, values[i]) && !Contains(out, Encoded(values)[i])
    {
      NoSecretLeft(values, text, values[i]);
    }
    AllAbsent(out, values);
    AllAbsent(out, Encoded(values));
  }

  lemma RedactedOne(p: Bytes, text: Bytes)
    requires p != []
    ensures Base64(p) != [] && Redacted([p], text) == Replace(Replace(text, p), Base64(p))
  {
    Base64NoStar(p);
    EncodedNonEmpty([p]);
    assert Encoded([p]) == [Base64(p)];
    ReplaceAllOne(text, p);
    ReplaceAllOne(Replace(text, p), Base64(p));
  }

  lemma ReplaceAllOne(t: Bytes, p: Bytes)
    requires p != []
    ensures ReplaceAll(t, [p]) == Replace(t, p)
  {
    var none: seq<Bytes> := [];
    assert [p][1..] == none;
    assert ReplaceAll(t, [p]) == ReplaceAll(Replace(t, p), none);
  }

  lemma {:induction false} Base64Longer(b: Bytes)
    ensures |Base64(b)| >= |b|
  {
    if |b| > 3 { Base64Longer(b[3..]); }
  }

  /** A redactor of one secret that is not mask-proof leaves it in some text. */
  lemma RedactorLeaks(p: Bytes) returns (text: Bytes)
    requires p != [] && !MaskProof(p)
    ensures Contains(Redacted([p], text), p)
    ensures p != MASK ==> Redacted([p], Redacted([p], text)) != Redacted([p], text)
  {
    var a, b;
    text, a, b := Leak(p);
    var out := Replace(text, p);
    RedactedOne(p, text);
    RedactedOne(p, out);
    Base64NoStar(p);
    Base64Longer(p);
    NotAroundMask(a, b, Base64(p));
    ReplaceAbsent(out, Base64(p));
    Base64IsMaskProof(p);
    if Contains(Replace(out, p), Base64(p)) { ReplaceAddsNothing(out, p, Base64(p)); }
    ReplaceAbsent(Replace(out, p), Base64(p));
    if p != MASK { ReplaceChanges(out, p); }
  }

  ghost predicate AlwaysErased(p: Bytes)
  {
    forall values: seq<Bytes>, text: Bytes ::
      p in values && (forall i :: 0 <= i < |values| ==> values[i] != []) ==> !Contains(Redacted(values, text), p)
  }

  /** Every redactor that holds a secret erases it from every text if and only if the
      secret neither starts nor ends with a star nor contains the mask. */
  lemma AlwaysErasedIff(p: Bytes)
    requires p != []
    ensures AlwaysErased(p) <==> MaskProof(p)
  {
    if MaskProof(p) {
      forall values: seq<Bytes>, text: Bytes | p in values && forall i :: 0 <= i < |values| ==> values[i] != []
        ensures !Contains(Redacted(values, text), p)
      {
        NoSecretLeft(values, text, p);
      }
    } else {
      var text := RedactorLeaks(p);
      assert p in [p];
    }
  }

  ghost predicate Idempotent(p: Bytes)
    requires p != []
  {
    forall text: Bytes :: Redacted([p], Redacted([p], text)) == Redacted([p], text)
  }

  /** Redacting one secret twice is redacting it once, for every text, if and only if
      it is mask-proof or the mask itself. */
  lemma IdempotentIff(p: Bytes)
    requires p != []
    ensures Idempotent(p) <==> MaskProof(p) || p == MASK
  {
    if MaskProof(p) {
      forall text: Bytes ensures Redacted([p], Redacted([p], text)) == Redacted([p], text) {
        RedactionIsIdempotent([p], text);
      }
    } else if p == MASK {
      forall text: Bytes ensures Redacted([p], Redacted([p], text)) == Redacted([p], text) {
        MaskRedactsTwice(text);
      }
    } else {
      var text := RedactorLeaks(p);
    }
  }

  lemma MaskRedactsTwice(text: Bytes)
    ensures Redacted([MASK], Redacted([MASK], text)) == Redacted([MASK], text)
  {
    var w, out := Base64(MASK), Redacted([MASK], text);
    RedactedOne(MASK, text);
    RedactedOne(MASK, out);
    MaskingTheMask(text);
    MaskingTheMask(out);
    Base64IsMaskProof(MASK);
    ReplaceErases(text, w);
    ReplaceAbsent(out, w);
  }

  lemma ReplaceAllSnoc(t: Bytes, ps: seq<Bytes>, p: Bytes)
    requires p != [] && forall i :: 0 <= i < |ps| ==> ps[i] != []
    ensures forall i :: 0 <= i < |ps + [p]| ==> (ps + [p])[i] != []
    ensures ReplaceAll(t, ps + [p]) == Replace(ReplaceAll(t, ps), p)
    decreases |ps|
  {
    if ps == [] {
      assert ps + [p] == [p];
      assert ReplaceAll(t, [p]) == ReplaceAll(Replace(t, p), []);
    } else {
      assert (ps + [p])[1..] == ps[1..] + [p];
      ReplaceAllSnoc(Replace(t, ps[0]), ps[1..], p);
    }
  }

  /** Putting a new secret before the shorter ones. */
  lemma InsertKeepsShape(values: seq<Bytes>, i: nat, value: Bytes)
    requires LongestFirst(values) && NonEmptyDistinct(values) && i <= |values|
    requires value != [] && value !in values
    requires forall k :: 0 <= k < i ==> |values[k]| >= |value|
    requires i < |values| ==> |values[i]| < |value|
    ensures LongestFirst(values[..i] + [value] + values[i..])
    ensures NonEmptyDistinct(values[..i] + [value] + values[i..])
  {
  }

  lemma InsertCounts(values: seq<Bytes>, i: nat, value: Bytes)
    requires i <= |values|
    ensures multiset(values[..i] + [value] + values[i..]) == multiset(values) + multiset{value}
  {
    assert values == values[..i] + values[i..];
  }

  /** A non-empty value the environment has under one of the keys. */
  ghost predicate HeldUnder(env: map<string, Bytes>, keys: seq<string>, v: Bytes)
  {
    v != [] && exists k :: k in keys && k in env && env[k] == v
  }

  lemma HeldSnoc(env: map<string, Bytes>, keys: seq<string>, key: string)
    ensures forall v :: HeldUnder(env, keys + [key], v) <==>
                        HeldUnder(env, keys, v) || (v != [] && key in env && env[key] == v)
  {
    assert forall k :: k in keys + [key] <==> k in keys || k == key;
    forall v ensures HeldUnder(env, keys + [key], v) <==>
                     HeldUnder(env, keys, v) || (v != [] && key in env && env[key] == v) {
      if HeldUnder(env, keys, v) {
        var k :| k in keys && k in env && env[k] == v;
        assert k in keys + [key];
      }
      if v != [] && key in env && env[key] == v { assert key in keys + [key]; }
    }
  }

  class SecretRedactor {
    var values: seq<Bytes>
    var b64Values: seq<Bytes>

    ghost predicate Valid()
      reads this
    {
      LongestFirst(values) && NonEmptyDistinct(values) && b64Values == Encoded(values)
    }

    constructor ()
      ensures Valid() && values == []
    {
      values, b64Values := [], [];
    }

    /** Keeps the longest secrets first, each once. */
    method AddSecretValue(value: Bytes)
      requires Valid()
      modifies this
      ensures Valid()
      ensures multiset(values) == if value == [] || value in old(values) then multiset(old(values))
                                  else multiset(old(values)) + multiset{value}
    {
      if value == [] || value in values {
        return;
      }
      var i := 0;
      while i < |values| && |values[i]| >= |value|
        invariant 0 <= i <= |values|
        invariant forall k :: 0 <= k < i ==> |values[k]| >= |value|
      {
        i := i + 1;
      }
      InsertKeepsShape(values, i, value);
      InsertCounts(values, i, value);
      values := values[..i] + [value] + values[i..];
      b64Values := Encoded(values);
    }

    method AddKnown(value: Bytes)
      requires Valid()
      modifies this
      ensures Valid()
      ensures forall v :: v in values <==> v in old(values) || (v == value && value != [])
    {
      ghost var before := values;
      AddSecretValue(value);
      assert forall v :: v in values <==> v in multiset(values);
      assert forall v :: v in before <==> v in multiset(before);
    }

    /** Collects the secrets an environment holds under the given keys. */
    method FromEnv(env: map<string, Bytes>, secretKeys: seq<string>)
      requires Valid() && values == []
      modifies this
      ensures Valid()
      ensures forall v :: v in values <==> HeldUnder(env, secretKeys + BUILT_IN_KEYS, v)
    {
      var keys := secretKeys + BUILT_IN_KEYS;
      var i := 0;
      while i < |keys|
        invariant 0 <= i <= |keys|
        invariant Valid()
        invariant forall v :: v in values <==> HeldUnder(env, keys[..i], v)
      {
        assert keys[..i + 1] == keys[..i] + [keys[i]];
        HeldSnoc(env, keys[..i], keys[i]);
        if keys[i] in env {
          AddKnown(env[keys[i]]);
        }
        i := i + 1;
      }
      assert keys[..i] == keys;
    }

    method Redact(text: Bytes) returns (out: Bytes)
      requires Valid()
      ensures out == Redacted(values, text)
      ensures forall s :: s in values ==> !Contains(out, Base64(s)) && (MaskProof(s) ==> !Contains(out, s))
    {
      EncodedNonEmpty(values);
      out := MaskEach(text, values);
      out := MaskEach(out, b64Values);
      forall s | s in values
        ensures !Contains(out, Base64(s)) && (MaskProof(s) ==> !Contains(out, s))
      {
        NoSecretLeft(values, text, s);
      }
    }
  }

  method MaskEach(text: Bytes, words: seq<Bytes>) returns (out: Bytes)
    requires forall i :: 0 <= i < |words| ==> words[i] != []
    ensures out == ReplaceAll(text, words)
  {
    out := text;
    var i := 0;
    while i < |words|
      invariant 0 <= i <= |words|
      invariant out == ReplaceAll(text, words[..i])
    {
      assert words[..i + 1] == words[..i] + [words[i]];
      ReplaceAllSnoc(text, words[..i], words[i]);
      out := Replace(out, words[i]);
      i := i + 1;
    }
    assert words[..i] == words;
  }
}
