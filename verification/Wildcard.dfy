/** The artifact name matcher: `*` stands for any bytes, `?` for one byte. */
module Wildcard {
  import opened Basics

  type Bytes = seq<byte>

  const ANY: byte := 42
  const ONE: byte := 63

  /** `wildcard_match_bytes`. */
  predicate WildcardMatch(pattern: Bytes, value: Bytes)
    decreases |pattern| + |value|
  {
    if pattern == [] then value == []
    else if pattern[0] == ANY then
      WildcardMatch(pattern[1..], value) || (value != [] && WildcardMatch(pattern, value[1..]))
    else if pattern[0] == ONE then value != [] && WildcardMatch(pattern[1..], value[1..])
    else value != [] && value[0] == pattern[0] && WildcardMatch(pattern[1..], value[1..])
  }

  // ----- what a pattern means

  function Concat(pieces: seq<Bytes>): Bytes
  {
    if pieces == [] then [] else pieces[0] + Concat(pieces[1..])
  }

  /** What one pattern byte may stand for. */
  predicate StandsFor(p: byte, piece: Bytes)
  {
    p == ANY || (|piece| == 1 && (p == ONE || piece[0] == p))
  }

  /** `pieces` cuts `value` into one piece per pattern byte. */
  ghost predicate Decomposes(pattern: Bytes, value: Bytes, pieces: seq<Bytes>)
  {
    && |pieces| == |pattern|
    && Concat(pieces) == value
    && (forall i :: 0 <= i < |pattern| ==> StandsFor(pattern[i], pieces[i]))
  }

  ghost predicate Means(pattern: Bytes, value: Bytes) { exists pieces :: Decomposes(pattern, value, pieces) }

  lemma DecomposesCons(pattern: Bytes, value: Bytes, piece: Bytes, pieces: seq<Bytes>)
    requires pattern != [] && StandsFor(pattern[0], piece)
    requires Decomposes(pattern[1..], value, pieces)
    ensures Decomposes(pattern, piece + value, [piece] + pieces)
  {
    var all := [piece] + pieces;
    assert all[1..] == pieces;
    forall i | 0 <= i < |pattern|
      ensures StandsFor(pattern[i], all[i])
    {
      if i > 0 { assert pattern[i] == pattern[1..][i - 1] && all[i] == pieces[i - 1]; }
    }
  }

  /** A match can be cut into pieces. */
  lemma {:induction false} MatchDecomposes(pattern: Bytes, value: Bytes) returns (pieces: seq<Bytes>)
    requires WildcardMatch(pattern, value)
    ensures Decomposes(pattern, value, pieces)
    decreases |pattern| + |value|
  {
    if pattern == [] {
      pieces := [];
    } else if pattern[0] == ANY && WildcardMatch(pattern[1..], value) {
      var rest := MatchDecomposes(pattern[1..], value);
      DecomposesCons(pattern, value, [], rest);
      assert [] + value == value;
      pieces := [[]] + rest;
    } else if pattern[0] == ANY {
      var longer := MatchDecomposes(pattern, value[1..]);
      pieces := [[value[0]] + longer[0]] + longer[1..];
      assert pieces[1..] == longer[1..];
      assert value == [value[0]] + (longer[0] + Concat(longer[1..]));
    } else {
      var rest := MatchDecomposes(pattern[1..], value[1..]);
      DecomposesCons(pattern, value[1..], [value[0]], rest);
      assert [value[0]] + value[1..] == value;
      pieces := [[value[0]]] + rest;
    }
  }

  /** A value cut into pieces is matched. */
  lemma {:induction false} DecomposesMatch(pattern: Bytes, value: Bytes, pieces: seq<Bytes>)
    requires Decomposes(pattern, value, pieces)
    ensures WildcardMatch(pattern, value)
    decreases |pattern| + |value|
  {
    if pattern != [] {
      var piece, rest := pieces[0], pieces[1..];
      assert forall i :: 0 <= i < |rest| ==> pattern[1..][i] == pattern[i + 1] && rest[i] == pieces[i + 1];
      assert Decomposes(pattern[1..], Concat(rest), rest);
      if piece == [] {
        assert value == Concat(rest);
        DecomposesMatch(pattern[1..], value, rest);
      } else if pattern[0] == ANY {
        var shorter := [piece[1..]] + rest;
        assert shorter[1..] == rest;
        assert value[1..] == piece[1..] + Concat(rest);
        assert Decomposes(pattern, value[1..], shorter);
        DecomposesMatch(pattern, value[1..], shorter);
      } else {
        assert value[1..] == Concat(rest);
        DecomposesMatch(pattern[1..], value[1..], rest);
      }
    }
  }

  /** The matcher accepts exactly the values the pattern means. */
  lemma MatchesIffMeans(pattern: Bytes, value: Bytes)
    ensures WildcardMatch(pattern, value) <==> Means(pattern, value)
  {
    if WildcardMatch(pattern, value) {
      var pieces := MatchDecomposes(pattern, value);
    }
    forall pieces | Decomposes(pattern, value, pieces)
      ensures WildcardMatch(pattern, value)
    {
      DecomposesMatch(pattern, value, pieces);
    }
  }
}
