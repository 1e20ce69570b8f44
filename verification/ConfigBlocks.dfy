/** How the configuration editor reads lines and searches for blocks. */
module ConfigBlocks {
  import opened Basics
  import opened Text
  import opened ConfigOutline

  // ----- one line

  function StripComment(line: string): string { line[..IndexOf(line, '#')] }

  /** How far a line moves the brace depth. */
  function Net(line: string): int
  {
    var code := StripComment(line);
    Count(code, '{') - Count(code, '}')
  }

  /** What stands before the first brace of a line, trimmed. */
  function Head(line: string): Option<string>
  {
    var code := StripComment(line);
    if '{' in code then Some(Trim(code[..IndexOf(code, '{')])) else None
  }

  function MarkOf(line: string): Mark { Mark(Net(line), Head(line)) }

  function OutlineOf(lines: seq<string>): (o: Outline)
    ensures |o| == |lines|
    ensures forall i :: 0 <= i < |o| ==> o[i] == MarkOf(lines[i])
  {
    seq(|lines|, i requires 0 <= i < |lines| => MarkOf(lines[i]))
  }

  lemma OutlineSplice(lines: seq<string>, a: nat, b: nat, mid: seq<string>)
    requires a <= b <= |lines|
    ensures OutlineOf(Splice(lines, a, b, mid)) == Splice(OutlineOf(lines), a, b, OutlineOf(mid))
  {
  }

  // ----- the loops of the source

  method FindGlobalBlock(lines: seq<string>) returns (r: Option<(nat, nat)>)
    ensures r == FindGlobal(OutlineOf(lines))
  {
    ghost var o := OutlineOf(lines);
    var depth: int := 0;
    var start: Option<nat> := None;
    var idx := 0;
    while idx < |lines|
      invariant 0 <= idx <= |lines|
      invariant depth == Depth(o, idx)
      invariant start.None? ==> forall k :: 0 <= k < idx ==> !GlobalOpen(o, k)
      invariant start.Some? ==>
                  && start.value < idx
                  && GlobalOpen(o, start.value)
                  && (forall k :: 0 <= k < start.value ==> !GlobalOpen(o, k))
                  && (forall k :: start.value < k <= idx ==> Depth(o, k) != 0)
    {
      assert o[idx] == MarkOf(lines[idx]);
      var line := StripComment(lines[idx]);
      var opens, closes := Count(line, '{'), Count(line, '}');
      CountZero(line, '{');
      if depth == 0 && start.None? && opens > 0 {
        var head := line[..IndexOf(line, '{')];
        if Trim(head) == "" {
          start := Some(idx);
        }
      }
      DepthStep(o, idx);
      depth := depth + opens - closes;
      if start.Some? && depth == 0 {
        FindGlobalIs(o, start.value, idx);
        return Some((start.value, idx));
      }
      idx := idx + 1;
    }
    NotClosed(o, start);
    r := None;
  }

  lemma NotClosed(o: Outline, start: Option<nat>)
    requires start.None? ==> forall k :: 0 <= k < |o| ==> !GlobalOpen(o, k)
    requires start.Some? ==>
               && start.value < |o|
               && GlobalOpen(o, start.value)
               && (forall k :: 0 <= k < start.value ==> !GlobalOpen(o, k))
               && (forall k :: start.value < k <= |o| ==> Depth(o, k) != 0)
    ensures FindGlobal(o) == None
  {
    var s := FirstGlobal(o, 0);
    assert s == if start.Some? then start.value else |o|;
  }

  method FindDwaarBlock(lines: seq<string>, name: string) returns (r: Option<(nat, nat)>)
    ensures r == Find(OutlineOf(lines), name)
  {
    ghost var o := OutlineOf(lines);
    var global := FindGlobalBlock(lines);
    var c, from, to := 0, 0, |lines| - 1;
    if global.Some? {
      if global.value.1 <= global.value.0 + 1 {
        FindInNone(o, name, RegionOf(o));
        return None;
      }
      c, from, to := 1, global.value.0 + 1, global.value.1 - 1;
    } else if lines == [] {
      return None;
    }
    assert RegionOf(o) == Region(c, from, to + 1);
    r := ScanBlocks(lines, name, c, from, to);
  }

  method ScanBlocks(lines: seq<string>, name: string, c: int, from: nat, to: nat) returns (r: Option<(nat, nat)>)
    ensures r == FindIn(OutlineOf(lines), name, Region(c, from, to + 1))
  {
    ghost var o, region := OutlineOf(lines), Region(c, from, to + 1);
    var depth: int := 0;
    var start: Option<nat> := None;
    var idx := 0;
    while idx < |lines|
      invariant 0 <= idx <= |lines|
      invariant depth == Depth(o, idx)
      invariant start.None? ==> forall k :: 0 <= k < idx ==> !OccursIn(o, name, region, k)
      invariant start.Some? ==> start.value < idx && OpensFirst(o, name, region, start.value)
      invariant start.Some? ==> forall k :: start.value < k <= idx ==> Depth(o, k) != c
    {
      assert o[idx] == MarkOf(lines[idx]);
      var line := StripComment(lines[idx]);
      if start.None? && depth == c && from <= idx <= to && '{' in line {
        var head := line[..IndexOf(line, '{')];
        if Trim(head) == name {
          start := Some(idx);
        }
      }
      DepthStep(o, idx);
      depth := depth + (Count(line, '{') - Count(line, '}'));
      if start.Some? && depth == c {
        FindInIs(o, name, region, start.value, idx);
        return Some((start.value, idx));
      }
      idx := idx + 1;
    }
    BlockNotClosed(o, name, region, start);
    r := None;
  }

  lemma BlockNotClosed(o: Outline, name: string, region: Region, start: Option<nat>)
    requires start.None? ==> forall k :: 0 <= k < |o| ==> !OccursIn(o, name, region, k)
    requires start.Some? ==> OpensFirst(o, name, region, start.value)
    requires start.Some? ==> forall k :: start.value < k <= |o| ==> Depth(o, k) != region.depth
    ensures FindIn(o, name, region) == None
  {
    var s := FirstNamed(o, name, region, 0);
    assert s == if start.Some? then start.value else |o|;
  }
}
