/** Extracting, upserting and removing named blocks, and the map from names to
    values that a file is under any sequence of such edits. */
module ConfigPatch {
  import opened Basics
  import opened Text
  import opened ConfigOutline
  import opened ConfigBlocks

  // ----- operations

  function FindBlock(lines: seq<string>, name: string): Option<(nat, nat)> { Find(OutlineOf(lines), name) }

  function NewLine(name: string, value: string): string { name + " { " + Trim(value) + " }" }

  /** The number of lines left when blank lines are cut from the end of the first `n`. */
  function WithoutTrailingBlanks(lines: seq<string>, n: nat): (k: nat)
    requires n <= |lines|
    ensures k <= n
    ensures forall j :: k <= j < n ==> Trim(lines[j]) == ""
    ensures k > 0 ==> Trim(lines[k - 1]) != ""
  {
    if n > 0 && Trim(lines[n - 1]) == "" then WithoutTrailingBlanks(lines, n - 1) else n
  }

  /** Where a block that is not there yet goes. */
  function InsertAt(lines: seq<string>): (at: nat)
    ensures at <= |lines|
  {
    match FindGlobal(OutlineOf(lines))
    case Some(g) => if g.1 > g.0 then g.1 else |lines|
    case None => WithoutTrailingBlanks(lines, |lines|)
  }

  /** The lines an upsert of `name` replaces: `[a, b)`, empty for an insertion. */
  function EditSlot(lines: seq<string>, name: string): (slot: (nat, nat))
    ensures slot.0 <= slot.1 <= |lines|
  {
    match FindBlock(lines, name)
    case Some(block) => (block.0, block.1 + 1)
    case None => (InsertAt(lines), InsertAt(lines))
  }

  function Upsert(lines: seq<string>, name: string, value: string): seq<string>
  {
    var slot := EditSlot(lines, name);
    Splice(lines, slot.0, slot.1, [NewLine(name, value)])
  }

  function Remove(lines: seq<string>, name: string): seq<string>
  {
    match FindBlock(lines, name)
    case Some(block) => Splice(lines, block.0, block.1 + 1, [])
    case None => lines
  }

  /** The body of a block on one line, between its first and last brace. */
  function InlineBody(line: string): Option<string>
  {
    var open, close := IndexOf(line, '{'), AfterLast(line, '}');
    if open == |line| || close == 0 then None
    else if close - 1 <= open then Some("")
    else Some(Trim(line[open + 1..close - 1]))
  }

  function BodyOf(lines: seq<string>, start: nat, end: nat): Option<string>
    requires start <= end < |lines|
  {
    if start == end then InlineBody(lines[start]) else Some(Trim(Join(lines[start + 1..end])))
  }

  function Extract(lines: seq<string>, name: string): Option<string>
  {
    match FindBlock(lines, name)
    case Some(block) => BodyOf(lines, block.0, block.1)
    case None => None
  }

  /** `upsert_dwaar_block`, with its search for the insertion point. */
  method UpsertDwaarBlock(lines: seq<string>, name: string, value: string) returns (out: seq<string>, body: string)
    ensures out == Upsert(lines, name, value)
    ensures body == Trim(value)
  {
    body := Trim(value);
    var newLine := name + " { " + body + " }";
    var block := FindDwaarBlock(lines, name);
    if block.Some? {
      return lines[..block.value.0] + [newLine] + lines[block.value.1 + 1..], body;
    }
    var insertAt := |lines|;
    var global := FindGlobalBlock(lines);
    if global.Some? {
      if global.value.1 > global.value.0 {
        insertAt := global.value.1;
      }
    } else {
      while insertAt > 0 && Trim(lines[insertAt - 1]) == ""
        invariant 0 <= insertAt <= |lines|
        invariant WithoutTrailingBlanks(lines, insertAt) == WithoutTrailingBlanks(lines, |lines|)
      {
        insertAt := insertAt - 1;
      }
    }
    out := lines[..insertAt] + [newLine] + lines[insertAt..];
  }

  // ----- the line an upsert writes

  /** Names as the allowlist has them: trimmed, without braces or comment signs. */
  predicate ValidName(name: string)
  {
    name != "" && Trimmed(name) && '{' !in name && '}' !in name && '#' !in name
  }

  lemma AllowedNamesAreValid()
    ensures ValidName("analytics") && ValidName("log_level") && ValidName("rate_limit_default")
  {
    AnalyticsIsValid();
    LogLevelIsValid();
    RateLimitIsValid();
  }

  lemma AnalyticsIsValid()
    ensures ValidName("analytics")
  {
  }

  lemma LogLevelIsValid()
    ensures ValidName("log_level")
  {
  }

  lemma RateLimitIsValid()
    ensures ValidName("rate_limit_default")
  {
  }

  lemma IndexAt(s: string, c: char, i: nat)
    requires i < |s| && s[i] == c
    requires forall j :: 0 <= j < i ==> s[j] != c
    ensures IndexOf(s, c) == i
  {
  }

  /** The written line opens a block of its name. */
  lemma NewLineHead(name: string, value: string)
    requires ValidName(name)
    ensures Head(NewLine(name, value)) == Some(name)
    ensures IndexOf(NewLine(name, value), '{') == |name| + 1
  {
    var line := NewLine(name, value);
    var n := |name| + 1;
    assert line[..n] == name + " ";
    assert line[n] == '{';
    assert forall j :: 0 <= j < n ==> line[j] == (name + " ")[j];
    IndexAt(line, '{', n);
    assert IndexOf(line, '#') > n;
    var code := StripComment(line);
    assert code[n] == '{';
    IndexAt(code, '{', n);
    assert code[..n] == name + " ";
    TrimPadded(name);
  }

  /** Between its first and last brace stands the value. */
  lemma NewLineBody(name: string, value: string)
    requires ValidName(name)
    ensures InlineBody(NewLine(name, value)) == Some(Trim(value))
  {
    var line, v := NewLine(name, value), Trim(value);
    var n := |name| + 1;
    assert IndexOf(line, '{') == n by { NewLineHead(name, value); }
    assert line[|line| - 1] == '}';
    assert AfterLast(line, '}') == |line|;
    assert line[n + 1..|line| - 1] == " " + v + " ";
    assert Trim(" " + v + " ") == v by {
      TrimIsTrimmed(value);
      TrimPadded(v);
    }
  }

  /** Without a comment sign the written line is balanced when the value is. */
  lemma NewLineNet(name: string, value: string)
    requires ValidName(name)
    requires '#' !in Trim(value)
    ensures Net(NewLine(name, value)) == Count(Trim(value), '{') - Count(Trim(value), '}')
  {
    var line, v := NewLine(name, value), Trim(value);
    assert '#' !in line;
    assert IndexOf(line, '#') == |line|;
    assert line[..|line|] == line;
    CountParts(name, v, '{');
    CountParts(name, v, '}');
    CountZero(name, '{');
    CountZero(name, '}');
    BraceCounts();
  }

  lemma CountParts(name: string, v: string, c: char)
    ensures Count(name + " { " + v + " }", c) == Count(name, c) + Count(" { ", c) + Count(v, c) + Count(" }", c)
  {
    CountConcat(name + " { " + v, " }", c);
    CountConcat(name + " { ", v, c);
    CountConcat(name, " { ", c);
  }

  lemma BraceCounts()
    ensures Count(" { ", '{') == 1 && Count(" { ", '}') == 0
    ensures Count(" }", '{') == 0 && Count(" }", '}') == 1
  {
    assert " { "[1..] == "{ " && "{ "[1..] == " " && " "[1..] == "";
    assert " }"[1..] == "}" && "}"[1..] == "";
  }

  // ----- where an edit happens

  ghost predicate WellFormedLines(lines: seq<string>) { WellFormed(OutlineOf(lines)) }

  predicate InlineGlobal(lines: seq<string>) { OneLineGlobal(OutlineOf(lines)) }

  /** A file the editor handles: well-formed, its global block not on one line. */
  ghost predicate Editable(lines: seq<string>) { WellFormedLines(lines) && !InlineGlobal(lines) }

  /** An upsert that writes a balanced line under a valid name. */
  predicate Balanced(name: string, value: string) { ValidName(name) && Net(NewLine(name, value)) == 0 }

  lemma BlankNet(line: string)
    requires Trim(line) == ""
    ensures Net(line) == 0
  {
    var code := StripComment(line);
    if '{' in code { BlankIsSpace(line, '{'); }
    if '}' in code { BlankIsSpace(line, '}'); }
    CountZero(code, '{');
    CountZero(code, '}');
  }

  lemma {:induction false} BlankTailDepth(lines: seq<string>, k: nat, n: nat)
    requires k <= n <= |lines|
    requires forall j :: k <= j < n ==> Trim(lines[j]) == ""
    ensures Depth(OutlineOf(lines), k) == Depth(OutlineOf(lines), n)
    decreases n
  {
    if k < n {
      DepthStep(OutlineOf(lines), n - 1);
      BlankNet(lines[n - 1]);
      BlankTailDepth(lines, k, n - 1);
    }
  }

  lemma InsertIsSlot(lines: seq<string>)
    requires Editable(lines)
    ensures Slot(OutlineOf(lines), RegionOf(OutlineOf(lines)), InsertAt(lines), InsertAt(lines))
  {
    var o := OutlineOf(lines);
    if FindGlobal(o).Some? {
      GlobalShape(o);
    } else {
      BlankTailDepth(lines, InsertAt(lines), |lines|);
    }
  }

  /** An upsert replaces the first block of its name, or fills an empty slot of
      the region when there is none. */
  lemma EditSlotIsSlot(lines: seq<string>, name: string)
    requires Editable(lines)
    ensures var o, slot := OutlineOf(lines), EditSlot(lines, name);
            && Slot(o, RegionOf(o), slot.0, slot.1)
            && (forall j :: 0 <= j < slot.0 ==> !OccursIn(o, name, RegionOf(o), j))
            && (slot.0 < slot.1 <==> FindBlock(lines, name).Some?)
            && (slot.0 < slot.1 ==> o[slot.0].head == Some(name))
  {
    var o := OutlineOf(lines);
    if FindBlock(lines, name).Some? {
      FoundIsSlot(o, name);
    } else {
      NotFoundNowhere(o, name);
      InsertIsSlot(lines);
    }
  }

  /** What an upsert does to the outline. */
  lemma UpsertOutline(lines: seq<string>, name: string, value: string)
    requires Balanced(name, value)
    ensures var slot, mark := EditSlot(lines, name), Mark(0, Some(name));
            && Filler([mark])
            && OutlineOf(Upsert(lines, name, value)) == Splice(OutlineOf(lines), slot.0, slot.1, [mark])
  {
    var slot := EditSlot(lines, name);
    NewLineHead(name, value);
    OutlineSplice(lines, slot.0, slot.1, [NewLine(name, value)]);
    assert OutlineOf([NewLine(name, value)]) == [Mark(0, Some(name))];
  }

  /** What a removal does to the outline. */
  lemma RemoveOutline(lines: seq<string>, name: string)
    ensures OutlineOf(Remove(lines, name)) == Removed(OutlineOf(lines), name)
  {
    if FindBlock(lines, name).Some? {
      var f := FindBlock(lines, name).value;
      OutlineSplice(lines, f.0, f.1 + 1, []);
      assert OutlineOf([]) == [];
    }
  }

  // ----- the written block

  lemma UpsertedLine(lines: seq<string>, name: string, value: string)
    ensures var a, after := EditSlot(lines, name).0, Upsert(lines, name, value);
            a < |after| && after[a] == NewLine(name, value)
  {
  }

  /** After an upsert the block is found as the one line that was written. */
  lemma FindAfterUpsert(lines: seq<string>, name: string, value: string)
    requires Editable(lines) && Balanced(name, value)
    ensures var a := EditSlot(lines, name).0;
            FindBlock(Upsert(lines, name, value), name) == Some((a, a))
  {
    var slot := EditSlot(lines, name);
    EditSlotIsSlot(lines, name);
    UpsertOutline(lines, name, value);
    FindSpliced(OutlineOf(lines), slot.0, slot.1, Mark(0, Some(name)), name);
  }

  /** Extracting a block after upserting it returns the upserted value. */
  lemma ExtractAfterUpsert(lines: seq<string>, name: string, value: string)
    requires Editable(lines) && Balanced(name, value)
    ensures Extract(Upsert(lines, name, value), name) == Some(Trim(value))
  {
    FindAfterUpsert(lines, name, value);
    UpsertedLine(lines, name, value);
    NewLineBody(name, value);
  }

  lemma SpliceTwice<T>(s: seq<T>, a: nat, b: nat, mid: seq<T>, other: seq<T>)
    requires a <= b <= |s|
    ensures Splice(Splice(s, a, b, mid), a, a + |mid|, other) == Splice(s, a, b, other)
  {
    var after := Splice(s, a, b, mid);
    assert after[..a] == s[..a];
    assert after[a + |mid|..] == s[b..];
  }

  lemma SpliceNothing<T>(s: seq<T>, a: nat)
    requires a <= |s|
    ensures Splice(s, a, a, []) == s
  {
  }

  /** A second upsert of the same block overwrites the first. */
  lemma UpsertTwice(lines: seq<string>, name: string, first: string, second: string)
    requires Editable(lines) && Balanced(name, first)
    ensures Upsert(Upsert(lines, name, first), name, second) == Upsert(lines, name, second)
  {
    FindAfterUpsert(lines, name, first);
    var slot := EditSlot(lines, name);
    SpliceTwice(lines, slot.0, slot.1, [NewLine(name, first)], [NewLine(name, second)]);
  }

  /** Removing a block that an upsert inserted restores the lines. */
  lemma RemoveUndoesInsert(lines: seq<string>, name: string, value: string)
    requires Editable(lines) && Balanced(name, value)
    requires FindBlock(lines, name).None?
    ensures Remove(Upsert(lines, name, value), name) == lines
  {
    var at, after := InsertAt(lines), Upsert(lines, name, value);
    FindAfterUpsert(lines, name, value);
    assert Remove(after, name) == Splice(after, at, at + 1, []);
    SpliceTwice(lines, at, at, [NewLine(name, value)], []);
    SpliceNothing(lines, at);
  }

  // ----- when the written block can be found at all

  lemma AppendKeepsGlobal(o: Outline, mark: Mark)
    requires FindGlobal(o).Some?
    ensures FindGlobal(o + [mark]) == FindGlobal(o)
  {
    var g, after := FindGlobal(o).value, o + [mark];
    forall k | 0 <= k <= |o|
      ensures Depth(after, k) == Depth(o, k)
    {
      assert after[..k] == o[..k];
    }
    assert forall j :: 0 <= j <= g.0 ==> (GlobalOpen(after, j) <==> GlobalOpen(o, j));
    FindGlobalIs(after, g.0, g.1);
  }

  /** An upsert into a file whose global block is on one line is lost. */
  lemma InlineGlobalLosesUpsert(lines: seq<string>, name: string, value: string)
    requires InlineGlobal(lines)
    ensures FindBlock(Upsert(lines, name, value), name).None?
  {
    var o, line := OutlineOf(lines), NewLine(name, value);
    FindInNone(o, name, RegionOf(o));
    assert Upsert(lines, name, value) == lines + [line];
    var after := OutlineOf(lines + [line]);
    assert after == o + [MarkOf(line)];
    AppendKeepsGlobal(o, MarkOf(line));
    FindInNone(after, name, RegionOf(after));
  }

  /** The block an upsert writes is found as written if and only if the file has
      no one-line global block and the written line leaves the depth unchanged. */
  lemma UpsertFoundIff(lines: seq<string>, name: string, value: string)
    requires WellFormedLines(lines) && ValidName(name)
    ensures var a := EditSlot(lines, name).0;
            FindBlock(Upsert(lines, name, value), name) == Some((a, a))
            <==> !InlineGlobal(lines) && Net(NewLine(name, value)) == 0
  {
    var a, after := EditSlot(lines, name).0, Upsert(lines, name, value);
    UpsertedLine(lines, name, value);
    if InlineGlobal(lines) {
      InlineGlobalLosesUpsert(lines, name, value);
    } else if Net(NewLine(name, value)) == 0 {
      FindAfterUpsert(lines, name, value);
    } else if FindBlock(after, name) == Some((a, a)) {
      OneLineBlockNet(OutlineOf(after), name, a);
    }
  }

  lemma EmptyBraces()
    ensures MarkOf("{}") == Mark(0, Some(""))
  {
    var line := "{}";
    assert StripComment(line) == line;
    assert line[1..] == "}" && "}"[1..] == "";
    IndexAt(line, '{', 0);
  }

  /** A well-formed file whose global block is on one line. */
  lemma InlineGlobalExample()
    ensures WellFormedLines(["{}"]) && InlineGlobal(["{}"])
  {
    var line := "{}";
    EmptyBraces();
    var o := OutlineOf([line]);
    assert o == [Mark(0, Some(""))];
    assert Depth(o, 0) == 0;
    DepthStep(o, 0);
    FindGlobalIs(o, 0, 0);
  }

  /** A value that starts a comment swallows its closing brace. */
  lemma CommentedValueUnbalanced(name: string, value: string)
    requires ValidName(name)
    requires Trim(value) != "" && Trim(value)[0] == '#'
    ensures Net(NewLine(name, value)) == 1
  {
    var line := NewLine(name, value);
    var code := name + " { ";
    assert line[..|code|] == code;
    assert forall j :: 0 <= j < |code| ==> line[j] == code[j];
    IndexAt(line, '#', |code|);
    CountConcat(name, " { ", '{');
    CountConcat(name, " { ", '}');
    CountZero(name, '{');
    CountZero(name, '}');
    BraceCounts();
  }

  // ----- blocks of other names

  lemma BodyMoves(lines: seq<string>, a: nat, b: nat, mid: seq<string>, s: nat, e: nat)
    requires a <= b <= |lines| && s <= e < |lines| && (e < a || b <= s)
    ensures BodyOf(Splice(lines, a, b, mid), Moved(a, b, |mid|, s), Moved(a, b, |mid|, e)) == BodyOf(lines, s, e)
  {
    var after, s', e' := Splice(lines, a, b, mid), Moved(a, b, |mid|, s), Moved(a, b, |mid|, e);
    SplicedAt(lines, a, b, mid, s');
    if s < e {
      var body, body' := lines[s + 1..e], after[s' + 1..e'];
      forall i | 0 <= i < |body|
        ensures body'[i] == body[i]
      {
        SplicedAt(lines, a, b, mid, s' + 1 + i);
      }
      assert body' == body;
    }
  }

  /** Editing one slot leaves the body of every unrelated block unchanged. */
  lemma UnrelatedKept(lines: seq<string>, a: nat, b: nat, mid: seq<string>, name: string)
    requires WellFormedLines(lines)
    requires Slot(OutlineOf(lines), RegionOf(OutlineOf(lines)), a, b) && Filler(OutlineOf(mid))
    requires Unrelated(OutlineOf(lines), a, b, OutlineOf(mid), name)
    ensures Extract(Splice(lines, a, b, mid), name) == Extract(lines, name)
  {
    OutlineSplice(lines, a, b, mid);
    FindUnrelated(OutlineOf(lines), a, b, OutlineOf(mid), name);
    if FindBlock(lines, name).Some? {
      var f := FindBlock(lines, name).value;
      BodyMoves(lines, a, b, mid, f.0, f.1);
    }
  }

  /** Upsert leaves every other block alone. */
  lemma UpsertKeepsOthers(lines: seq<string>, name: string, value: string, other: string)
    requires Editable(lines) && Balanced(name, value)
    requires other != name
    ensures Extract(Upsert(lines, name, value), other) == Extract(lines, other)
  {
    var slot := EditSlot(lines, name);
    EditSlotIsSlot(lines, name);
    NewLineHead(name, value);
    UnrelatedKept(lines, slot.0, slot.1, [NewLine(name, value)], other);
  }

  /** Remove leaves every other block alone. */
  lemma RemoveKeepsOthers(lines: seq<string>, name: string, other: string)
    requires WellFormedLines(lines)
    requires other != name
    ensures Extract(Remove(lines, name), other) == Extract(lines, other)
  {
    if FindBlock(lines, name).Some? {
      var f, nothing: seq<string> := FindBlock(lines, name).value, [];
      FoundIsSlot(OutlineOf(lines), name);
      assert OutlineOf(nothing) == [];
      UnrelatedKept(lines, f.0, f.1 + 1, nothing, other);
    }
  }

  /** Removing a block makes it absent if and only if it was there once at most. */
  lemma RemoveMakesAbsentIff(lines: seq<string>, name: string)
    requires WellFormedLines(lines)
    ensures FindBlock(Remove(lines, name), name).None? <==> Once(OutlineOf(lines), name)
  {
    RemoveOutline(lines, name);
    OnceIffRemoved(OutlineOf(lines), name);
  }

  // ----- runs of patches

  datatype Patch = PatchUpsert(name: string, value: string) | PatchRemove(name: string)

  predicate PatchOk(p: Patch) { p.PatchUpsert? ==> Balanced(p.name, p.value) }

  function Apply(lines: seq<string>, p: Patch): seq<string>
  {
    match p
    case PatchUpsert(name, value) => Upsert(lines, name, value)
    case PatchRemove(name) => Remove(lines, name)
  }

  function ApplyAll(lines: seq<string>, ps: seq<Patch>): seq<string>
    decreases |ps|
  {
    if ps == [] then lines else ApplyAll(Apply(lines, ps[0]), ps[1..])
  }

  /** What a patch means for a file seen as a map. */
  function Effect(m: map<string, string>, p: Patch): map<string, string>
  {
    match p
    case PatchUpsert(name, value) => m[name := Trim(value)]
    case PatchRemove(name) => m - {name}
  }

  function Effects(m: map<string, string>, ps: seq<Patch>): map<string, string>
    decreases |ps|
  {
    if ps == [] then m else Effects(Effect(m, ps[0]), ps[1..])
  }

  /** The block `name` stands once at most and has the value of the map. */
  ghost predicate ShowsName(lines: seq<string>, m: map<string, string>, name: string)
  {
    && Once(OutlineOf(lines), name)
    && Extract(lines, name) == if name in m then Some(m[name]) else None
  }

  ghost predicate Shows(lines: seq<string>, names: set<string>, m: map<string, string>)
  {
    forall n :: n in names ==> ShowsName(lines, m, n)
  }

  /** Edits keep a file editable. */
  lemma ApplyKeepsEditable(lines: seq<string>, p: Patch)
    requires Editable(lines) && PatchOk(p)
    ensures Editable(Apply(lines, p))
  {
    match p
    case PatchUpsert(name, value) => UpsertKeepsEditable(lines, name, value);
    case PatchRemove(name) =>
      RemoveOutline(lines, name);
      RemovedIsWellFormed(OutlineOf(lines), name);
  }

  lemma UpsertKeepsEditable(lines: seq<string>, name: string, value: string)
    requires Editable(lines) && Balanced(name, value)
    ensures Editable(Upsert(lines, name, value))
  {
    var o, slot, mid := OutlineOf(lines), EditSlot(lines, name), [Mark(0, Some(name))];
    EditSlotIsSlot(lines, name);
    UpsertOutline(lines, name, value);
    SpliceWellFormed(o, slot.0, slot.1, mid);
    SpliceKeepsGlobalOpen(o, slot.0, slot.1, mid);
  }

  lemma UpsertKeepsOnce(lines: seq<string>, n: string, value: string, name: string)
    requires Editable(lines) && Balanced(n, value)
    requires Once(OutlineOf(lines), name)
    ensures Once(OutlineOf(Upsert(lines, n, value)), name)
  {
    var o, slot := OutlineOf(lines), EditSlot(lines, n);
    EditSlotIsSlot(lines, n);
    UpsertOutline(lines, n, value);
    if n == name { OnlyInSlot(lines, name); }
    SpliceKeepsOnce(o, slot.0, slot.1, [Mark(0, Some(n))], name);
  }

  lemma OnlyInSlot(lines: seq<string>, name: string)
    requires Editable(lines)
    requires Once(OutlineOf(lines), name)
    ensures var o, slot := OutlineOf(lines), EditSlot(lines, name);
            forall j :: 0 <= j < |o| && OccursIn(o, name, RegionOf(o), j) ==> slot.0 <= j < slot.1
  {
    var o := OutlineOf(lines);
    if FindBlock(lines, name).None? { NotFoundNowhere(o, name); } else { FoundIsSlot(o, name); }
  }

  lemma RemoveKeepsOnce(lines: seq<string>, n: string, name: string)
    requires WellFormedLines(lines)
    requires Once(OutlineOf(lines), name)
    ensures Once(OutlineOf(Remove(lines, n)), name)
  {
    RemoveOutline(lines, n);
    RemovedKeepsOnce(OutlineOf(lines), n, name);
  }

  /** One patch changes the map as it should, at every name. */
  lemma ApplyShows(lines: seq<string>, m: map<string, string>, p: Patch, name: string)
    requires Editable(lines) && PatchOk(p)
    requires ShowsName(lines, m, name)
    ensures ShowsName(Apply(lines, p), Effect(m, p), name)
  {
    match p
    case PatchUpsert(n, value) =>
      UpsertKeepsOnce(lines, n, value, name);
      if n == name { ExtractAfterUpsert(lines, n, value); } else { UpsertKeepsOthers(lines, n, value, name); }
    case PatchRemove(n) =>
      RemoveKeepsOnce(lines, n, name);
      if n == name { RemoveMakesAbsentIff(lines, n); } else { RemoveKeepsOthers(lines, n, name); }
  }

  /** For every editable file and every sequence of patches, the blocks of the
      final file are the map updated by the patches in order. */
  lemma {:induction false} PatchesRefineMap(lines: seq<string>, names: set<string>, m: map<string, string>, ps: seq<Patch>)
    requires Editable(lines) && Shows(lines, names, m)
    requires forall i :: 0 <= i < |ps| ==> PatchOk(ps[i])
    ensures Editable(ApplyAll(lines, ps))
    ensures Shows(ApplyAll(lines, ps), names, Effects(m, ps))
    decreases |ps|
  {
    if ps != [] {
      var p, rest := ps[0], ps[1..];
      assert forall i :: 0 <= i < |rest| ==> rest[i] == ps[i + 1];
      ApplyKeepsEditable(lines, p);
      forall n | n in names
        ensures ShowsName(Apply(lines, p), Effect(m, p), n)
      {
        ApplyShows(lines, m, p, n);
      }
      PatchesRefineMap(Apply(lines, p), names, Effect(m, p), rest);
    }
  }
}
