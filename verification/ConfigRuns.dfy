/** Whole runs of patches on the text of the file: every patch splits the text into
    lines, edits them and joins them again. */
module ConfigRuns {
  import opened Basics
  import opened Text
  import opened ConfigOutline
  import opened ConfigBlocks
  import opened ConfigPatch
  import opened ConfigText

  /** What payload validation lets through: names and values of one line. */
  predicate OneLine(p: Patch)
  {
    p.PatchUpsert? ==> CleanLine(p.name) && CleanLine(Trim(p.value))
  }

  function PatchTexts(content: string, ps: seq<Patch>): string
    decreases |ps|
  {
    if ps == [] then content else PatchTexts(PatchText(content, ps[0]), ps[1..])
  }

  // ----- one patch

  lemma CleanApply(lines: seq<string>, p: Patch)
    requires Clean(lines) && OneLine(p)
    ensures Clean(Apply(lines, p))
  {
    match p
    case PatchUpsert(name, value) => CleanUpsert(lines, name, value);
    case PatchRemove(name) =>
      var after := Remove(lines, name);
      forall i | 0 <= i < |after| ensures CleanLine(after[i]) {
        if FindBlock(lines, name).Some? {
          var f := FindBlock(lines, name).value;
          SplicedAt(lines, f.0, f.1 + 1, [], i);
        }
      }
  }

  lemma {:induction false} JoinHasNoCr(lines: seq<string>)
    requires Clean(lines)
    ensures '\r' !in Join(lines)
  {
    if |lines| > 1 { JoinHasNoCr(lines[1..]); }
  }

  lemma BlankMark()
    ensures MarkOf("") == Mark(0, None)
  {
  }

  /** A blank last line is not part of a block. */
  lemma FoundBeforeBlank(lines: seq<string>, name: string)
    requires WellFormedLines(lines) && lines != [] && lines[|lines| - 1] == ""
    requires FindBlock(lines, name).Some?
    ensures FindBlock(lines, name).value.1 < |lines| - 1
  {
    var o, n := OutlineOf(lines), |lines| - 1;
    BlankMark();
    FoundIsSlot(o, name);
    DepthStep(o, n);
  }

  lemma LastStays(lines: seq<string>, a: nat, b: nat, mid: seq<string>)
    requires a <= b < |lines|
    ensures var after := Splice(lines, a, b, mid); after != [] && after[|after| - 1] == lines[|lines| - 1]
  {
  }

  predicate EndsBlank(lines: seq<string>) { lines != [] && lines[|lines| - 1] == "" }

  lemma FoundKeepsBlank(lines: seq<string>, name: string, mid: seq<string>)
    requires WellFormedLines(lines) && EndsBlank(lines) && FindBlock(lines, name).Some?
    ensures var f := FindBlock(lines, name).value;
            f.0 <= f.1 < |lines| && EndsBlank(Splice(lines, f.0, f.1 + 1, mid))
  {
    FoundBeforeBlank(lines, name);
    var f := FindBlock(lines, name).value;
    LastStays(lines, f.0, f.1 + 1, mid);
  }

  lemma InsertKeepsBlank(lines: seq<string>, mid: seq<string>)
    requires Editable(lines) && EndsBlank(lines)
    ensures EndsBlank(Splice(lines, InsertAt(lines), InsertAt(lines), mid))
  {
    InsertBeforeBlank(lines);
    LastStays(lines, InsertAt(lines), InsertAt(lines), mid);
  }

  /** So it stays the last line. */
  lemma LastBlankStays(lines: seq<string>, p: Patch)
    requires Editable(lines) && EndsBlank(lines)
    ensures EndsBlank(Apply(lines, p))
  {
    var mid := if p.PatchUpsert? then [NewLine(p.name, p.value)] else [];
    if FindBlock(lines, p.name).Some? {
      FoundKeepsBlank(lines, p.name, mid);
    } else if p.PatchUpsert? {
      InsertKeepsBlank(lines, mid);
    }
  }

  /** The lines of the patched text are the patched lines, except that a file of one
      blank line is a file of none or of two. */
  lemma PatchTextLines(content: string, p: Patch)
    requires '\r' !in content && Editable(SplitLines(content)) && OneLine(p)
    ensures var text, after := PatchText(content, p), Apply(SplitLines(content), p);
            && '\r' !in text
            && (SplitLines(text) == after || (after == [""] && (SplitLines(text) == [] || SplitLines(text) == ["", ""])))
  {
    var lines := SplitLines(content);
    var after := Apply(lines, p);
    SplitIsClean(content);
    CleanApply(lines, p);
    JoinHasNoCr(after);
    if after == [""] {
      BlankTexts();
    } else {
      SplitJoin(after);
      JoinEnd(after);
      ContentEnd(content);
      if EndsWithNewline(content) { LastBlankStays(lines, p); }
    }
  }

  lemma BlankTexts()
    ensures SplitLines("") == [] && SplitLines("\n") == ["", ""]
    ensures Join([""]) == "" && "" + "\n" == "\n"
  {
    Uncut("");
    SplitCut("", "");
    assert "" + "\n" + "" == "\n";
  }

  // ----- blank files

  lemma BlankOutline(lines: seq<string>, i: nat)
    requires (forall j :: 0 <= j < |lines| ==> lines[j] == "") && i <= |lines|
    ensures Depth(OutlineOf(lines), i) == 0
  {
    BlankMark();
    if i > 0 {
      BlankOutline(lines, i - 1);
      DepthStep(OutlineOf(lines), i - 1);
    }
  }

  /** A file of blank lines is editable and has no block. */
  lemma BlankShows(lines: seq<string>, name: string)
    requires forall j :: 0 <= j < |lines| ==> lines[j] == ""
    ensures Editable(lines) && Once(OutlineOf(lines), name) && Extract(lines, name) == None
  {
    var o := OutlineOf(lines);
    BlankMark();
    forall i | 0 <= i <= |o| ensures Depth(o, i) == 0 { BlankOutline(lines, i); }
    assert forall j :: 0 <= j < |o| ==> o[j] == Mark(0, None);
    NoGlobalHere(o);
    FindInNone(o, name, RegionOf(o));
  }

  lemma NoGlobalHere(o: Outline)
    requires forall j :: 0 <= j < |o| ==> o[j] == Mark(0, None)
    ensures FindGlobal(o).None?
  {
  }

  // ----- whole runs

  lemma PatchTextShows(content: string, m: map<string, string>, p: Patch, name: string)
    requires '\r' !in content && Editable(SplitLines(content)) && PatchOk(p) && OneLine(p)
    requires ShowsName(SplitLines(content), m, name)
    ensures var text := PatchText(content, p);
            '\r' !in text && Editable(SplitLines(text)) && ShowsName(SplitLines(text), Effect(m, p), name)
  {
    var lines, text := SplitLines(content), PatchText(content, p);
    PatchTextLines(content, p);
    ApplyKeepsEditable(lines, p);
    ApplyShows(lines, m, p, name);
    if SplitLines(text) != Apply(lines, p) {
      BlankShows([""], name);
      BlankShows(SplitLines(text), name);
    }
  }

  lemma PatchTextEditable(content: string, p: Patch)
    requires '\r' !in content && Editable(SplitLines(content)) && PatchOk(p) && OneLine(p)
    ensures '\r' !in PatchText(content, p) && Editable(SplitLines(PatchText(content, p)))
  {
    PatchTextLines(content, p);
    ApplyKeepsEditable(SplitLines(content), p);
    BlankShows([], "");
    BlankShows(["", ""], "");
  }

  /** For every CR-free text of an editable file and every sequence of patches, through
      every split and join: the blocks of the final text are the map updated by the
      patches in order. */
  lemma {:induction false} TextPatchesRefineMap(content: string, names: set<string>, m: map<string, string>, ps: seq<Patch>)
    requires '\r' !in content && Editable(SplitLines(content)) && Shows(SplitLines(content), names, m)
    requires forall i :: 0 <= i < |ps| ==> PatchOk(ps[i]) && OneLine(ps[i])
    ensures var text := PatchTexts(content, ps);
            '\r' !in text && Editable(SplitLines(text)) && Shows(SplitLines(text), names, Effects(m, ps))
    decreases |ps|
  {
    if ps != [] {
      var p, rest := ps[0], ps[1..];
      assert forall i :: 0 <= i < |rest| ==> rest[i] == ps[i + 1];
      PatchTextEditable(content, p);
      forall n | n in names ensures ShowsName(SplitLines(PatchText(content, p)), Effect(m, p), n) {
        PatchTextShows(content, m, p, n);
      }
      TextPatchesRefineMap(PatchText(content, p), names, Effect(m, p), rest);
    }
  }
}
