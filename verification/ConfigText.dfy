/** A patch applied to the text of the file: split into lines, edit, join. */
module ConfigText {
  import opened Basics
  import opened Text
  import opened ConfigOutline
  import opened ConfigBlocks
  import opened ConfigPatch

  function StripCr(s: string): string
  {
    if s != "" && s[|s| - 1] == '\r' then s[..|s| - 1] else s
  }

  /** `str::lines`: a line ends at "\n" or "\r\n"; the last may have no end. */
  function Lines(c: string): seq<string>
    decreases |c|
  {
    if c == "" then []
    else
      var i := IndexOf(c, '\n');
      if i == |c| then [c] else [StripCr(c[..i])] + Lines(c[i + 1..])
  }

  predicate EndsWithNewline(c: string) { c != "" && c[|c| - 1] == '\n' }

  function SplitLines(c: string): seq<string>
  {
    if EndsWithNewline(c) then Lines(c) + [""] else Lines(c)
  }

  /** The text with every "\r\n" turned into "\n". */
  function DropCr(c: string): string
    decreases |c|
  {
    var i := IndexOf(c, '\n');
    if i == |c| then c else StripCr(c[..i]) + "\n" + DropCr(c[i + 1..])
  }

  ghost predicate HasCrLf(c: string)
  {
    exists k :: 0 <= k < |c| - 1 && c[k] == '\r' && c[k + 1] == '\n'
  }

  // ----- splitting and joining

  /** The text up to the first line break, and after it. */
  lemma Cut(c: string) returns (first: string, rest: string)
    requires '\n' in c
    ensures c == first + "\n" + rest && '\n' !in first
  {
    var i := IndexOf(c, '\n');
    first, rest := c[..i], c[i + 1..];
  }

  lemma IndexOfAbsent(s: string, rest: string)
    requires '\n' !in s
    ensures IndexOf(s, '\n') == |s|
    ensures IndexOf(s + "\n" + rest, '\n') == |s|
  {
    var c := s + "\n" + rest;
    assert c[|s|] == '\n';
    assert forall j :: 0 <= j < |s| ==> c[j] == s[j];
    IndexAt(c, '\n', |s|);
  }

  lemma LinesCut(first: string, rest: string)
    requires '\n' !in first
    ensures Lines(first + "\n" + rest) == [StripCr(first)] + Lines(rest)
  {
    var c := first + "\n" + rest;
    IndexOfAbsent(first, rest);
    assert c[..|first|] == first && c[|first| + 1..] == rest;
  }

  lemma DropCrCut(first: string, rest: string)
    requires '\n' !in first
    ensures DropCr(first + "\n" + rest) == StripCr(first) + "\n" + DropCr(rest)
  {
    var c := first + "\n" + rest;
    IndexOfAbsent(first, rest);
    assert c[..|first|] == first && c[|first| + 1..] == rest;
  }

  lemma EndCut(first: string, rest: string)
    ensures EndsWithNewline(first + "\n" + rest) <==> rest == "" || EndsWithNewline(rest)
  {
    var c := first + "\n" + rest;
    assert c[|c| - 1] == if rest == "" then '\n' else rest[|rest| - 1];
  }

  lemma Uncut(c: string)
    requires '\n' !in c
    ensures SplitLines(c) == (if c == "" then [] else [c]) && DropCr(c) == c && !EndsWithNewline(c)
  {
    IndexOfAbsent(c, "");
  }

  lemma SplitCut(first: string, rest: string)
    requires '\n' !in first
    ensures SplitLines(first + "\n" + rest) == [StripCr(first)] + (if rest == "" then [""] else SplitLines(rest))
  {
    LinesCut(first, rest);
    EndCut(first, rest);
    ConsSnoc(StripCr(first), Lines(rest), "");
    assert Lines("") == [];
  }

  lemma ConsSnoc(a: string, s: seq<string>, b: string)
    ensures [a] + s + [b] == [a] + (s + [b])
    ensures s == [] ==> [a] + s + [b] == [a] + [b]
  {
  }

  lemma SplitNotEmpty(c: string)
    requires c != ""
    ensures SplitLines(c) != []
  {
  }

  lemma JoinCons(first: string, rest: seq<string>)
    requires rest != []
    ensures Join([first] + rest) == first + "\n" + Join(rest)
  {
    assert ([first] + rest)[1..] == rest;
  }

  lemma JoinSplitCut(first: string, rest: string)
    requires '\n' !in first
    ensures Join(SplitLines(first + "\n" + rest)) == StripCr(first) + "\n" + Join(SplitLines(rest))
  {
    SplitCut(first, rest);
    if rest == "" {
      JoinCons(StripCr(first), [""]);
    } else {
      SplitNotEmpty(rest);
      JoinCons(StripCr(first), SplitLines(rest));
    }
  }

  /** Splitting and joining only turns "\r\n" into "\n". */
  lemma {:induction false} JoinSplit(c: string)
    ensures Join(SplitLines(c)) == DropCr(c)
    decreases |c|
  {
    if '\n' in c {
      var first, rest := Cut(c);
      JoinSplitCut(first, rest);
      DropCrCut(first, rest);
      JoinSplit(rest);
    } else {
      Uncut(c);
    }
  }

  /** A "\r\n" is at the first line break or after it. */
  lemma CrLfCut(first: string, rest: string)
    requires '\n' !in first
    ensures HasCrLf(first + "\n" + rest) <==> StripCr(first) != first || HasCrLf(rest)
  {
    var c, i := first + "\n" + rest, |first|;
    if HasCrLf(c) {
      var k :| 0 <= k < |c| - 1 && c[k] == '\r' && c[k + 1] == '\n';
      if k < i {
        assert k + 1 == i && first[i - 1] == '\r';
      } else {
        var j := k - i - 1;
        assert rest[j] == '\r' && rest[j + 1] == '\n';
      }
    }
    if StripCr(first) != first { assert c[i - 1] == '\r' && c[i - 1 + 1] == '\n'; }
    if HasCrLf(rest) {
      var j :| 0 <= j < |rest| - 1 && rest[j] == '\r' && rest[j + 1] == '\n';
      var k := j + i + 1;
      assert c[k] == '\r' && c[k + 1] == '\n';
    }
  }

  lemma {:induction false} DropCrShortens(c: string)
    ensures |DropCr(c)| <= |c|
    ensures HasCrLf(c) ==> |DropCr(c)| < |c|
    ensures !HasCrLf(c) ==> DropCr(c) == c
    decreases |c|
  {
    if '\n' in c {
      var first, rest := Cut(c);
      CrLfCut(first, rest);
      DropCrCut(first, rest);
      DropCrShortens(rest);
    } else {
      Uncut(c);
    }
  }

  /** Text survives splitting and joining if and only if it has no "\r\n". */
  lemma JoinSplitIff(c: string)
    ensures Join(SplitLines(c)) == c <==> !HasCrLf(c)
  {
    JoinSplit(c);
    DropCrShortens(c);
  }

  // ----- lines that survive joining and splitting

  predicate CleanLine(s: string) { '\n' !in s && '\r' !in s }

  ghost predicate Clean(lines: seq<string>) { forall i :: 0 <= i < |lines| ==> CleanLine(lines[i]) }

  /** Joining and splitting gives clean lines back, the one blank line aside. */
  lemma {:induction false} SplitJoin(lines: seq<string>)
    requires Clean(lines) && lines != [""]
    ensures SplitLines(Join(lines)) == lines
  {
    if |lines| == 1 {
      Uncut(lines[0]);
      assert lines == [lines[0]];
    } else if |lines| > 1 {
      var first, rest := lines[0], lines[1..];
      SplitCut(first, Join(rest));
      assert StripCr(first) == first;
      if rest == [""] {
        assert Join(rest) == "";
      } else {
        SplitJoin(rest);
        JoinEmpty(rest);
      }
      assert lines == [first] + rest;
    }
  }

  lemma JoinEmpty(lines: seq<string>)
    requires lines != [] && lines != [""]
    ensures Join(lines) != ""
  {
    if |lines| == 1 { assert lines == [lines[0]]; }
  }

  /** Joined clean lines end in a line break when the last line is empty. */
  lemma {:induction false} JoinEnd(lines: seq<string>)
    requires Clean(lines)
    ensures EndsWithNewline(Join(lines)) <==> |lines| >= 2 && lines[|lines| - 1] == ""
  {
    if |lines| == 1 {
      assert lines[0] != "" ==> lines[0][|lines[0]| - 1] in lines[0];
    } else if |lines| > 1 {
      var rest := lines[1..];
      JoinEnd(rest);
      EndCut(lines[0], Join(rest));
      if Join(rest) == "" {
        if rest != [""] { JoinEmpty(rest); }
      } else if |rest| == 1 {
        assert rest != [""];
      }
    }
  }

  lemma {:induction false} SplitIsClean(c: string)
    requires '\r' !in c
    ensures Clean(SplitLines(c)) && SplitLines(c) != [""]
    ensures c != "" ==> SplitLines(c) != []
    decreases |c|
  {
    if '\n' in c {
      var first, rest := Cut(c);
      CleanParts(first, rest);
      SplitCut(first, rest);
      SplitIsClean(rest);
      CleanCons(first, if rest == "" then [""] else SplitLines(rest));
    } else {
      Uncut(c);
    }
  }

  lemma CleanParts(first: string, rest: string)
    requires '\r' !in first + "\n" + rest && '\n' !in first
    ensures CleanLine(first) && StripCr(first) == first && '\r' !in rest
  {
    var c := first + "\n" + rest;
    assert forall x :: x in first || x in rest ==> x in c;
  }

  lemma CleanCons(first: string, rest: seq<string>)
    requires CleanLine(first) && Clean(rest)
    ensures Clean([first] + rest)
    ensures rest != [] ==> [first] + rest != [""]
  {
    if rest != [] { assert |[first] + rest| > 1; }
  }

  lemma NoCrNoCrLf(c: string)
    requires '\r' !in c
    ensures !HasCrLf(c)
  {
  }

  // ----- a patch applied to the text

  /** `plan_dwaar_config_patch`: the new text of the file. */
  function PatchText(content: string, p: Patch): string
  {
    var joined := Join(Apply(SplitLines(content), p));
    if EndsWithNewline(content) && !EndsWithNewline(joined) then joined + "\n" else joined
  }

  /** Removing a block that is not there keeps the text if and only if the text
      has no "\r\n". */
  lemma RemoveAbsentKeepsTextIff(content: string, name: string)
    requires FindBlock(SplitLines(content), name).None?
    ensures PatchText(content, PatchRemove(name)) == content <==> !HasCrLf(content)
  {
    var joined := Join(SplitLines(content));
    JoinSplitIff(content);
    JoinSplit(content);
    DropCrShortens(content);
    DropCrEnd(content);
  }

  lemma {:induction false} DropCrEnd(c: string)
    ensures EndsWithNewline(DropCr(c)) <==> EndsWithNewline(c)
    ensures c != "" ==> DropCr(c) != ""
    decreases |c|
  {
    if '\n' in c {
      var first, rest := Cut(c);
      DropCrCut(first, rest);
      DropCrEnd(rest);
      EndCut(first, rest);
      EndCut(StripCr(first), DropCr(rest));
      Uncut("");
    } else {
      Uncut(c);
    }
  }

  lemma CleanUpsert(lines: seq<string>, name: string, value: string)
    requires Clean(lines) && CleanLine(name) && CleanLine(Trim(value))
    ensures Clean(Upsert(lines, name, value))
  {
    var after := Upsert(lines, name, value);
    assert CleanLine(NewLine(name, value));
    forall i | 0 <= i < |after|
      ensures CleanLine(after[i])
    {
      var slot := EditSlot(lines, name);
      SplicedAt(lines, slot.0, slot.1, [NewLine(name, value)], i);
    }
  }

  /** An insertion goes before a blank last line. */
  lemma InsertBeforeBlank(lines: seq<string>)
    requires Editable(lines)
    requires lines != [] && lines[|lines| - 1] == ""
    ensures InsertAt(lines) < |lines|
  {
    var o := OutlineOf(lines);
    if FindGlobal(o).Some? { GlobalShape(o); }
  }

  /** What an upsert that inserts does to the text. */
  lemma InsertText(content: string, name: string, value: string)
    requires '\r' !in content && Editable(SplitLines(content))
    requires Balanced(name, value) && CleanLine(name) && CleanLine(Trim(value))
    requires FindBlock(SplitLines(content), name).None?
    ensures var text := PatchText(content, PatchUpsert(name, value));
            && SplitLines(text) == Upsert(SplitLines(content), name, value)
            && (EndsWithNewline(text) <==> EndsWithNewline(content))
  {
    var lines := SplitLines(content);
    var after := Upsert(lines, name, value);
    SplitIsClean(content);
    CleanUpsert(lines, name, value);
    UpsertedLine(lines, name, value);
    assert after != [""];
    SplitJoin(after);
    JoinEnd(after);
    ContentEnd(content);
    var at, n := InsertAt(lines), |lines|;
    assert |after| == n + 1;
    if lines != [] && lines[n - 1] == "" { InsertBeforeBlank(lines); }
    SplicedAt(lines, at, at, [NewLine(name, value)], n);
  }

  lemma ContentEnd(content: string)
    requires '\r' !in content
    ensures EndsWithNewline(content) <==>
            SplitLines(content) != [] && SplitLines(content)[|SplitLines(content)| - 1] == ""
  {
    SplitIsClean(content);
    NoCrNoCrLf(content);
    JoinSplitIff(content);
    var lines := SplitLines(content);
    JoinEnd(lines);
    if |lines| == 1 { assert lines == [lines[0]]; }
  }

  /** For every CR-free text, removing the block that an upsert inserted gives
      the text back, byte for byte. */
  lemma TextRoundTrip(content: string, name: string, value: string)
    requires '\r' !in content && Editable(SplitLines(content))
    requires Balanced(name, value) && CleanLine(name) && CleanLine(Trim(value))
    requires FindBlock(SplitLines(content), name).None?
    ensures PatchText(PatchText(content, PatchUpsert(name, value)), PatchRemove(name)) == content
  {
    InsertText(content, name, value);
    RemoveUndoesInsert(SplitLines(content), name, value);
    NoCrNoCrLf(content);
    JoinSplitIff(content);
  }
}
