/** The outline of a brace-structured file: per line, how far it moves the brace
    depth and the name before its first brace. Block search and the effect of
    replacing a balanced stretch of lines depend on nothing else. */
module ConfigOutline {
  import opened Basics

  datatype Mark = Mark(net: int, head: Option<string>)

  type Outline = seq<Mark>

  // ----- depth

  function NetSum(o: Outline): int
  {
    if o == [] then 0 else o[0].net + NetSum(o[1..])
  }

  /** Brace depth before line `i`. */
  function Depth(o: Outline, i: nat): int
    requires i <= |o|
  {
    NetSum(o[..i])
  }

  lemma {:induction false} NetSumConcat(a: Outline, b: Outline)
    ensures NetSum(a + b) == NetSum(a) + NetSum(b)
  {
    if a == [] {
      assert a + b == b;
    } else {
      assert (a + b)[1..] == a[1..] + b;
      NetSumConcat(a[1..], b);
    }
  }

  lemma {:induction false} DepthStep(o: Outline, i: nat)
    requires i < |o|
    ensures Depth(o, i + 1) == Depth(o, i) + o[i].net
  {
    assert o[..i + 1] == o[..i] + [o[i]];
    NetSumConcat(o[..i], [o[i]]);
    assert NetSum([o[i]]) == o[i].net + NetSum([]);
  }

  // ----- searching

  /** Line `j` opens an anonymous block at top level. */
  predicate GlobalOpen(o: Outline, j: nat)
    requires j < |o|
  {
    Depth(o, j) == 0 && o[j].head == Some("")
  }

  function FirstGlobal(o: Outline, i: nat): (j: nat)
    requires i <= |o|
    ensures i <= j <= |o|
    ensures forall k :: i <= k < j ==> !GlobalOpen(o, k)
    ensures j < |o| ==> GlobalOpen(o, j)
    decreases |o| - i
  {
    if i == |o| || GlobalOpen(o, i) then i else FirstGlobal(o, i + 1)
  }

  /** The first line at or after `i` that brings the depth to `c`. */
  function FirstReturn(o: Outline, i: nat, c: int): (j: nat)
    requires i <= |o|
    ensures i <= j <= |o|
    ensures forall k :: i < k <= j ==> Depth(o, k) != c
    ensures j < |o| ==> Depth(o, j + 1) == c
    decreases |o| - i
  {
    if i == |o| || Depth(o, i + 1) == c then i else FirstReturn(o, i + 1, c)
  }

  function FindGlobal(o: Outline): Option<(nat, nat)>
  {
    var s := FirstGlobal(o, 0);
    if s == |o| then None
    else
      var e := FirstReturn(o, s, 0);
      if e == |o| then None else Some((s, e))
  }

  /** Where blocks are looked for: their depth and their range of lines. */
  datatype Region = Region(depth: int, lo: nat, hi: nat)

  function RegionOf(o: Outline): Region
  {
    match FindGlobal(o)
    case Some(g) => Region(1, g.0 + 1, g.1)
    case None => Region(0, 0, |o|)
  }

  /** Line `j` opens a block called `name` in the region. */
  predicate OccursIn(o: Outline, name: string, r: Region, j: nat)
    requires j < |o|
  {
    r.lo <= j < r.hi && Depth(o, j) == r.depth && o[j].head == Some(name)
  }

  function FirstNamed(o: Outline, name: string, r: Region, i: nat): (j: nat)
    requires i <= |o|
    ensures i <= j <= |o|
    ensures forall k :: i <= k < j ==> !OccursIn(o, name, r, k)
    ensures j < |o| ==> OccursIn(o, name, r, j)
    decreases |o| - i
  {
    if i == |o| || OccursIn(o, name, r, i) then i else FirstNamed(o, name, r, i + 1)
  }

  function FindIn(o: Outline, name: string, r: Region): Option<(nat, nat)>
  {
    var s := FirstNamed(o, name, r, 0);
    if s == |o| then None
    else
      var e := FirstReturn(o, s, r.depth);
      if e == |o| then None else Some((s, e))
  }

  function Find(o: Outline, name: string): Option<(nat, nat)> { FindIn(o, name, RegionOf(o)) }

  /** Line `s` is the first to open a block called `name`. */
  ghost predicate OpensFirst(o: Outline, name: string, r: Region, s: nat)
  {
    && s < |o|
    && OccursIn(o, name, r, s)
    && (forall j :: 0 <= j < s ==> !OccursIn(o, name, r, j))
  }

  /** A block opened at line `s` ends at line `e`. */
  ghost predicate EndsAt(o: Outline, r: Region, s: nat, e: nat)
  {
    && s <= e < |o|
    && Depth(o, e + 1) == r.depth
    && (forall k :: s < k <= e ==> Depth(o, k) != r.depth)
  }

  /** The search finds the first opening line and the first return after it. */
  lemma FindInIs(o: Outline, name: string, r: Region, s: nat, e: nat)
    requires OpensFirst(o, name, r, s) && EndsAt(o, r, s, e)
    ensures FindIn(o, name, r) == Some((s, e))
  {
    assert FirstNamed(o, name, r, 0) == s;
    assert FirstReturn(o, s, r.depth) == e;
  }

  lemma FoundIn(o: Outline, name: string, r: Region)
    requires FindIn(o, name, r).Some?
    ensures var f := FindIn(o, name, r).value;
            OpensFirst(o, name, r, f.0) && EndsAt(o, r, f.0, f.1)
  {
  }

  lemma FindInNone(o: Outline, name: string, r: Region)
    requires forall j :: 0 <= j < |o| ==> !OccursIn(o, name, r, j)
    ensures FindIn(o, name, r) == None
  {
  }

  /** A block found on one line leaves the depth as it was. */
  lemma OneLineBlockNet(o: Outline, name: string, a: nat)
    requires Find(o, name) == Some((a, a))
    ensures a < |o| && o[a].net == 0
  {
    FoundIn(o, name, RegionOf(o));
    DepthStep(o, a);
  }

  // ----- well-formed files

  /** Each line moves the depth by at most one, the depth never goes negative
      and the file ends at depth 0. */
  ghost predicate WellFormed(o: Outline)
  {
    && (forall i :: 0 <= i <= |o| ==> Depth(o, i) >= 0)
    && Depth(o, |o|) == 0
    && (forall i :: 0 <= i < |o| ==> -1 <= o[i].net <= 1)
  }

  /** The global block opens and closes on one line. */
  predicate OneLineGlobal(o: Outline)
  {
    match FindGlobal(o)
    case Some(g) => g.0 == g.1
    case None => false
  }

  lemma GlobalShape(o: Outline)
    requires WellFormed(o)
    requires FindGlobal(o).Some?
    ensures var g := FindGlobal(o).value;
            && g.0 <= g.1 < |o|
            && (forall k :: g.0 < k <= g.1 ==> Depth(o, k) >= 1)
            && (g.0 < g.1 ==> Depth(o, g.1) == 1)
  {
    var g := FindGlobal(o).value;
    DepthStep(o, g.1);
  }

  lemma NoGlobal(o: Outline)
    requires WellFormed(o)
    requires FindGlobal(o).None?
    ensures forall j :: 0 <= j < |o| ==> !GlobalOpen(o, j)
  {
    var s := FirstGlobal(o, 0);
    var e := FirstReturn(o, s, 0);
    assert s < |o| ==> e < |o|;
  }

  /** In a well-formed file every opening line of a block has its end. */
  lemma NotFoundNowhere(o: Outline, name: string)
    requires WellFormed(o)
    requires Find(o, name).None?
    ensures forall j :: 0 <= j < |o| ==> !OccursIn(o, name, RegionOf(o), j)
  {
    var r := RegionOf(o);
    var s := FirstNamed(o, name, r, 0);
    if FindGlobal(o).Some? {
      GlobalShape(o);
    }
    var e := FirstReturn(o, s, r.depth);
    assert s < |o| ==> e < |o|;
  }

  // ----- replacing a stretch of lines

  function Splice<T>(s: seq<T>, a: nat, b: nat, mid: seq<T>): seq<T>
    requires a <= b <= |s|
  {
    s[..a] + mid + s[b..]
  }

  /** Lines `a` to `b - 1` are nothing or one whole block of the region. */
  ghost predicate Slot(o: Outline, r: Region, a: nat, b: nat)
  {
    && r.lo <= a <= b <= r.hi && b <= |o|
    && Depth(o, a) == r.depth && Depth(o, b) == r.depth
    && (forall k :: a < k < b ==> Depth(o, k) > r.depth)
  }

  /** Lines that can fill a slot: nothing, or one line that opens and closes a
      block with a name. */
  predicate Filler(mid: Outline)
  {
    mid == [] || (|mid| == 1 && mid[0].net == 0 && mid[0].head != Some(""))
  }

  /** The line of the original that line `j` after a splice comes from. */
  function Origin(a: nat, b: nat, m: nat, j: nat): nat
    requires a <= b && (j < a || a + m <= j)
  {
    if j < a then j else j - a - m + b
  }

  /** Where a line outside the slot goes. */
  function Moved(a: nat, b: nat, m: nat, i: nat): nat
    requires a <= b && (i < a || b <= i)
  {
    if i < a then i else i - b + a + m
  }

  /** A block found in a well-formed file is a slot. */
  lemma FoundIsSlot(o: Outline, name: string)
    requires WellFormed(o)
    requires Find(o, name).Some?
    ensures var f := Find(o, name).value;
            && OpensFirst(o, name, RegionOf(o), f.0)
            && EndsAt(o, RegionOf(o), f.0, f.1)
            && Slot(o, RegionOf(o), f.0, f.1 + 1)
  {
    var r := RegionOf(o);
    var f := Find(o, name).value;
    FoundIn(o, name, r);
    if FindGlobal(o).Some? {
      GlobalShape(o);
      assert f.1 < r.hi;
    }
  }

  lemma SplicedAt<T>(s: seq<T>, a: nat, b: nat, mid: seq<T>, j: nat)
    requires a <= b <= |s|
    requires j < |s| - (b - a) + |mid|
    ensures Splice(s, a, b, mid)[j] ==
            if a <= j < a + |mid| then mid[j - a] else s[Origin(a, b, |mid|, j)]
  {
  }

  lemma {:induction false} DepthBefore(o: Outline, a: nat, b: nat, mid: Outline, k: nat)
    requires k <= a <= b <= |o|
    ensures Depth(Splice(o, a, b, mid), k) == Depth(o, k)
  {
    assert Splice(o, a, b, mid)[..k] == o[..k];
  }

  lemma {:induction false} DepthAfter(o: Outline, a: nat, b: nat, mid: Outline, k: nat)
    requires a <= b <= |o|
    requires a + |mid| <= k <= |o| - (b - a) + |mid|
    requires Depth(o, a) == Depth(o, b)
    requires Filler(mid)
    ensures Depth(Splice(o, a, b, mid), k) == Depth(o, k - a - |mid| + b)
  {
    var i := k - a - |mid| + b;
    var tail := o[b..i];
    assert Splice(o, a, b, mid)[..k] == o[..a] + mid + tail;
    NetSumConcat(o[..a] + mid, tail);
    NetSumConcat(o[..a], mid);
    assert mid != [] ==> NetSum(mid) == mid[0].net + NetSum(mid[1..]);
    assert o[..i] == o[..b] + tail;
    NetSumConcat(o[..b], tail);
  }

  /** The depth before any line after a splice; between the end of the new line
      and its start there is nothing to describe. */
  lemma {:induction false} DepthAt(o: Outline, r: Region, a: nat, b: nat, mid: Outline, k: nat)
    requires Slot(o, r, a, b) && Filler(mid)
    requires k <= |o| - (b - a) + |mid|
    ensures Depth(Splice(o, a, b, mid), k) ==
            if k <= a then Depth(o, k) else Depth(o, k - a - |mid| + b)
  {
    if k <= a { DepthBefore(o, a, b, mid, k); } else { DepthAfter(o, a, b, mid, k); }
  }

  /** A splice keeps a file well-formed. */
  lemma {:induction false} SpliceWellFormed(o: Outline, a: nat, b: nat, mid: Outline)
    requires WellFormed(o) && Slot(o, RegionOf(o), a, b) && Filler(mid)
    ensures WellFormed(Splice(o, a, b, mid))
  {
    var after, r := Splice(o, a, b, mid), RegionOf(o);
    forall i | 0 <= i <= |after|
      ensures Depth(after, i) >= 0
    {
      DepthAt(o, r, a, b, mid, i);
    }
    DepthAt(o, r, a, b, mid, |after|);
    forall i | 0 <= i < |after|
      ensures -1 <= after[i].net <= 1
    {
      SplicedAt(o, a, b, mid, i);
    }
  }

  lemma {:induction false} GlobalOpenAt(o: Outline, r: Region, a: nat, b: nat, mid: Outline, j: nat)
    requires Slot(o, r, a, b) && Filler(mid)
    requires j < |o| - (b - a) + |mid|
    ensures GlobalOpen(Splice(o, a, b, mid), j) <==>
            !(a <= j < a + |mid|) && GlobalOpen(o, Origin(a, b, |mid|, j))
  {
    DepthAt(o, r, a, b, mid, j);
    SplicedAt(o, a, b, mid, j);
  }

  lemma {:induction false} SpliceNoGlobal(o: Outline, a: nat, b: nat, mid: Outline)
    requires WellFormed(o) && Slot(o, RegionOf(o), a, b) && Filler(mid)
    requires FindGlobal(o).None?
    ensures FindGlobal(Splice(o, a, b, mid)).None?
  {
    NoGlobal(o);
    var after := Splice(o, a, b, mid);
    forall j | 0 <= j < |after|
      ensures !GlobalOpen(after, j)
    {
      GlobalOpenAt(o, RegionOf(o), a, b, mid, j);
    }
  }

  lemma FindGlobalIs(o: Outline, s: nat, e: nat)
    requires s <= e < |o|
    requires GlobalOpen(o, s) && forall j :: 0 <= j < s ==> !GlobalOpen(o, j)
    requires Depth(o, e + 1) == 0 && forall k :: s < k <= e ==> Depth(o, k) != 0
    ensures FindGlobal(o) == Some((s, e))
  {
    assert FirstGlobal(o, 0) == s;
    assert FirstReturn(o, s, 0) == e;
  }

  lemma {:induction false} SpliceGlobal(o: Outline, a: nat, b: nat, mid: Outline)
    requires WellFormed(o) && Slot(o, RegionOf(o), a, b) && Filler(mid)
    requires FindGlobal(o).Some?
    ensures var g := FindGlobal(o).value;
            FindGlobal(Splice(o, a, b, mid)) == Some((g.0, g.1 - (b - a) + |mid|))
  {
    GlobalShape(o);
    var after, r, g := Splice(o, a, b, mid), RegionOf(o), FindGlobal(o).value;
    var e := g.1 - (b - a) + |mid|;
    forall j | 0 <= j <= g.0
      ensures GlobalOpen(after, j) <==> j == g.0
    {
      GlobalOpenAt(o, r, a, b, mid, j);
    }
    DepthAt(o, r, a, b, mid, e + 1);
    forall k | g.0 < k <= e
      ensures Depth(after, k) != 0
    {
      DepthAt(o, r, a, b, mid, k);
    }
    FindGlobalIs(after, g.0, e);
  }

  /** The editor works at the same depth and place after a splice. */
  lemma {:induction false} SpliceRegion(o: Outline, a: nat, b: nat, mid: Outline)
    requires WellFormed(o) && Slot(o, RegionOf(o), a, b) && Filler(mid)
    ensures var r := RegionOf(o);
            RegionOf(Splice(o, a, b, mid)) == Region(r.depth, r.lo, r.hi - (b - a) + |mid|)
  {
    if FindGlobal(o).None? {
      SpliceNoGlobal(o, a, b, mid);
    } else {
      SpliceGlobal(o, a, b, mid);
    }
  }

  lemma {:induction false} SpliceKeepsGlobalOpen(o: Outline, a: nat, b: nat, mid: Outline)
    requires WellFormed(o) && Slot(o, RegionOf(o), a, b) && Filler(mid)
    ensures !OneLineGlobal(Splice(o, a, b, mid))
  {
    if FindGlobal(o).None? {
      SpliceNoGlobal(o, a, b, mid);
    } else {
      SpliceGlobal(o, a, b, mid);
    }
  }

  // ----- blocks after a splice

  /** Of the spliced lines only the new one can open a new block; the others
      open the blocks they opened before. */
  lemma {:induction false} OccursAfter(o: Outline, a: nat, b: nat, mid: Outline, name: string, j: nat)
    requires WellFormed(o) && Slot(o, RegionOf(o), a, b) && Filler(mid)
    requires j < |o| - (b - a) + |mid|
    ensures var after := Splice(o, a, b, mid);
            OccursIn(after, name, RegionOf(after), j) <==>
            if a <= j < a + |mid| then mid[0].head == Some(name)
            else OccursIn(o, name, RegionOf(o), Origin(a, b, |mid|, j))
  {
    SpliceRegion(o, a, b, mid);
    DepthAt(o, RegionOf(o), a, b, mid, j);
    SplicedAt(o, a, b, mid, j);
  }

  /** In a slot only the first line can open a block. */
  lemma SlotOccurs(o: Outline, r: Region, a: nat, b: nat, name: string, j: nat)
    requires Slot(o, r, a, b)
    requires a <= j < b
    requires OccursIn(o, name, r, j)
    ensures j == a && o[a].head == Some(name)
  {
  }

  /** After a splice the block just written is the one found. */
  lemma {:induction false} FindSpliced(o: Outline, a: nat, b: nat, mark: Mark, name: string)
    requires WellFormed(o) && Slot(o, RegionOf(o), a, b) && Filler([mark])
    requires mark.head == Some(name)
    requires forall j :: 0 <= j < a ==> !OccursIn(o, name, RegionOf(o), j)
    ensures Find(Splice(o, a, b, [mark]), name) == Some((a, a))
  {
    var after := Splice(o, a, b, [mark]);
    var r := RegionOf(after);
    SpliceRegion(o, a, b, [mark]);
    OccursAfter(o, a, b, [mark], name, a);
    forall j | 0 <= j < a
      ensures !OccursIn(after, name, r, j)
    {
      OccursAfter(o, a, b, [mark], name, j);
    }
    DepthAt(o, RegionOf(o), a, b, [mark], a + 1);
    FindInIs(after, name, r, a, a);
  }

  /** Neither the old nor the new lines of a splice open a block called `name`. */
  ghost predicate Unrelated(o: Outline, a: nat, b: nat, mid: Outline, name: string)
    requires b <= |o|
  {
    && (a < b ==> o[a].head != Some(name))
    && (mid != [] ==> mid[0].head != Some(name))
  }

  /** A block lies on one side of a slot that is not its own. */
  lemma BlockBeside(o: Outline, a: nat, b: nat, mid: Outline, name: string)
    requires WellFormed(o) && Slot(o, RegionOf(o), a, b)
    requires Unrelated(o, a, b, mid, name)
    requires Find(o, name).Some?
    ensures var f := Find(o, name).value;
            f.0 <= f.1 < |o| && (f.1 < a || b <= f.0)
  {
    FoundIsSlot(o, name);
    var f := Find(o, name).value;
    if a <= f.0 < b { SlotOccurs(o, RegionOf(o), a, b, name, f.0); }
  }

  lemma EndMoves(o: Outline, a: nat, b: nat, mid: Outline, s: nat, e: nat)
    requires WellFormed(o) && Slot(o, RegionOf(o), a, b) && Filler(mid)
    requires EndsAt(o, RegionOf(o), s, e) && (e < a || b <= s)
    ensures var after := Splice(o, a, b, mid);
            EndsAt(after, RegionOf(after), Moved(a, b, |mid|, s), Moved(a, b, |mid|, e))
  {
    SpliceRegion(o, a, b, mid);
    var r, after := RegionOf(o), Splice(o, a, b, mid);
    var s', e' := Moved(a, b, |mid|, s), Moved(a, b, |mid|, e);
    DepthAt(o, r, a, b, mid, e' + 1);
    forall k | s' < k <= e'
      ensures Depth(after, k) != r.depth
    {
      DepthAt(o, r, a, b, mid, k);
    }
  }

  lemma FirstMoves(o: Outline, a: nat, b: nat, mid: Outline, name: string, s: nat)
    requires WellFormed(o) && Slot(o, RegionOf(o), a, b) && Filler(mid)
    requires Unrelated(o, a, b, mid, name)
    requires OpensFirst(o, name, RegionOf(o), s) && (s < a || b <= s)
    ensures var after := Splice(o, a, b, mid);
            OpensFirst(after, name, RegionOf(after), Moved(a, b, |mid|, s))
  {
    var after, s' := Splice(o, a, b, mid), Moved(a, b, |mid|, s);
    OccursAfter(o, a, b, mid, name, s');
    forall j | 0 <= j < s'
      ensures !OccursIn(after, name, RegionOf(after), j)
    {
      OccursAfter(o, a, b, mid, name, j);
    }
  }

  /** A block that is not edited is found again, where its lines went; one that
      was not there is still not there. */
  lemma {:induction false} FindUnrelated(o: Outline, a: nat, b: nat, mid: Outline, name: string)
    requires WellFormed(o) && Slot(o, RegionOf(o), a, b) && Filler(mid)
    requires Unrelated(o, a, b, mid, name)
    ensures match Find(o, name)
            case Some(f) =>
              && f.0 <= f.1 < |o| && (f.1 < a || b <= f.0)
              && Find(Splice(o, a, b, mid), name) == Some((Moved(a, b, |mid|, f.0), Moved(a, b, |mid|, f.1)))
            case None => Find(Splice(o, a, b, mid), name) == None
  {
    var after := Splice(o, a, b, mid);
    if Find(o, name).Some? {
      var f := Find(o, name).value;
      FoundIsSlot(o, name);
      BlockBeside(o, a, b, mid, name);
      FirstMoves(o, a, b, mid, name, f.0);
      EndMoves(o, a, b, mid, f.0, f.1);
      FindInIs(after, name, RegionOf(after), Moved(a, b, |mid|, f.0), Moved(a, b, |mid|, f.1));
    } else {
      NotFoundNowhere(o, name);
      forall j | 0 <= j < |after|
        ensures !OccursIn(after, name, RegionOf(after), j)
      {
        OccursAfter(o, a, b, mid, name, j);
      }
      FindInNone(after, name, RegionOf(after));
    }
  }

  /** The outline without the first block called `name`. */
  function Removed(o: Outline, name: string): Outline
  {
    match Find(o, name)
    case Some(f) => Splice(o, f.0, f.1 + 1, [])
    case None => o
  }

  /** Cutting out a block keeps the file well-formed. */
  lemma {:induction false} RemovedIsWellFormed(o: Outline, name: string)
    requires WellFormed(o)
    ensures WellFormed(Removed(o, name))
    ensures !OneLineGlobal(o) ==> !OneLineGlobal(Removed(o, name))
  {
    if Find(o, name).Some? {
      var f := Find(o, name).value;
      FoundIsSlot(o, name);
      SpliceWellFormed(o, f.0, f.1 + 1, []);
      SpliceKeepsGlobalOpen(o, f.0, f.1 + 1, []);
    }
  }

  // ----- names that occur once

  /** No line but the first to open a block of that name opens another. */
  ghost predicate Once(o: Outline, name: string)
  {
    OnlyAt(o, name, RegionOf(o), FirstNamed(o, name, RegionOf(o), 0))
  }

  ghost predicate OnlyAt(o: Outline, name: string, r: Region, s: nat)
  {
    forall j :: 0 <= j < |o| && OccursIn(o, name, r, j) ==> j == s
  }

  lemma AbsentIsOnce(o: Outline, name: string)
    requires WellFormed(o) && Find(o, name).None?
    ensures Once(o, name)
  {
    NotFoundNowhere(o, name);
  }

  lemma {:induction false} SpliceKeepsOnce(o: Outline, a: nat, b: nat, mid: Outline, name: string)
    requires WellFormed(o) && Slot(o, RegionOf(o), a, b) && Filler(mid)
    requires Once(o, name)
    requires mid != [] && mid[0].head == Some(name) ==>
               forall j :: 0 <= j < |o| && OccursIn(o, name, RegionOf(o), j) ==> a <= j < b
    ensures Once(Splice(o, a, b, mid), name)
  {
    var after := Splice(o, a, b, mid);
    var r := RegionOf(after);
    var s := FirstNamed(after, name, r, 0);
    forall j | 0 <= j < |after| && OccursIn(after, name, r, j)
      ensures j == s
    {
      OccursAfter(o, a, b, mid, name, j);
      OccursAfter(o, a, b, mid, name, s);
    }
  }

  lemma {:induction false} RemovedKeepsOnce(o: Outline, n: string, name: string)
    requires WellFormed(o) && Once(o, name)
    ensures Once(Removed(o, n), name)
  {
    match Find(o, n)
    case None =>
    case Some(f) =>
      FoundIsSlot(o, n);
      SpliceKeepsOnce(o, f.0, f.1 + 1, [], name);
  }

  /** A second block of the name is still there after the first is cut out. */
  lemma {:induction false} SecondStays(o: Outline, name: string, a: nat, b: nat, j: nat)
    requires WellFormed(o) && Slot(o, RegionOf(o), a, b)
    requires OpensFirst(o, name, RegionOf(o), a)
    requires a != j < |o| && OccursIn(o, name, RegionOf(o), j)
    ensures Find(Splice(o, a, b, []), name).Some?
  {
    if a <= j < b { SlotOccurs(o, RegionOf(o), a, b, name, j); }
    SpliceWellFormed(o, a, b, []);
    var after := Splice(o, a, b, []);
    OccursAfter(o, a, b, [], name, Moved(a, b, 0, j));
    if Find(after, name).None? { NotFoundNowhere(after, name); }
  }

  /** What is still there after the first is cut out is a second block. */
  lemma {:induction false} LeftIsSecond(o: Outline, name: string, a: nat, b: nat) returns (j: nat)
    requires WellFormed(o) && Slot(o, RegionOf(o), a, b) && a < b
    requires OpensFirst(o, name, RegionOf(o), a)
    requires Find(Splice(o, a, b, []), name).Some?
    ensures a != j < |o| && OccursIn(o, name, RegionOf(o), j)
  {
    SpliceWellFormed(o, a, b, []);
    var after := Splice(o, a, b, []);
    FoundIsSlot(after, name);
    var s := Find(after, name).value.0;
    OccursAfter(o, a, b, [], name, s);
    j := Origin(a, b, 0, s);
  }

  lemma {:induction false} OnceIffCut(o: Outline, name: string, a: nat, b: nat)
    requires WellFormed(o) && Slot(o, RegionOf(o), a, b) && a < b
    requires OpensFirst(o, name, RegionOf(o), a)
    ensures Find(Splice(o, a, b, []), name).None? <==> OnlyAt(o, name, RegionOf(o), a)
  {
    if Find(Splice(o, a, b, []), name).Some? {
      var j := LeftIsSecond(o, name, a, b);
    } else {
      forall j | 0 <= j < |o| && OccursIn(o, name, RegionOf(o), j)
        ensures j == a
      {
        if j != a { SecondStays(o, name, a, b, j); }
      }
    }
  }

  /** Cutting out the first block of a name leaves none exactly when it was the
      only one. */
  lemma {:induction false} OnceIffRemoved(o: Outline, name: string)
    requires WellFormed(o)
    ensures Find(Removed(o, name), name).None? <==> Once(o, name)
  {
    if Find(o, name).None? {
      AbsentIsOnce(o, name);
    } else {
      FoundIsSlot(o, name);
      var f := Find(o, name).value;
      OnceIffCut(o, name, f.0, f.1 + 1);
      FirstIsOnly(o, name, f.0);
    }
  }

  lemma FirstIsOnly(o: Outline, name: string, a: nat)
    requires OpensFirst(o, name, RegionOf(o), a)
    ensures Once(o, name) <==> OnlyAt(o, name, RegionOf(o), a)
  {
    assert FirstNamed(o, name, RegionOf(o), 0) == a;
  }
}
