/** The string operations the configuration editor is written with. */
module Text {
  import opened Basics

  /** Unicode White_Space, as `str::trim` uses it. */
  predicate IsSpace(c: char)
  {
    var n := c as int;
    || 0x09 <= n <= 0x0D || n == 0x20 || n == 0x85 || n == 0xA0 || n == 0x1680
    || 0x2000 <= n <= 0x200A || n == 0x2028 || n == 0x2029 || n == 0x202F || n == 0x205F || n == 0x3000
  }

  function TrimStart(s: string): string
  {
    if s != "" && IsSpace(s[0]) then TrimStart(s[1..]) else s
  }

  function TrimEnd(s: string): string
  {
    if s != "" && IsSpace(s[|s| - 1]) then TrimEnd(s[..|s| - 1]) else s
  }

  function Trim(s: string): string { TrimEnd(TrimStart(s)) }

  predicate Trimmed(s: string) { s == "" || (!IsSpace(s[0]) && !IsSpace(s[|s| - 1])) }

  function LowerChar(c: char): char
  {
    if 'A' <= c <= 'Z' then (c as int + 32) as char else c
  }

  function Lower(s: string): (r: string)
    ensures |r| == |s|
    ensures forall i :: 0 <= i < |s| ==> r[i] == LowerChar(s[i])
  {
    seq(|s|, i requires 0 <= i < |s| => LowerChar(s[i]))
  }

  function IndexFrom(s: string, c: char, from: nat): (i: nat)
    requires from <= |s|
    ensures from <= i <= |s|
    ensures forall j :: from <= j < i ==> s[j] != c
    ensures i < |s| ==> s[i] == c
    decreases |s| - from
  {
    if from == |s| || s[from] == c then from else IndexFrom(s, c, from + 1)
  }

  /** Where `c` first occurs; the length when it does not. */
  function IndexOf(s: string, c: char): nat { IndexFrom(s, c, 0) }

  function AfterLastUpTo(s: string, c: char, to: nat): (i: nat)
    requires to <= |s|
    ensures i <= to
    ensures forall j :: i <= j < to ==> s[j] != c
    ensures i > 0 ==> s[i - 1] == c
  {
    if to == 0 || s[to - 1] == c then to else AfterLastUpTo(s, c, to - 1)
  }

  /** One past where `c` last occurs; 0 when it does not. */
  function AfterLast(s: string, c: char): nat { AfterLastUpTo(s, c, |s|) }

  function Count(s: string, c: char): nat
  {
    if s == "" then 0 else (if s[0] == c then 1 else 0) + Count(s[1..], c)
  }

  function Join(lines: seq<string>): string
  {
    if lines == [] then ""
    else if |lines| == 1 then lines[0]
    else lines[0] + "\n" + Join(lines[1..])
  }

  lemma {:induction false} CountConcat(a: string, b: string, c: char)
    ensures Count(a + b, c) == Count(a, c) + Count(b, c)
  {
    if a == "" {
      assert a + b == b;
    } else {
      assert (a + b)[1..] == a[1..] + b;
      CountConcat(a[1..], b, c);
    }
  }

  lemma {:induction false} CountZero(s: string, c: char)
    ensures Count(s, c) == 0 <==> c !in s
  {
    if s != "" {
      CountZero(s[1..], c);
      assert s == [s[0]] + s[1..];
    }
  }

  lemma {:induction false} TrimStartNotSpace(s: string)
    ensures TrimStart(s) == "" || !IsSpace(TrimStart(s)[0])
  {
    if s != "" && IsSpace(s[0]) { TrimStartNotSpace(s[1..]); }
  }

  lemma {:induction false} TrimEndKeepsStart(s: string)
    requires s == "" || !IsSpace(s[0])
    ensures Trimmed(TrimEnd(s))
    ensures TrimEnd(s) != "" ==> TrimEnd(s)[0] == s[0]
  {
    if s != "" && IsSpace(s[|s| - 1]) { TrimEndKeepsStart(s[..|s| - 1]); }
  }

  lemma TrimIsTrimmed(s: string)
    ensures Trimmed(Trim(s))
  {
    TrimStartNotSpace(s);
    TrimEndKeepsStart(TrimStart(s));
  }

  lemma {:induction false} TrimOfTrimmed(s: string)
    requires Trimmed(s)
    ensures Trim(s) == s
  {
  }

  /** Trimming removes one space put on either side of trimmed text. */
  lemma TrimPadded(s: string)
    requires Trimmed(s)
    ensures Trim(" " + s + " ") == s
    ensures Trim(s + " ") == s
  {
    var padded := " " + s + " ";
    assert padded[1..] == s + " ";
    assert (s + " ")[..|s|] == s;
    assert TrimStart(padded) == TrimStart(s + " ");
    if s == "" {
      assert (s + " ")[1..] == "";
      assert TrimStart(s + " ") == TrimStart("") == "";
    } else {
      assert TrimStart(s + " ") == s + " ";
      assert TrimEnd(s + " ") == TrimEnd(s) == s;
    }
  }

  /** A line that trims to nothing holds white space only. */
  lemma {:induction false} BlankIsSpace(s: string, c: char)
    requires Trim(s) == "" && c in s
    ensures IsSpace(c)
  {
    if IsSpace(s[0]) {
      if c != s[0] {
        assert s == [s[0]] + s[1..];
        BlankIsSpace(s[1..], c);
      }
    } else {
      TrimEndKeepsNonSpace(s);
    }
  }

  lemma {:induction false} TrimEndKeepsNonSpace(s: string)
    requires s != "" && !IsSpace(s[0])
    ensures TrimEnd(s) != ""
  {
    if IsSpace(s[|s| - 1]) { TrimEndKeepsNonSpace(s[..|s| - 1]); }
  }

  // ----- blanks around text

  ghost predicate AllSpace(s: string) { forall i :: 0 <= i < |s| ==> IsSpace(s[i]) }

  lemma {:induction false} TrimStartBlank(l: string, s: string)
    requires AllSpace(l)
    ensures TrimStart(l + s) == TrimStart(s)
  {
    if l == "" {
      assert l + s == s;
    } else {
      assert (l + s)[1..] == l[1..] + s;
      TrimStartBlank(l[1..], s);
    }
  }

  lemma {:induction false} TrimEndBlank(s: string, r: string)
    requires AllSpace(r)
    ensures TrimEnd(s + r) == TrimEnd(s)
    decreases |r|
  {
    if r == "" {
      assert s + r == s;
    } else {
      var n := |r| - 1;
      assert (s + r)[..|s + r| - 1] == s + r[..n];
      TrimEndBlank(s, r[..n]);
    }
  }

  /** Trimming drops blanks on both sides of trimmed text, and nothing else. */
  lemma TrimBlank(l: string, s: string, r: string)
    requires AllSpace(l) && AllSpace(r) && Trimmed(s)
    ensures Trim(l + s + r) == s
  {
    assert l + s + r == l + (s + r);
    TrimStartBlank(l, s + r);
    if s == "" {
      assert s + r == r + "";
      TrimStartBlank(r, "");
    } else {
      TrimEndBlank(s, r);
      TrimOfTrimmed(s);
    }
  }

  lemma {:induction false} TrimStartSplit(s: string) returns (l: string)
    ensures AllSpace(l) && s == l + TrimStart(s)
  {
    if s != "" && IsSpace(s[0]) {
      var rest := TrimStartSplit(s[1..]);
      l := [s[0]] + rest;
    } else {
      l := "";
    }
  }

  lemma {:induction false} TrimEndSplit(s: string) returns (r: string)
    ensures AllSpace(r) && s == TrimEnd(s) + r
  {
    if s != "" && IsSpace(s[|s| - 1]) {
      var rest := TrimEndSplit(s[..|s| - 1]);
      r := rest + [s[|s| - 1]];
    } else {
      r := "";
    }
  }

  /** Text is what trimming leaves of it, between blanks. */
  lemma TrimSplit(s: string) returns (l: string, r: string)
    ensures AllSpace(l) && AllSpace(r) && s == l + Trim(s) + r
  {
    l := TrimStartSplit(s);
    r := TrimEndSplit(TrimStart(s));
    assert l + (Trim(s) + r) == l + Trim(s) + r;
  }
}
