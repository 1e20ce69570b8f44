/** The `if:` conditions of CI steps. */
module CiConditions {
  import opened Basics
  import opened Text

  function StripPrefix(s: string, p: string): Option<string>
  {
    if p <= s then Some(s[|p|..]) else None
  }

  function StripSuffix(s: string, p: string): Option<string>
  {
    if |p| <= |s| && s[|s| - |p|..] == p then Some(s[..|s| - |p|]) else None
  }

  const KEYWORDS: seq<string> := ["true", "false", "success()", "failure()", "always()", "cancelled()"]

  const REF_PREFIX: string := "startsWith(github.ref,"

  function NormalizeAtom(expr: string): string
  {
    if Lower(expr) in KEYWORDS then Lower(expr) else expr
  }

  /** An expression without outer blanks and without its `${{ }}`. */
  function Atom(expr: string): string
  {
    var trimmed := Trim(expr);
    match StripPrefix(trimmed, "${{")
    case None => trimmed
    case Some(rest) =>
      match StripSuffix(rest, "}}")
      case None => trimmed
      case Some(inner) => Trim(inner)
  }

  /** `normalize_ci_if_expr`: keywords in lower case. */
  function Normalize(expr: string): string { NormalizeAtom(Atom(expr)) }

  function ParseRef(expr: string): Option<string>
  {
    match StripPrefix(expr, REF_PREFIX)
    case None => None
    case Some(rest) =>
      match StripSuffix(Trim(rest), ")")
      case None => None
      case Some(quoted) =>
        match StripPrefix(Trim(quoted), "'")
        case None => None
        case Some(open) => StripSuffix(open, "'")
  }

  /** `should_run_ci_step`. */
  predicate ShouldRun(triggerRef: string, expr: string, sawFailure: bool)
  {
    AtomHolds(triggerRef, Normalize(expr), sawFailure)
  }

  predicate AtomHolds(triggerRef: string, e: string, sawFailure: bool)
  {
    if e == "" || e == "true" then true
    else if e == "false" then false
    else if e == "success()" then !sawFailure
    else if e == "failure()" then sawFailure
    else if e == "always()" then true
    else if e == "cancelled()" then false
    else match ParseRef(e)
         case Some(prefix) => prefix <= triggerRef
         case None => false
  }

  // ----- what conditions mean

  datatype Condition = Always | Never | OnSuccess | OnFailure | OnRef(prefix: string)

  predicate Holds(c: Condition, triggerRef: string, sawFailure: bool)
  {
    match c
    case Always => true
    case Never => false
    case OnSuccess => !sawFailure
    case OnFailure => sawFailure
    case OnRef(prefix) => prefix <= triggerRef
  }

  /** A condition on the ref, with blanks where they may stand. */
  function RefAtom(l: string, prefix: string, r: string, t: string): string
  {
    REF_PREFIX + (l + ("'" + prefix + "'" + r + ")") + t)
  }

  ghost predicate SpellsRef(e: string, prefix: string)
  {
    exists l, r, t :: AllSpace(l) && AllSpace(r) && AllSpace(t) && e == RefAtom(l, prefix, r, t)
  }

  /** The ways to write a condition: keywords in any case, or nothing at all. */
  ghost predicate Spells(e: string, c: Condition)
  {
    match c
    case Always => e == "" || Lower(e) == "true" || Lower(e) == "always()"
    case Never => Lower(e) == "false" || Lower(e) == "cancelled()"
    case OnSuccess => Lower(e) == "success()"
    case OnFailure => Lower(e) == "failure()"
    case OnRef(prefix) => SpellsRef(e, prefix)
  }

  lemma ParseRefSpelled(prefix: string, l: string, r: string, t: string)
    requires AllSpace(l) && AllSpace(r) && AllSpace(t)
    ensures ParseRef(RefAtom(l, prefix, r, t)) == Some(prefix)
  {
    var quoted := "'" + prefix + "'";
    var body := quoted + r + ")";
    var e := RefAtom(l, prefix, r, t);
    assert e[|REF_PREFIX|..] == l + body + t;
    assert body[0] == '\'' && body[|body| - 1] == ')';
    TrimBlank(l, body, t);
    assert body[..|body| - 1] == quoted + r;
    assert "" + quoted + r == quoted + r;
    TrimBlank("", quoted, r);
    assert quoted[1..] == prefix + "'" && (prefix + "'")[..|prefix|] == prefix;
    assert (prefix + "'")[|prefix|..] == "'";
  }

  lemma SpelledParses(e: string)
    requires ParseRef(e).Some?
    ensures SpellsRef(e, ParseRef(e).value)
  {
    var rest := e[|REF_PREFIX|..];
    var l, t := TrimSplit(rest);
    var closed := Trim(rest);
    var inner := closed[..|closed| - 1];
    var m, r := TrimSplit(inner);
    var prefix := ParseRef(e).value;
    QuotedIs(Trim(inner), prefix);
    assert closed == inner + ")";
    SpliceRef(l, m, prefix, r, t);
    assert e == REF_PREFIX + rest;
    assert AllSpace(l + m);
    assert e == RefAtom(l + m, prefix, r, t);
  }

  lemma QuotedIs(s: string, prefix: string)
    requires StripPrefix(s, "'").Some? && StripSuffix(StripPrefix(s, "'").value, "'") == Some(prefix)
    ensures s == "'" + prefix + "'"
  {
    assert s == "'" + s[1..];
    assert s[1..] == prefix + "'";
  }

  lemma SpliceRef(l: string, m: string, prefix: string, r: string, t: string)
    ensures l + (m + ("'" + prefix + "'") + r + ")") + t == (l + m) + ("'" + prefix + "'" + r + ")") + t
  {
  }

  lemma RefIsNoKeyword(prefix: string, l: string, r: string, t: string)
    ensures var e := RefAtom(l, prefix, r, t);
            e != "" && Lower(e) !in KEYWORDS && e !in KEYWORDS
  {
    assert |RefAtom(l, prefix, r, t)| > 11;
  }

  lemma AtomMeaning(e: string, triggerRef: string, sawFailure: bool)
    ensures AtomHolds(triggerRef, NormalizeAtom(e), sawFailure)
            <==> exists c :: Spells(e, c) && Holds(c, triggerRef, sawFailure)
  {
    if Lower(e) in KEYWORDS || e == "" {
      KeywordMeaning(e, triggerRef, sawFailure);
    } else {
      OtherMeaning(e, triggerRef, sawFailure);
    }
  }

  lemma NotRef(e: string, prefix: string)
    requires Lower(e) in KEYWORDS || e == ""
    ensures !SpellsRef(e, prefix)
  {
    if SpellsRef(e, prefix) {
      var l, r, t :| AllSpace(l) && AllSpace(r) && AllSpace(t) && e == RefAtom(l, prefix, r, t);
      RefIsNoKeyword(prefix, l, r, t);
    }
  }

  lemma KeywordMeaning(e: string, triggerRef: string, sawFailure: bool)
    requires Lower(e) in KEYWORDS || e == ""
    ensures AtomHolds(triggerRef, NormalizeAtom(e), sawFailure)
            <==> exists c :: Spells(e, c) && Holds(c, triggerRef, sawFailure)
  {
    forall prefix ensures !Spells(e, OnRef(prefix)) { NotRef(e, prefix); }
    if e == "" || Lower(e) == "true" || Lower(e) == "always()" { assert Spells(e, Always); }
    if Lower(e) == "success()" { assert Spells(e, OnSuccess); }
    if Lower(e) == "failure()" { assert Spells(e, OnFailure); }
  }

  lemma OtherMeaning(e: string, triggerRef: string, sawFailure: bool)
    requires Lower(e) !in KEYWORDS && e != ""
    ensures AtomHolds(triggerRef, NormalizeAtom(e), sawFailure)
            <==> exists c :: Spells(e, c) && Holds(c, triggerRef, sawFailure)
  {
    assert e !in KEYWORDS by { if e in KEYWORDS { LowerKeyword(e); } }
    if ParseRef(e).Some? {
      SpelledParses(e);
      assert Spells(e, OnRef(ParseRef(e).value));
    }
    forall c | Spells(e, c) ensures c.OnRef? && ParseRef(e) == Some(c.prefix) {
      var l, r, t :| AllSpace(l) && AllSpace(r) && AllSpace(t) && e == RefAtom(l, c.prefix, r, t);
      ParseRefSpelled(c.prefix, l, r, t);
    }
  }

  lemma LowerKeyword(e: string)
    requires e in KEYWORDS
    ensures Lower(e) == e
  {
  }

  /** A step runs if and only if its expression, without blanks and delimiters, spells
      a condition that holds; an expression that spells none never runs the step. */
  lemma ConditionMeaning(expr: string, triggerRef: string, sawFailure: bool)
    ensures ShouldRun(triggerRef, expr, sawFailure)
            <==> exists c :: Spells(Atom(expr), c) && Holds(c, triggerRef, sawFailure)
  {
    AtomMeaning(Atom(expr), triggerRef, sawFailure);
  }

  /** Blanks around an atom are dropped. */
  lemma AtomOfBare(l: string, e: string, r: string)
    requires AllSpace(l) && AllSpace(r) && Trimmed(e) && (e == "" || e[0] != '$')
    ensures Atom(l + e + r) == e
  {
    TrimBlank(l, e, r);
  }

  /** So are the delimiters, with blanks inside and out. */
  lemma AtomOfWrapped(l: string, m: string, e: string, n: string, r: string)
    requires AllSpace(l) && AllSpace(m) && AllSpace(n) && AllSpace(r) && Trimmed(e)
    ensures Atom(l + ("${{" + (m + e + n) + "}}") + r) == e
  {
    var inner := m + e + n;
    TrimBlank(m, e, n);
    Unwrapped(inner);
    TrimBlank(l, "${{" + inner + "}}", r);
  }

  lemma Unwrapped(inner: string)
    ensures var wrapped := "${{" + inner + "}}";
            && Trimmed(wrapped)
            && StripPrefix(wrapped, "${{") == Some(inner + "}}")
            && StripSuffix(inner + "}}", "}}") == Some(inner)
  {
    var wrapped := "${{" + inner + "}}";
    assert wrapped[0] == '$' && wrapped[|wrapped| - 1] == '}';
    assert wrapped[..3] == "${{" && wrapped[3..] == inner + "}}";
    var rest := inner + "}}";
    assert rest[|rest| - 2..] == "}}" && rest[..|rest| - 2] == inner;
  }
}
