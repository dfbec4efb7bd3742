/** The e-mail validator of the Item entity: the static `validEmail`, which
    accepts a string exactly when the whole of it matches
    `^[A-Z0-9._-]+@[A-Z0-9_-]+\.[A-Z]+$` compiled with CASE_INSENSITIVE.

    The accepted language is given twice: declaratively, as a split of the
    string into local part, `@`, domain label, `.` and top-level domain
    (`Matches`), and operationally, as a left-to-right scan by a
    deterministic automaton (`ValidEmail`), which is proved to accept
    exactly the strings `Matches` describes. */
module Item {
  import opened Ascii

  // ---------------------------------------------------------------------
  // Character classes

  /** `[A-Z0-9._-]` as written in the pattern. */
  predicate InLocalClassAsWritten(c: char)
  {
    IsUpper(c) || IsDigit(c) || c == '.' || c == '_' || c == '-'
  }

  /** `[A-Z0-9_-]` as written in the pattern. */
  predicate InDomainClassAsWritten(c: char)
  {
    IsUpper(c) || IsDigit(c) || c == '_' || c == '-'
  }

  /** `[A-Z]` as written in the pattern. */
  predicate InTldClassAsWritten(c: char)
  {
    IsUpper(c)
  }

  /** How a bracket class matches under CASE_INSENSITIVE without
      UNICODE_CASE: the character itself, its ASCII upper case or its ASCII
      lower case is a member. No other case folding takes place. */
  predicate MatchesIgnoringCase(inClass: char -> bool, c: char)
  {
    inClass(c) || inClass(ToUpper(c)) || inClass(ToLower(c))
  }

  /** A character the local part may contain. */
  function LocalChar(c: char): (b: bool)
    ensures b <==> IsLetter(c) || IsDigit(c) || c == '.' || c == '_' || c == '-'
  {
    MatchesIgnoringCase(InLocalClassAsWritten, c)
  }

  /** A character the domain label may contain: as for the local part,
      but without `.`. */
  function DomainChar(c: char): (b: bool)
    ensures b <==> IsLetter(c) || IsDigit(c) || c == '_' || c == '-'
  {
    MatchesIgnoringCase(InDomainClassAsWritten, c)
  }

  /** A character the top-level domain may contain: ASCII letters only. */
  function TldChar(c: char): (b: bool)
    ensures b <==> IsLetter(c)
  {
    MatchesIgnoringCase(InTldClassAsWritten, c)
  }

  // ---------------------------------------------------------------------
  // The accepted language, declaratively

  /** `[A-Z0-9._-]+` */
  predicate LocalPart(l: string)
  {
    |l| > 0 && forall i | 0 <= i < |l| :: LocalChar(l[i])
  }

  /** `[A-Z0-9_-]+` */
  predicate DomainLabel(d: string)
  {
    |d| > 0 && forall i | 0 <= i < |d| :: DomainChar(d[i])
  }

  /** `[A-Z]+` */
  predicate TopLevel(t: string)
  {
    |t| > 0 && forall i | 0 <= i < |t| :: TldChar(t[i])
  }

  /** `s` is local part, `@` at index `at`, domain label, `.` at index
      `dot`, top-level domain, with nothing before or after. */
  predicate SplitsAt(s: string, at: int, dot: int)
  {
    0 <= at < dot < |s| && s[at] == '@' && s[dot] == '.' &&
    LocalPart(s[..at]) && DomainLabel(s[at + 1..dot]) && TopLevel(s[dot + 1..])
  }

  /** The whole of `s` matches the pattern. */
  ghost predicate Matches(s: string)
  {
    exists at, dot :: SplitsAt(s, at, dot)
  }

  // ---------------------------------------------------------------------
  // The scanner

  /** The states of a deterministic automaton for the pattern: which part
      of the address the characters read so far end in. */
  datatype State =
    | Start      // nothing read yet
    | InLocal    // inside the local part
    | AfterAt    // just read the `@`
    | InDomain   // inside the domain label
    | AfterDot   // just read the `.`
    | InTld      // inside the top-level domain: the accepting state
    | Reject     // no continuation can match

  function Step(q: State, c: char): State
  {
    match q
    case Start => if LocalChar(c) then InLocal else Reject
    case InLocal =>
      if c == '@' then AfterAt else if LocalChar(c) then InLocal else Reject
    case AfterAt => if DomainChar(c) then InDomain else Reject
    case InDomain =>
      if c == '.' then AfterDot else if DomainChar(c) then InDomain else Reject
    case AfterDot => if TldChar(c) then InTld else Reject
    case InTld => if TldChar(c) then InTld else Reject
    case Reject => Reject
  }

  /** The state reached from `q` by reading `s` from left to right. */
  function Run(q: State, s: string): State
    decreases |s|
  {
    if s == [] then q else Run(Step(q, s[0]), s[1..])
  }

  /** `Item.validEmail`: the automaton ends in its accepting state, which
      happens exactly when the whole string matches the pattern. */
  function ValidEmail(email: string): (ok: bool)
    ensures ok <==> Matches(email)
  {
    RunFromStart(email);
    Run(Start, email) == InTld
  }

  // ---------------------------------------------------------------------
  // Correctness of the scanner

  /** `p` is a local part followed by `@`. */
  predicate EndsAfterAt(p: string)
  {
    |p| > 0 && p[|p| - 1] == '@' && LocalPart(p[..|p| - 1])
  }

  /** `p` is local part, `@` at index `at`, and a domain label. */
  predicate DomainSplit(p: string, at: int)
  {
    0 <= at < |p| && p[at] == '@' && LocalPart(p[..at]) && DomainLabel(p[at + 1..])
  }

  ghost predicate EndsInDomain(p: string)
  {
    exists at :: DomainSplit(p, at)
  }

  /** `p` is local part, `@`, domain label and `.`. */
  ghost predicate EndsAfterDot(p: string)
  {
    |p| > 0 && p[|p| - 1] == '.' && EndsInDomain(p[..|p| - 1])
  }

  /** Reading one more character is one more step of the automaton. */
  lemma {:induction false} RunSnoc(q: State, p: string, c: char)
    ensures Run(q, p + [c]) == Step(Run(q, p), c)
    decreases |p|
  {
    if p == [] {
      assert [c][1..] == [];
    } else {
      assert (p + [c])[0] == p[0];
      assert (p + [c])[1..] == p[1..] + [c];
      RunSnoc(Step(q, p[0]), p[1..], c);
    }
  }

  lemma LocalSnoc(p: string, c: char)
    ensures LocalPart(p + [c]) <==> (p == [] || LocalPart(p)) && LocalChar(c)
  {
    var s := p + [c];
    assert s[|p|] == c;
    if LocalPart(s) && p != [] {
      forall i | 0 <= i < |p| ensures LocalChar(p[i]) {
        assert s[i] == p[i];
      }
    }
  }

  lemma AfterAtSnoc(p: string, c: char)
    ensures EndsAfterAt(p + [c]) <==> LocalPart(p) && c == '@'
  {
  }

  lemma DomainSnoc(p: string, c: char)
    ensures EndsInDomain(p + [c]) <==> (EndsAfterAt(p) || EndsInDomain(p)) && DomainChar(c)
  {
    var s := p + [c];
    if EndsInDomain(s) {
      var at :| DomainSplit(s, at);
      assert at < |p|;
      assert s[..at] == p[..at];
      assert s[at + 1..] == p[at + 1..] + [c];
      assert DomainChar(c) by { assert s[at + 1..][|p| - at - 1] == c; }
      if at == |p| - 1 {
        assert EndsAfterAt(p);
      } else {
        var dom, longer := p[at + 1..], s[at + 1..];
        forall i | 0 <= i < |dom| ensures DomainChar(dom[i]) {
          assert dom[i] == longer[i];
        }
        assert DomainSplit(p, at);
      }
    }
    if EndsAfterAt(p) && DomainChar(c) {
      var at := |p| - 1;
      assert s[..at] == p[..at];
      assert s[at + 1..] == [c];
      assert DomainSplit(s, at);
    }
    if EndsInDomain(p) && DomainChar(c) {
      var at :| DomainSplit(p, at);
      assert s[..at] == p[..at];
      assert s[at + 1..] == p[at + 1..] + [c];
      assert DomainSplit(s, at);
    }
  }

  lemma AfterDotSnoc(p: string, c: char)
    ensures EndsAfterDot(p + [c]) <==> EndsInDomain(p) && c == '.'
  {
  }

  lemma TldSnoc(p: string, c: char)
    ensures Matches(p + [c]) <==> (EndsAfterDot(p) || Matches(p)) && TldChar(c)
  {
    var s := p + [c];
    if Matches(s) {
      var at, dot :| SplitsAt(s, at, dot);
      assert dot < |p|;
      assert s[..at] == p[..at];
      assert s[at + 1..dot] == p[at + 1..dot];
      assert s[dot + 1..] == p[dot + 1..] + [c];
      assert TldChar(c) by { assert s[dot + 1..][|p| - dot - 1] == c; }
      if dot == |p| - 1 {
        var d := p[..dot];
        assert d[..at] == p[..at];
        assert d[at + 1..] == p[at + 1..dot];
        assert DomainSplit(d, at);
        assert EndsAfterDot(p);
      } else {
        var tld, longer := p[dot + 1..], s[dot + 1..];
        forall i | 0 <= i < |tld| ensures TldChar(tld[i]) {
          assert tld[i] == longer[i];
        }
        assert SplitsAt(p, at, dot);
      }
    }
    if EndsAfterDot(p) && TldChar(c) {
      var dot := |p| - 1;
      var d := p[..dot];
      var at :| DomainSplit(d, at);
      assert s[..at] == d[..at];
      assert s[at + 1..dot] == d[at + 1..];
      assert s[dot + 1..] == [c];
      assert SplitsAt(s, at, dot);
    }
    if Matches(p) && TldChar(c) {
      var at, dot :| SplitsAt(p, at, dot);
      assert s[..at] == p[..at];
      assert s[at + 1..dot] == p[at + 1..dot];
      assert s[dot + 1..] == p[dot + 1..] + [c];
      assert SplitsAt(s, at, dot);
    }
  }

  /** The state the automaton is in after reading `p` says exactly which
      prefix of the pattern `p` matches. */
  lemma {:induction false} RunFromStart(p: string)
    ensures Run(Start, p) == Start <==> p == []
    ensures Run(Start, p) == InLocal <==> LocalPart(p)
    ensures Run(Start, p) == AfterAt <==> EndsAfterAt(p)
    ensures Run(Start, p) == InDomain <==> EndsInDomain(p)
    ensures Run(Start, p) == AfterDot <==> EndsAfterDot(p)
    ensures Run(Start, p) == InTld <==> Matches(p)
    decreases |p|
  {
    if p == [] {
      assert !EndsInDomain(p);
      assert !Matches(p);
    } else {
      var init, c := p[..|p| - 1], p[|p| - 1];
      assert p == init + [c];
      RunFromStart(init);
      RunSnoc(Start, init, c);
      LocalSnoc(init, c);
      AfterAtSnoc(init, c);
      DomainSnoc(init, c);
      AfterDotSnoc(init, c);
      TldSnoc(init, c);
    }
  }
}
