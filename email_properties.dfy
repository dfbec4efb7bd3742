/** What `Item.ValidEmail` promises about the strings it accepts and
    rejects: the shape local-part `@` label `.` tld, a single `@`, a single
    `.` after it, the character classes, indifference to ASCII case, and the
    concrete addresses of the project's unit test. */
module EmailProperties {
  import opened Ascii
  import opened Item

  // ---------------------------------------------------------------------
  // The concatenation form of the language

  /** Any local part, domain label and top-level domain put together
      around `@` and `.` form an accepted address. */
  lemma ComposedIsAccepted(l: string, d: string, t: string)
    requires LocalPart(l) && DomainLabel(d) && TopLevel(t)
    ensures ValidEmail(l + "@" + d + "." + t)
  {
    var s := l + "@" + d + "." + t;
    var at, dot := |l|, |l| + 1 + |d|;
    assert s[..at] == l;
    assert s[at + 1..dot] == d;
    assert s[dot + 1..] == t;
    assert SplitsAt(s, at, dot);
  }

  /** Every accepted address is such a concatenation. */
  lemma Decompose(email: string) returns (l: string, d: string, t: string)
    requires ValidEmail(email)
    ensures email == l + "@" + d + "." + t
    ensures LocalPart(l) && DomainLabel(d) && TopLevel(t)
  {
    var at, dot :| SplitsAt(email, at, dot);
    l, d, t := email[..at], email[at + 1..dot], email[dot + 1..];
    assert email == l + "@" + d + "." + t;
  }

  /** The class each position of a split string belongs to. */
  lemma CharOfSplit(s: string, at: int, dot: int, i: int)
    requires SplitsAt(s, at, dot) && 0 <= i < |s|
    ensures i < at ==> LocalChar(s[i])
    ensures at < i < dot ==> DomainChar(s[i])
    ensures dot < i ==> TldChar(s[i])
  {
  }

  // ---------------------------------------------------------------------
  // Structural consequences

  /** An accepted address holds exactly one `@`. */
  lemma OnlyOneAt(email: string) returns (at: nat)
    requires ValidEmail(email)
    ensures at < |email| && email[at] == '@'
    ensures forall i | 0 <= i < |email| && email[i] == '@' :: i == at
  {
    var a, dot :| SplitsAt(email, a, dot);
    at := a;
    forall i | 0 <= i < |email| && email[i] == '@' ensures i == at {
      CharOfSplit(email, a, dot, i);
    }
  }

  /** After the `@` of an accepted address there is exactly one `.`, with
      a non-empty label before it and a non-empty top-level domain after
      it. */
  lemma OneDotAfterAt(email: string) returns (at: nat, dot: nat)
    requires ValidEmail(email)
    ensures at + 1 < dot < |email| - 1
    ensures email[at] == '@' && email[dot] == '.'
    ensures forall i | at < i < |email| && email[i] == '.' :: i == dot
  {
    var a, d :| SplitsAt(email, a, d);
    at, dot := a, d;
    forall i | at < i < |email| && email[i] == '.' ensures i == dot {
      CharOfSplit(email, a, d, i);
    }
  }

  /** An address with an empty local part is rejected. */
  lemma EmptyLocalPartRejected(email: string)
    requires |email| > 0 && email[0] == '@'
    ensures !ValidEmail(email)
  {
  }

  /** A character that is neither `@` nor in any of the three classes
      rejects the string wherever it stands. */
  lemma ForeignCharRejected(email: string, i: int)
    requires 0 <= i < |email|
    requires email[i] != '@' && !LocalChar(email[i])
    ensures !ValidEmail(email)
  {
  }

  /** Everything after the dot that follows the `@` must be a letter: a
      digit, `_`, `-` or `.` there rejects the string. */
  lemma NonLetterInTldRejected(email: string, at: int, dot: int, i: int)
    requires 0 <= at < dot < i < |email|
    requires email[at] == '@' && email[dot] == '.'
    requires !IsLetter(email[i])
    ensures !ValidEmail(email)
  {
  }

  /** A `.` straight after the `@` leaves the domain label empty. */
  lemma EmptyDomainLabelRejected(email: string, at: int)
    requires 0 <= at < |email| - 1
    requires email[at] == '@' && email[at + 1] == '.'
    ensures !ValidEmail(email)
  {
  }

  // ---------------------------------------------------------------------
  // CASE_INSENSITIVE

  lemma StepIgnoresCase(q: State, c: char, d: char)
    requires SameIgnoringCase(c, d)
    ensures Step(q, c) == Step(q, d)
  {
  }

  lemma {:induction false} RunIgnoresCase(q: State, s: string, t: string)
    requires |s| == |t|
    requires forall i | 0 <= i < |s| :: SameIgnoringCase(s[i], t[i])
    ensures Run(q, s) == Run(q, t)
    decreases |s|
  {
    if s != [] {
      StepIgnoresCase(q, s[0], t[0]);
      RunIgnoresCase(Step(q, s[0]), s[1..], t[1..]);
    }
  }

  /** Changing the case of any ASCII letters never changes the verdict. */
  lemma CaseDoesNotMatter(s: string, t: string)
    requires |s| == |t|
    requires forall i | 0 <= i < |s| :: SameIgnoringCase(s[i], t[i])
    ensures ValidEmail(s) == ValidEmail(t)
  {
    RunIgnoresCase(Start, s, t);
  }

  // ---------------------------------------------------------------------
  // The addresses of the unit test

  // Each address gets a lemma of its own: proving several verdicts on
  // literal strings in one lemma makes the solver unfold the scanner on all
  // of them at once.

  lemma AcceptsTestAtExampleCom()
    ensures ValidEmail("test@example.com")
  {
    assert SplitsAt("test@example.com", 4, 12);
  }

  /** Dots are allowed in the local part. */
  lemma AcceptsDottedLocalPart()
    ensures ValidEmail("user.name@example.com")
  {
    assert SplitsAt("user.name@example.com", 9, 17);
  }

  /** Digits are allowed in the local part. */
  lemma AcceptsDigitsInLocalPart()
    ensures ValidEmail("plampe01@gmail.com")
  {
    assert SplitsAt("plampe01@gmail.com", 8, 14);
  }

  lemma RejectsEmptyString()
    ensures !ValidEmail("")
  {
  }

  lemma RejectsPlainAddress()
    ensures !ValidEmail("plainaddress")
  {
  }

  lemma RejectsMissingDot()
    ensures !ValidEmail("missing@domain")
  {
    var s := "missing@domain";
    assert forall i | 0 <= i < |s| :: s[i] != '.';
    if ValidEmail(s) {
      var at, dot := OneDotAfterAt(s);
    }
  }

  lemma RejectsMissingLocalPart()
    ensures !ValidEmail("@missinglocalpart.com")
  {
    EmptyLocalPartRejected("@missinglocalpart.com");
  }

  lemma RejectsEmptyDomainLabel()
    ensures !ValidEmail("user@.domain.com")
  {
    EmptyDomainLabelRejected("user@.domain.com", 4);
  }

  lemma RejectsComma()
    ensures !ValidEmail("user@domain,com")
  {
    ForeignCharRejected("user@domain,com", 11);
  }

  lemma RejectsTrailingAt()
    ensures !ValidEmail("user@domain.com@")
  {
    var s := "user@domain.com@";
    assert s[4] == '@' && s[15] == '@';
    if ValidEmail(s) {
      var at := OnlyOneAt(s);
    }
  }

  lemma RejectsDoubleDot()
    ensures !ValidEmail("user@domain..com")
  {
    NonLetterInTldRejected("user@domain..com", 4, 11, 12);
  }
}
