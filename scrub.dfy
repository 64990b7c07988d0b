/** The PII scrubber of server/scrub.ts: three global replacements applied in a
    fixed order, emails first, then phone numbers, then LinkedIn profile links.
    The generic URL pattern the source declares is never applied, so other links
    pass through. */
module Scrub {
  import opened Common
  import opened Regex

  const EmailMark := "[email redacted]"
  const PhoneMark := "[phone redacted]"
  const LinkedinMark := "[linkedin profile redacted]"

  /** `[\w\.-]+@[\w\.-]+\.\w+` */
  function EmailPattern(): seq<Token>
  {
    Plus(WordDotHyphen) + [One(Exactly('@'))] + Plus(WordDotHyphen) + [One(Exactly('.'))] + Plus(Word)
  }

  /** `(\+?\d{1,3}[-.\s]?)?\(?\d{3}\)?[-.\s]?\d{3}[-.\s]?\d{4}` */
  function PhonePattern(): seq<Token>
  {
    var d := One(Digit);
    var sep := Opt([One(HyphenDotSpace)]);
    [Opt([Opt([One(Exactly('+'))]), d, Opt([d, Opt([d])]), sep])]
    + [Opt([One(Exactly('('))]), d, d, d, Opt([One(Exactly(')'))]), sep]
    + [d, d, d, sep]
    + [d, d, d, d]
  }

  /** `https?:\/\/(www\.)?linkedin\.com\/in\/[a-zA-Z0-9_-]+` */
  function LinkedinPattern(): seq<Token>
  {
    LinkedinHead() + Literal(ProfilePath) + Plus(ProfileIdChar)
  }

  /** `https?:\/\/(www\.)?`, the part before the profile path. */
  function LinkedinHead(): (p: seq<Token>)
    ensures |p| == 9
  {
    Literal("http") + [Opt([One(Exactly('s'))])] + Literal("://") + [Opt(Literal("www."))]
  }

  const ProfilePath := "linkedin.com/in/"

  function EmailPass(text: string): string { ReplaceAll(EmailPattern(), text, EmailMark) }

  function PhonePass(text: string): string { ReplaceAll(PhonePattern(), text, PhoneMark) }

  function LinkedinPass(text: string): string { ReplaceAll(LinkedinPattern(), text, LinkedinMark) }

  /** `scrubPII(text)`: the three passes, emails first, LinkedIn links last. */
  function ScrubPII(text: string): string
  {
    LinkedinPass(PhonePass(EmailPass(text)))
  }

  // ---------------------------------------------------------------------------
  // What each pattern needs in order to match

  /** Every email match holds an `@`, so it is never empty. */
  lemma EmailMatchHasAt(s: string, i: nat)
    requires i <= |s| && Match(EmailPattern(), s, i).Some?
    ensures HasClassChar(Exactly('@'), s[i..Match(EmailPattern(), s, i).value])
  {
    assert EmailPattern()[2] == One(Exactly('@'));
    MatchHasClassChar(EmailPattern(), 2, s, i);
  }

  lemma EmailMatchNonEmpty(s: string, i: nat)
    requires i <= |s|
    ensures Match(EmailPattern(), s, i).Some? ==> Match(EmailPattern(), s, i).value > i
  {
    if Match(EmailPattern(), s, i).Some? {
      EmailMatchHasAt(s, i);
    }
  }

  /** Every phone match holds a digit, so it is never empty. */
  lemma PhoneMatchHasDigit(s: string, i: nat)
    requires i <= |s| && Match(PhonePattern(), s, i).Some?
    ensures HasClassChar(Digit, s[i..Match(PhonePattern(), s, i).value])
  {
    assert PhonePattern()[2] == One(Digit);
    MatchHasClassChar(PhonePattern(), 2, s, i);
  }

  /** Every LinkedIn match holds `linkedin.com/in/`, so it is never empty. */
  lemma LinkedinMatchHasProfilePath(s: string, i: nat)
    requires i <= |s| && Match(LinkedinPattern(), s, i).Some?
    ensures Contains(s[i..Match(LinkedinPattern(), s, i).value], ProfilePath)
  {
    assert LinkedinPattern()[9..9 + |ProfilePath|] == Literal(ProfilePath);
    MatchHasLiteral(LinkedinPattern(), 9, ProfilePath, s, i);
  }

  /** Scanning from `i`, the leftmost email match is replaced by exactly the
      email placeholder, the text before it is kept and scanning resumes after it. */
  lemma EmailMatchBecomesPlaceholder(s: string, i: nat, m: nat)
    requires i <= m <= |s| && forall k :: i <= k < m ==> Match(EmailPattern(), s, k).None?
    requires Match(EmailPattern(), s, m).Some?
    ensures ReplaceFrom(EmailPattern(), s, i, EmailMark)
            == s[i..m] + EmailMark + ReplaceFrom(EmailPattern(), s, Match(EmailPattern(), s, m).value, EmailMark)
  {
    EmailMatchHasAt(s, m);
    ReplaceLeftmost(EmailPattern(), s, i, m, EmailMark);
  }

  /** Scanning from `i`, the leftmost phone match is replaced by exactly the
      phone placeholder, the text before it is kept and scanning resumes after it. */
  lemma PhoneMatchBecomesPlaceholder(s: string, i: nat, m: nat)
    requires i <= m <= |s| && forall k :: i <= k < m ==> Match(PhonePattern(), s, k).None?
    requires Match(PhonePattern(), s, m).Some?
    ensures ReplaceFrom(PhonePattern(), s, i, PhoneMark)
            == s[i..m] + PhoneMark + ReplaceFrom(PhonePattern(), s, Match(PhonePattern(), s, m).value, PhoneMark)
  {
    PhoneMatchHasDigit(s, m);
    ReplaceLeftmost(PhonePattern(), s, i, m, PhoneMark);
  }

  /** Scanning from `i`, the leftmost LinkedIn match is replaced by exactly the
      LinkedIn placeholder, the text before it is kept and scanning resumes after it. */
  lemma LinkedinMatchBecomesPlaceholder(s: string, i: nat, m: nat)
    requires i <= m <= |s| && forall k :: i <= k < m ==> Match(LinkedinPattern(), s, k).None?
    requires Match(LinkedinPattern(), s, m).Some?
    ensures ReplaceFrom(LinkedinPattern(), s, i, LinkedinMark)
            == s[i..m] + LinkedinMark + ReplaceFrom(LinkedinPattern(), s, Match(LinkedinPattern(), s, m).value, LinkedinMark)
  {
    LinkedinMatchHasProfilePath(s, m);
    ReplaceLeftmost(LinkedinPattern(), s, i, m, LinkedinMark);
  }

  // ---------------------------------------------------------------------------
  // Text the scrubber leaves alone

  predicate HasAt(s: string) { HasClassChar(Exactly('@'), s) }

  predicate HasDigit(s: string) { HasClassChar(Digit, s) }

  lemma NoEmailWithoutAt(s: string)
    requires !HasAt(s)
    ensures forall k :: 0 <= k <= |s| ==> Match(EmailPattern(), s, k).None?
  {
    forall k | 0 <= k <= |s| ensures Match(EmailPattern(), s, k).None? {
      if Match(EmailPattern(), s, k).Some? {
        EmailMatchHasAt(s, k);
        ClassCharSlice(Exactly('@'), s, k, Match(EmailPattern(), s, k).value);
      }
    }
  }

  lemma NoPhoneWithoutDigit(s: string)
    requires !HasDigit(s)
    ensures forall k :: 0 <= k <= |s| ==> Match(PhonePattern(), s, k).None?
  {
    forall k | 0 <= k <= |s| ensures Match(PhonePattern(), s, k).None? {
      if Match(PhonePattern(), s, k).Some? {
        PhoneMatchHasDigit(s, k);
        ClassCharSlice(Digit, s, k, Match(PhonePattern(), s, k).value);
      }
    }
  }

  lemma NoLinkedinWithoutProfilePath(s: string)
    requires !Contains(s, ProfilePath)
    ensures forall k :: 0 <= k <= |s| ==> Match(LinkedinPattern(), s, k).None?
  {
    forall k | 0 <= k <= |s| ensures Match(LinkedinPattern(), s, k).None? {
      if Match(LinkedinPattern(), s, k).Some? {
        LinkedinMatchHasProfilePath(s, k);
        ContainsSlice(s, k, Match(LinkedinPattern(), s, k).value, ProfilePath);
      }
    }
  }

  lemma EmailPassKeepsTextWithoutAt(s: string)
    requires !HasAt(s)
    ensures EmailPass(s) == s
  {
    NoEmailWithoutAt(s);
    ReplaceWithoutMatch(EmailPattern(), s, 0, EmailMark);
    assert s[0..] == s;
  }

  lemma PhonePassKeepsTextWithoutDigit(s: string)
    requires !HasDigit(s)
    ensures PhonePass(s) == s
  {
    NoPhoneWithoutDigit(s);
    ReplaceWithoutMatch(PhonePattern(), s, 0, PhoneMark);
    assert s[0..] == s;
  }

  lemma LinkedinPassKeepsTextWithoutProfilePath(s: string)
    requires !Contains(s, ProfilePath)
    ensures LinkedinPass(s) == s
  {
    NoLinkedinWithoutProfilePath(s);
    ReplaceWithoutMatch(LinkedinPattern(), s, 0, LinkedinMark);
    assert s[0..] == s;
  }

  /** Text none of the three patterns can touch: no `@`, no digit and no
      `linkedin.com/in/`. */
  predicate Clean(s: string)
  {
    !HasAt(s) && !HasDigit(s) && !Contains(s, ProfilePath)
  }

  /** Clean text comes back unchanged: in particular every other link survives,
      because the generic URL pattern is never applied. */
  lemma ScrubLeavesCleanText(s: string)
    requires Clean(s)
    ensures ScrubPII(s) == s
  {
    EmailPassKeepsTextWithoutAt(s);
    PhonePassKeepsTextWithoutDigit(s);
    LinkedinPassKeepsTextWithoutProfilePath(s);
  }

  /** A text that holds `w` holds each character of `w`. */
  lemma ContainsChar(s: string, w: string, t: nat)
    requires Contains(s, w) && t < |w|
    ensures exists m :: 0 <= m < |s| && s[m] == w[t]
  {
    var m: nat :| m <= |s| && OccursAt(s, w, m);
    assert s[m + t] == s[m..m + |w|][t];
  }

  /** Text without `/` cannot hold `linkedin.com/in/`. */
  lemma NoProfilePathWithoutSlash(s: string)
    requires forall m :: 0 <= m < |s| ==> s[m] != '/'
    ensures !Contains(s, ProfilePath)
  {
    assert ProfilePath[12] == '/';
    if Contains(s, ProfilePath) {
      ContainsChar(s, ProfilePath, 12);
    }
  }

  /** The three placeholders hold no `@`, no digit and no `/`. */
  lemma PlaceholdersAreClean()
    ensures Clean(EmailMark) && Clean(PhoneMark) && Clean(LinkedinMark)
  {
    NoProfilePathWithoutSlash(EmailMark);
    NoProfilePathWithoutSlash(PhoneMark);
    NoProfilePathWithoutSlash(LinkedinMark);
  }

  /** Scrubbing a placeholder again leaves it as it is. */
  lemma PlaceholderIsFixedPoint(mark: string)
    requires mark == EmailMark || mark == PhoneMark || mark == LinkedinMark
    ensures ScrubPII(mark) == mark
  {
    PlaceholdersAreClean();
    ScrubLeavesCleanText(mark);
  }

  /** A text that is one email address is replaced as a whole by the email placeholder. */
  lemma EmailPassWhole(s: string)
    requires Match(EmailPattern(), s, 0) == Some(|s|)
    ensures EmailPass(s) == EmailMark
  {
    EmailMatchHasAt(s, 0);
    EmailMatchNonEmpty(s, |s|);
    ReplaceWholeMatch(EmailPattern(), s, EmailMark);
  }

  /** When the email pass already yields clean text, the later passes keep it. */
  lemma ScrubAfterCleanEmailPass(s: string, t: string)
    requires EmailPass(s) == t && Clean(t)
    ensures ScrubPII(s) == t
  {
    PhonePassKeepsTextWithoutDigit(t);
    LinkedinPassKeepsTextWithoutProfilePath(t);
  }

  /** The email pass runs first: a text that is one email address becomes the
      email placeholder, even when the address holds a run of digits the phone
      pattern would otherwise have taken. */
  lemma EmailBeforePhone(s: string)
    requires Match(EmailPattern(), s, 0) == Some(|s|)
    ensures ScrubPII(s) == EmailMark
  {
    EmailPassWhole(s);
    PlaceholdersAreClean();
    ScrubAfterCleanEmailPass(s, EmailMark);
  }

  // ---------------------------------------------------------------------------
  // Scrubbed text: no pattern matches anywhere, so scrubbing again changes nothing

  /** No pattern can match a bracket, so no match reaches into a placeholder
      from outside it. */
  lemma EmailAvoidsBrackets(c: char)
    requires c == '[' || c == ']'
    ensures Avoids(EmailPattern(), c)
  {
    AvoidsConcat(Plus(WordDotHyphen), [One(Exactly('@'))], c);
    AvoidsConcat(Plus(WordDotHyphen) + [One(Exactly('@'))], Plus(WordDotHyphen), c);
    AvoidsConcat(Plus(WordDotHyphen) + [One(Exactly('@'))] + Plus(WordDotHyphen), [One(Exactly('.'))], c);
    AvoidsConcat(Plus(WordDotHyphen) + [One(Exactly('@'))] + Plus(WordDotHyphen) + [One(Exactly('.'))], Plus(Word), c);
  }

  lemma PhoneAvoidsBrackets(c: char)
    requires c == '[' || c == ']'
    ensures Avoids(PhonePattern(), c)
  {
    var d := One(Digit);
    var sep := Opt([One(HyphenDotSpace)]);
    assert Avoids([d], c) && Avoids([One(Exactly('+'))], c) && Avoids([One(HyphenDotSpace)], c);
    assert Avoids([Opt([d])], c) && Avoids([Opt([One(Exactly('+'))])], c) && Avoids([sep], c);
    assert Avoids([d, Opt([d])], c);
    assert Avoids([Opt([d, Opt([d])])], c);
    var a := [Opt([Opt([One(Exactly('+'))]), d, Opt([d, Opt([d])]), sep])];
    assert Avoids([Opt([One(Exactly('+'))]), d, Opt([d, Opt([d])]), sep], c);
    assert Avoids(a, c);
    var b := [Opt([One(Exactly('('))]), d, d, d, Opt([One(Exactly(')'))]), sep];
    assert Avoids([One(Exactly('('))], c) && Avoids([One(Exactly(')'))], c);
    assert Avoids(b, c);
    AvoidsConcat(a, b, c);
    AvoidsConcat(a + b, [d, d, d, sep], c);
    AvoidsConcat(a + b + [d, d, d, sep], [d, d, d, d], c);
  }

  lemma LinkedinHeadAvoidsBrackets(c: char)
    requires c == '[' || c == ']'
    ensures Avoids(LinkedinHead(), c)
  {
    AvoidsLiteral("http", c);
    AvoidsLiteral("://", c);
    AvoidsLiteral("www.", c);
    var a := Literal("http") + [Opt([One(Exactly('s'))])];
    AvoidsConcat(Literal("http"), [Opt([One(Exactly('s'))])], c);
    AvoidsConcat(a, Literal("://"), c);
    AvoidsConcat(a + Literal("://"), [Opt(Literal("www."))], c);
  }

  lemma ProfilePathAvoidsBrackets(c: char)
    requires c == '[' || c == ']'
    ensures Avoids(Literal(ProfilePath), c)
  {
    assert c !in ProfilePath;
    AvoidsLiteral(ProfilePath, c);
  }

  lemma ProfileIdAvoidsBrackets(c: char)
    requires c == '[' || c == ']'
    ensures Avoids(Plus(ProfileIdChar), c)
  {
  }

  lemma LinkedinAvoidsFromParts(c: char)
    requires Avoids(LinkedinHead(), c) && Avoids(Literal(ProfilePath), c) && Avoids(Plus(ProfileIdChar), c)
    ensures Avoids(LinkedinPattern(), c)
  {
    AvoidsConcat(LinkedinHead(), Literal(ProfilePath), c);
    AvoidsConcat(LinkedinHead() + Literal(ProfilePath), Plus(ProfileIdChar), c);
  }

  lemma LinkedinAvoidsBrackets(c: char)
    requires c == '[' || c == ']'
    ensures Avoids(LinkedinPattern(), c)
  {
    LinkedinHeadAvoidsBrackets(c);
    ProfilePathAvoidsBrackets(c);
    ProfileIdAvoidsBrackets(c);
    LinkedinAvoidsFromParts(c);
  }

  /** The email pass leaves no email behind. */
  lemma EmailPassLeavesNoEmail(s: string)
    ensures NoMatch(EmailPattern(), EmailPass(s))
  {
    var E := EmailPattern();
    EmailAvoidsBrackets('['); EmailAvoidsBrackets(']');
    PlaceholdersAreClean();
    assert E[2] == One(Exactly('@'));
    NoWordWithoutClass(E, 2, EmailMark);
    NonEmptyByClass(E, 2, s);
    PassLeavesNoMatch(E, s, EmailMark, E);
  }

  /** The phone pass leaves no phone number behind and creates no email. */
  lemma PhonePassLeavesNoMatch(t: string)
    requires NoMatch(EmailPattern(), t)
    ensures NoMatch(EmailPattern(), PhonePass(t)) && NoMatch(PhonePattern(), PhonePass(t))
  {
    var E, P := EmailPattern(), PhonePattern();
    EmailAvoidsBrackets('['); EmailAvoidsBrackets(']');
    PhoneAvoidsBrackets('['); PhoneAvoidsBrackets(']');
    PlaceholdersAreClean();
    assert E[2] == One(Exactly('@')) && P[2] == One(Digit);
    NoWordWithoutClass(E, 2, PhoneMark);
    NoWordWithoutClass(P, 2, PhoneMark);
    NonEmptyByClass(P, 2, t);
    PassLeavesNoMatch(P, t, PhoneMark, P);
    PassLeavesNoMatch(P, t, PhoneMark, E);
  }

  lemma LinkedinMatchesNonEmpty(t: string)
    ensures NonEmptyMatches(LinkedinPattern(), t, 0)
  {
    assert LinkedinPattern()[9..9 + |ProfilePath|] == Literal(ProfilePath);
    NonEmptyByLiteral(LinkedinPattern(), 9, ProfilePath, t);
  }

  /** The LinkedIn pass leaves no profile link behind. */
  lemma LinkedinPassLeavesNoLinkedin(t: string)
    ensures NoMatch(LinkedinPattern(), LinkedinPass(t))
  {
    var L := LinkedinPattern();
    LinkedinAvoidsBrackets('['); LinkedinAvoidsBrackets(']');
    PlaceholdersAreClean();
    assert L[9..9 + |ProfilePath|] == Literal(ProfilePath);
    NoWordWithoutLiteral(L, 9, ProfilePath, LinkedinMark);
    LinkedinMatchesNonEmpty(t);
    PassLeavesNoMatch(L, t, LinkedinMark, L);
  }

  /** The LinkedIn pass creates no email. */
  lemma LinkedinPassAddsNoEmail(t: string)
    requires NoMatch(EmailPattern(), t)
    ensures NoMatch(EmailPattern(), LinkedinPass(t))
  {
    var E := EmailPattern();
    EmailAvoidsBrackets('['); EmailAvoidsBrackets(']');
    PlaceholdersAreClean();
    assert E[2] == One(Exactly('@'));
    NoWordWithoutClass(E, 2, LinkedinMark);
    LinkedinMatchesNonEmpty(t);
    PassLeavesNoMatch(LinkedinPattern(), t, LinkedinMark, E);
  }

  /** The LinkedIn pass creates no phone number. */
  lemma LinkedinPassAddsNoPhone(t: string)
    requires NoMatch(PhonePattern(), t)
    ensures NoMatch(PhonePattern(), LinkedinPass(t))
  {
    var P := PhonePattern();
    PhoneAvoidsBrackets('['); PhoneAvoidsBrackets(']');
    PlaceholdersAreClean();
    assert P[2] == One(Digit);
    NoWordWithoutClass(P, 2, LinkedinMark);
    LinkedinMatchesNonEmpty(t);
    PassLeavesNoMatch(LinkedinPattern(), t, LinkedinMark, P);
  }

  /** In the scrubbed text none of the three patterns matches at any position:
      every email, phone number and LinkedIn profile link has been replaced, and
      neither a placeholder nor the text around it forms a new one. */
  lemma ScrubLeavesNoMatch(s: string)
    ensures NoMatch(EmailPattern(), ScrubPII(s))
    ensures NoMatch(PhonePattern(), ScrubPII(s))
    ensures NoMatch(LinkedinPattern(), ScrubPII(s))
  {
    EmailPassLeavesNoEmail(s);
    PhonePassLeavesNoMatch(EmailPass(s));
    LinkedinPassLeavesNoLinkedin(PhonePass(EmailPass(s)));
    LinkedinPassAddsNoEmail(PhonePass(EmailPass(s)));
    LinkedinPassAddsNoPhone(PhonePass(EmailPass(s)));
  }

  /** Scrubbing is idempotent: a second scrub leaves every placeholder, and
      everything else, as it is. */
  lemma ScrubIdempotent(s: string)
    ensures ScrubPII(ScrubPII(s)) == ScrubPII(s)
  {
    var t := ScrubPII(s);
    ScrubLeavesNoMatch(s);
    KeepWithoutMatch(EmailPattern(), t, EmailMark);
    KeepWithoutMatch(PhonePattern(), t, PhoneMark);
    KeepWithoutMatch(LinkedinPattern(), t, LinkedinMark);
  }
}
