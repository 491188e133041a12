/**
 * The pure helpers of the subscription service (app/business/services/
 * subscription_service.py): the email pattern, email validation, and the
 * normalisation of emails and display names.
 */
module EmailRules {
  import opened Wrappers
  import opened Text

  const EmailRequired := "Email is required"
  const InvalidEmailFormat := "Invalid email format"

  /** The display name of a subscriber who gave none. */
  const DefaultName := "Subscriber"

  /** The class `[a-zA-Z0-9._%+-]` of the local part. */
  predicate IsLocalChar(c: char) {
    IsLetter(c) || IsDigit(c) || c == '.' || c == '_' || c == '%' || c == '+' || c == '-'
  }

  /** The class `[a-zA-Z0-9.-]` of the domain. */
  predicate IsDomainChar(c: char) {
    IsLetter(c) || IsDigit(c) || c == '.' || c == '-'
  }

  predicate LocalRun(s: string, lo: nat, hi: nat)
    requires lo <= hi <= |s|
  {
    forall i | lo <= i < hi :: IsLocalChar(s[i])
  }

  predicate DomainRun(s: string, lo: nat, hi: nat)
    requires lo <= hi <= |s|
  {
    forall i | lo <= i < hi :: IsDomainChar(s[i])
  }

  predicate LetterRun(s: string, lo: nat, hi: nat)
    requires lo <= hi <= |s|
  {
    forall i | lo <= i < hi :: IsLetter(s[i])
  }

  /** `^[a-zA-Z0-9._%+-]+@[a-zA-Z0-9.-]+\.[a-zA-Z]{2,}$` as a regular
      expression matcher reads it: SOME position of an `@` and SOME later
      position of a `.` cut the whole string into a non-empty local part, a
      non-empty domain and a final label of two or more ASCII letters. */
  ghost predicate MatchesEmailPattern(s: string) {
    exists at: nat, dot: nat :: EmailSplit(s, at, dot)
  }

  /** `s[at]` is the `@` and `s[dot]` the `.` of a match of the pattern. */
  predicate EmailSplit(s: string, at: nat, dot: nat) {
    && 0 < at && at + 1 < dot && dot + 2 < |s|
    && s[at] == '@'
    && s[dot] == '.'
    && LocalRun(s, 0, at)
    && DomainRun(s, at + 1, dot)
    && LetterRun(s, dot + 1, |s|)
  }

  /** The first position of `c` in `s`, if any. */
  function IndexOf(s: string, c: char): (r: Option<nat>)
    ensures r.None? ==> forall i | 0 <= i < |s| :: s[i] != c
    ensures r.Some? ==> r.value < |s| && s[r.value] == c
    ensures r.Some? ==> forall i | 0 <= i < r.value :: s[i] != c
  {
    if s == [] then None
    else if s[0] == c then Some(0)
    else match IndexOf(s[1..], c)
      case None => None
      case Some(k) => Some(k + 1)
  }

  /** The last position of `c` in `s`, if any. */
  function LastIndexOf(s: string, c: char): (r: Option<nat>)
    ensures r.None? ==> forall i | 0 <= i < |s| :: s[i] != c
    ensures r.Some? ==> r.value < |s| && s[r.value] == c
    ensures r.Some? ==> forall i | r.value < i < |s| :: s[i] != c
  {
    if s == [] then None
    else if s[|s| - 1] == c then Some(|s| - 1)
    else LastIndexOf(s[..|s| - 1], c)
  }

  /** Decides the email pattern without backtracking: no class before the
      `@` admits an `@`, and no letter after the `.` is a `.`, so the only
      candidates are the first `@` and the last `.`. */
  predicate IsEmailFormat(s: string) {
    match (IndexOf(s, '@'), LastIndexOf(s, '.'))
    case (Some(at), Some(dot)) => EmailSplit(s, at, dot)
    case _ => false
  }

  /** The deterministic check accepts exactly the strings the pattern matches. */
  lemma EmailFormatIsPattern(s: string)
    ensures IsEmailFormat(s) <==> MatchesEmailPattern(s)
  {
    if MatchesEmailPattern(s) {
      var at: nat, dot: nat :| EmailSplit(s, at, dot);
      var first := IndexOf(s, '@');
      var last := LastIndexOf(s, '.');
      assert first.Some?;
      assert !IsLocalChar('@') && !IsLetter('.');
      assert first.value == at;
      assert last.Some?;
      assert last.value == dot;
    }
  }

  /** `_validate_email`: a blank email is required, a non-blank one must match
      the pattern once stripped; success carries no message. */
  function ValidateEmail(email: string): (r: (bool, string))
    ensures IsBlank(email) ==> r == (false, EmailRequired)
    ensures !IsBlank(email) && !MatchesEmailPattern(Trim(email)) ==> r == (false, InvalidEmailFormat)
    ensures !IsBlank(email) && MatchesEmailPattern(Trim(email)) ==> r == (true, "")
  {
    EmailFormatIsPattern(Trim(email));
    if email == [] || Trim(email) == [] then (false, EmailRequired)
    else if !IsEmailFormat(Trim(email)) then (false, InvalidEmailFormat)
    else (true, "")
  }

  /** `_normalize_email`: `email.lower().strip()`, which is the same as
      stripping first and lower-casing after; no upper-case letter is left
      and the result is empty exactly for a blank email. */
  function NormalizeEmail(email: string): (r: string)
    ensures r == ToLower(Trim(email))
    ensures forall i | 0 <= i < |r| :: !IsUpper(r[i])
    ensures r == [] <==> IsBlank(email)
  {
    TrimToLower(email);
    Trim(ToLower(email))
  }

  lemma NormalizeEmailIdempotent(email: string)
    ensures NormalizeEmail(NormalizeEmail(email)) == NormalizeEmail(email)
  {
    var n := NormalizeEmail(email);
    LowerCaseFixed(n);
    assert ToLower(n) == n;
    TrimIdempotent(ToLower(email));
    assert Trim(n) == n;
  }

  lemma LowerCaseFixed(s: string)
    requires forall i | 0 <= i < |s| :: !IsUpper(s[i])
    ensures ToLower(s) == s
  {
    var l := ToLower(s);
    assert forall i | 0 <= i < |s| :: l[i] == s[i];
  }

  lemma LowerCharKeepsClasses(c: char)
    ensures IsLocalChar(LowerChar(c)) == IsLocalChar(c)
    ensures IsDomainChar(LowerChar(c)) == IsDomainChar(c)
    ensures IsLetter(LowerChar(c)) == IsLetter(c)
  {
    if IsUpper(c) {
      assert 'a' <= LowerChar(c) <= 'z';
    }
  }

  lemma RunsIgnoreCase(s: string, lo: nat, hi: nat)
    requires lo <= hi <= |s|
    ensures LocalRun(ToLower(s), lo, hi) <==> LocalRun(s, lo, hi)
    ensures DomainRun(ToLower(s), lo, hi) <==> DomainRun(s, lo, hi)
    ensures LetterRun(ToLower(s), lo, hi) <==> LetterRun(s, lo, hi)
  {
    var l := ToLower(s);
    forall i | lo <= i < hi
      ensures IsLocalChar(l[i]) == IsLocalChar(s[i])
      ensures IsDomainChar(l[i]) == IsDomainChar(s[i])
      ensures IsLetter(l[i]) == IsLetter(s[i])
    {
      LowerCharKeepsClasses(s[i]);
    }
  }

  lemma SplitIgnoresCase(s: string, at: nat, dot: nat)
    ensures EmailSplit(ToLower(s), at, dot) <==> EmailSplit(s, at, dot)
  {
    if 0 < at && at + 1 < dot && dot + 2 < |s| {
      RunsIgnoreCase(s, 0, at);
      RunsIgnoreCase(s, at + 1, dot);
      RunsIgnoreCase(s, dot + 1, |s|);
      LowerCharKeepsClasses(s[at]);
      LowerCharKeepsClasses(s[dot]);
    }
  }

  /** The pattern's classes are closed under ASCII lower-casing, and `@`
      and `.` are kept, so the pattern cannot tell a string from its
      lower-cased form. */
  lemma PatternIgnoresCase(s: string)
    ensures MatchesEmailPattern(ToLower(s)) <==> MatchesEmailPattern(s)
  {
    if MatchesEmailPattern(s) {
      var at: nat, dot: nat :| EmailSplit(s, at, dot);
      SplitIgnoresCase(s, at, dot);
    }
    if MatchesEmailPattern(ToLower(s)) {
      var at: nat, dot: nat :| EmailSplit(ToLower(s), at, dot);
      SplitIgnoresCase(s, at, dot);
    }
  }

  /** Normalising an email never changes the verdict of validation: a valid
      email stays valid (so every stored email matches the pattern), and an
      invalid one stays invalid for the same reason. */
  lemma ValidationIgnoresNormalization(email: string)
    ensures ValidateEmail(NormalizeEmail(email)) == ValidateEmail(email)
  {
    var t := Trim(email);
    var n := NormalizeEmail(email);
    if !IsBlank(email) {
      assert n[0] == LowerChar(t[0]);
      assert !IsBlank(n);
      TrimIdempotent(ToLower(email));
      PatternIgnoresCase(t);
    }
  }

  /** `_normalize_name`: a missing or blank name becomes "Subscriber", any
      other name is stripped; the result is never empty and has no
      whitespace at either end. */
  function NormalizeName(name: Option<string>): (r: string)
    ensures r != [] && !IsSpace(r[0]) && !IsSpace(r[|r| - 1])
    ensures name.None? || IsBlank(name.value) ==> r == DefaultName
    ensures name.Some? && !IsBlank(name.value) ==> r == Trim(name.value)
  {
    if name.None? || name.value == [] || Trim(name.value) == [] then DefaultName
    else Trim(name.value)
  }

  lemma NormalizeNameIdempotent(name: Option<string>)
    ensures NormalizeName(Some(NormalizeName(name))) == NormalizeName(name)
  {
    var r := NormalizeName(name);
    TrimUnique(r, 0, |r|);
  }

  lemma BlankEmailExamples()
    ensures ValidateEmail("") == (false, EmailRequired)
    ensures ValidateEmail("   ") == (false, EmailRequired)
  {
  }

  lemma MalformedEmailExample()
    ensures ValidateEmail("not-an-email") == (false, InvalidEmailFormat)
  {
    var s := "not-an-email";
    assert !IsSpace(s[0]) && !IsSpace(s[|s| - 1]);
    TrimKeeps(s);
    assert forall i | 0 <= i < |s| :: s[i] != '@';
    NoAtNoMatch(s);
  }

  /** Without an `@` there is nothing for the pattern to match. */
  lemma NoAtNoMatch(s: string)
    requires forall i | 0 <= i < |s| :: s[i] != '@'
    ensures !MatchesEmailPattern(s)
  {
  }

  lemma AcceptedEmailExample()
    ensures ValidateEmail("user@example.com") == (true, "")
  {
    var local, domain, top := "user", "example", "com";
    var s := local + "@" + domain + "." + top;
    assert s == "user@example.com";
    assert LocalRun(s, 0, 4) by {
      forall i | 0 <= i < 4 ensures IsLocalChar(s[i]) { assert s[i] == local[i]; }
    }
    assert DomainRun(s, 5, 12) by {
      forall i | 5 <= i < 12 ensures IsDomainChar(s[i]) { assert s[i] == domain[i - 5]; }
    }
    assert LetterRun(s, 13, 16) by {
      forall i | 13 <= i < 16 ensures IsLetter(s[i]) { assert s[i] == top[i - 13]; }
    }
    assert EmailSplit(s, 4, 12);
    assert !IsSpace(s[0]) && !IsSpace(s[15]);
    TrimKeeps(s);
  }

  lemma BlankNameExamples()
    ensures NormalizeName(Some("")) == DefaultName
    ensures NormalizeName(Some("   ")) == DefaultName
  {
  }

  lemma PaddedNameExample()
    ensures NormalizeName(Some("  John Doe  ")) == "John Doe"
  {
    var pad, body := "  ", "John Doe";
    var s := pad + body + pad;
    assert s == "  John Doe  ";
    assert s[2] == body[0] && s[9] == body[7];
    TrimUnique(s, 2, 10);
    assert s[2..10] == body;
  }
}
