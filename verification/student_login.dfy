/** The student profile form (`components/StudentLogin.tsx`): every field must
    be non-blank, the e-mail must match the form's pattern, and the profile
    built from it carries the trimmed fields. */
module StudentLogin {
  import opened Wrappers
  import opened Types
  import opened Strings

  const IncompleteError: string := "Please complete your student profile."
  const EmailError: string := "Please enter a valid university email."
  const IdPrefix: string := "student-"

  /** A non-empty run of characters that are neither whitespace nor `@`:
      the `[^\s@]+` of the e-mail pattern. */
  ghost predicate Token(s: string) {
    |s| > 0 && forall k | 0 <= k < |s| :: !IsWhitespace(s[k]) && s[k] != '@'
  }

  /** The whole-string pattern `^[^\s@]+@[^\s@]+\.[^\s@]+$`: a token, an `@`,
      a token, a dot and a token, with `i` the `@` and `j` the dot. */
  ghost predicate MatchesEmailPattern(s: string) {
    exists i, j | 0 < i < j < |s| ::
      s[i] == '@' && s[j] == '.' && Token(s[..i]) && Token(s[i + 1..j]) && Token(s[j + 1..])
  }

  /** `validateEmail`: no whitespace, exactly one `@` (its first and last
      occurrence coincide) with something before it, and after it a dot that
      has text on both sides. */
  predicate ValidEmail(s: string) {
    && (forall k | 0 <= k < |s| :: !IsWhitespace(s[k]))
    && var i := IndexOf(s, '@');
       && 0 < i
       && i == LastIndexOf(s, '@')
       && exists j | i + 1 < j < |s| - 1 :: s[j] == '.'
  }

  lemma TokenOfSlice(s: string, lo: int, hi: int)
    requires 0 <= lo < hi <= |s|
    requires forall k | lo <= k < hi :: !IsWhitespace(s[k]) && s[k] != '@'
    ensures Token(s[lo..hi])
  {
  }

  lemma ValidEmailMatches(s: string)
    requires ValidEmail(s)
    ensures MatchesEmailPattern(s)
  {
    var i := IndexOf(s, '@');
    var j :| i + 1 < j < |s| - 1 && s[j] == '.';
    TokenOfSlice(s, 0, i);
    TokenOfSlice(s, i + 1, j);
    TokenOfSlice(s, j + 1, |s|);
  }

  /** The characters of a pattern match: no whitespace, and `@` only at `i`. */
  lemma PatternCharacters(s: string, i: int, j: int)
    requires 0 < i < j < |s| && s[i] == '@' && s[j] == '.'
    requires Token(s[..i]) && Token(s[i + 1..j]) && Token(s[j + 1..])
    ensures forall k | 0 <= k < |s| :: !IsWhitespace(s[k]) && (s[k] == '@' ==> k == i)
  {
    forall k | 0 <= k < |s| ensures !IsWhitespace(s[k]) && (s[k] == '@' ==> k == i) {
      if k < i { assert s[..i][k] == s[k]; }
      else if i < k < j { assert s[i + 1..j][k - i - 1] == s[k]; }
      else if j < k { assert s[j + 1..][k - j - 1] == s[k]; }
    }
  }

  lemma PatternIsValid(s: string)
    requires MatchesEmailPattern(s)
    ensures ValidEmail(s)
  {
    var i, j :| 0 < i < j < |s| && s[i] == '@' && s[j] == '.'
               && Token(s[..i]) && Token(s[i + 1..j]) && Token(s[j + 1..]);
    PatternCharacters(s, i, j);
    assert IndexOf(s, '@') == i;
    assert LastIndexOf(s, '@') == i;
    assert s[j + 1..][0] == s[j + 1];
  }

  /** The validator accepts exactly the strings the pattern matches. */
  lemma ValidEmailIffPattern(s: string)
    ensures ValidEmail(s) <==> MatchesEmailPattern(s)
  {
    if ValidEmail(s) { ValidEmailMatches(s); }
    if MatchesEmailPattern(s) { PatternIsValid(s); }
  }

  /** A valid address has nothing to trim and is not blank. */
  lemma ValidEmailIsTrimmed(s: string)
    ensures ValidEmail(s) ==> Trim(s) == s && s != []
  {
    if ValidEmail(s) { TrimKeepsUnspaced(s); }
  }

  /** `handleSubmit`: the completeness check on trimmed fields comes first, so
      a blank field never reports the e-mail error; the e-mail pattern is then
      applied to the untrimmed input; a passing form yields a `User` profile of
      trimmed fields whose id is `student-` followed by the timestamp text. */
  function HandleSubmit(name: string, email: string, rollNo: string, stamp: string): (r: Result<UserProfile>)
    ensures r == Err(IncompleteError) <==> Trim(name) == [] || Trim(email) == [] || Trim(rollNo) == []
    ensures r == Err(EmailError) <==>
              Trim(name) != [] && Trim(email) != [] && Trim(rollNo) != [] && !ValidEmail(email)
    ensures r.Ok? <==>
              Trim(name) != [] && Trim(rollNo) != [] && MatchesEmailPattern(email)
    ensures r.Ok? ==>
              && r.value.id == IdPrefix + stamp
              && r.value.username == Trim(name)
              && r.value.email == Some(Trim(email))
              && r.value.rollNo == Some(Trim(rollNo))
              && r.value.role == User
  {
    ValidEmailIffPattern(email);
    ValidEmailIsTrimmed(email);
    if Trim(name) == [] || Trim(email) == [] || Trim(rollNo) == [] then Err(IncompleteError)
    else if !ValidEmail(email) then Err(EmailError)
    else Ok(UserProfile(IdPrefix + stamp, Trim(name), Some(Trim(email)), Some(Trim(rollNo)), User))
  }

  /** The profile's e-mail is exactly the typed e-mail: a valid one has no
      whitespace to trim. */
  lemma ProfileEmailIsTyped(name: string, email: string, rollNo: string, stamp: string)
    requires HandleSubmit(name, email, rollNo, stamp).Ok?
    ensures HandleSubmit(name, email, rollNo, stamp).value.email == Some(email)
    ensures MatchesEmailPattern(email)
  {
    TrimKeepsUnspaced(email);
  }

  /** Because the pattern sees the untrimmed input, a valid address typed with
      a leading space is rejected with the e-mail error, although its trimmed
      form is valid. */
  lemma PaddedEmailIsRejected(name: string, email: string, rollNo: string, stamp: string)
    requires Trim(name) != [] && Trim(rollNo) != []
    requires ValidEmail(email)
    ensures HandleSubmit(name, email, rollNo, stamp).Ok?
    ensures HandleSubmit(name, [' '] + email, rollNo, stamp) == Err(EmailError)
  {
    ValidEmailIffPattern(email);
    var padded := [' '] + email;
    assert !ValidEmail(padded) by { assert IsWhitespace(padded[0]); }
    assert Trim(padded) != [] by {
      TrimEmptyIffBlank(padded);
      var i := IndexOf(email, '@');
      assert padded[i + 1] == '@';
    }
  }
}
