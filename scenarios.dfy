/** filter_metadata::filter on concrete texts: tokens it rewrites and near
 *  misses it leaves alone. */
module FilterScenarios {
  import opened MetadataPattern
  import opened MetadataFilter
  import opened FilterProperties

  // ---------------------------------------------------------------------------
  // Where MatchAt gives up

  /** The letter run at i is exactly s[i..j]. */
  lemma LetterRunIs(s: string, i: nat, j: nat)
    requires i <= j <= |s|
    requires forall k | i <= k < j :: IsLetter(s[k])
    requires j == |s| || !IsLetter(s[j])
    ensures LetterRunEnd(s, i) == j
  {
  }

  /** The word run at i is exactly s[i..j]. */
  lemma WordRunIs(s: string, i: nat, j: nat)
    requires i <= j <= |s|
    requires forall k | i <= k < j :: IsWordChar(s[k])
    requires j == |s| || !IsWordChar(s[j])
    ensures WordRunEnd(s, i) == j
  {
  }

  /** No letter follows the opening "{{metadata::". */
  lemma RejectsEmptyCategory(s: string, i: nat)
    requires i + |Open| <= |s|
    requires i + |Open| == |s| || !IsLetter(s[i + |Open|])
    ensures MatchAt(s, i).None?
  {
  }

  /** The category, read up to position c, is not followed by "::" (one
   *  failing branch of MatchAt, used by the scenarios below). */
  lemma RejectsNoSeparator(s: string, i: nat, c: nat)
    requires i + |Open| <= |s| && s[i..i + |Open|] == Open
    requires c == SuffixEnd(s, LetterRunEnd(s, i + |Open|))
    requires !HasAt(s, c, Sep)
    ensures MatchAt(s, i).None?
  {
  }

  /** The category and "::" are followed by no field character (one failing
   *  branch of MatchAt, used by the scenarios below). */
  lemma RejectsEmptyField(s: string, i: nat, c: nat)
    requires i + |Open| <= |s| && s[i..i + |Open|] == Open
    requires c == SuffixEnd(s, LetterRunEnd(s, i + |Open|))
    requires c + |Sep| <= |s| && WordRunEnd(s, c + |Sep|) == c + |Sep|
    ensures MatchAt(s, i).None?
  {
  }

  /** The field, read up to position e, is not followed by "}}" (one failing
   *  branch of MatchAt, used by the scenarios below). */
  lemma RejectsNoClose(s: string, i: nat, c: nat, e: nat)
    requires i + |Open| <= |s| && s[i..i + |Open|] == Open
    requires c == SuffixEnd(s, LetterRunEnd(s, i + |Open|))
    requires c + |Sep| <= |s| && e == WordRunEnd(s, c + |Sep|)
    requires !HasAt(s, e, Close)
    ensures MatchAt(s, i).None?
  {
  }

  /** A slice that is p + q holds p at its start and q right after it. */
  lemma PartsAt(s: string, i: nat, j: nat, p: string, q: string)
    requires i <= j <= |s| && s[i..j] == p + q
    ensures HasAt(s, i, p) && HasAt(s, i + |p|, q)
  {
    SliceOfSlice(s, i, j, 0, |p|);
    ConcatSliceLeft(p, q, 0, |p|);
    assert p[0..|p|] == p;
    SliceOfSlice(s, i, j, |p|, j - i);
    ConcatSliceRight(p, q, |p|, |p| + |q|);
    assert q[0..|q|] == q;
  }

  /** A token written at i, read piece by piece from its start. */
  lemma TokenLayout(s: string, i: nat, j: nat, c: string, f: string)
    requires i <= j <= |s| && s[i..j] == Token(c, f) && IsField(f)
    ensures HasAt(s, i, Open + c) && HasAt(s, i, Open + c + Sep)
    ensures HasAt(s, i, Open + c + Sep + f) && HasAt(s, i + |Open + c + Sep + f|, Close)
    ensures i + |Open + c + Sep| < |s| && IsWordChar(s[i + |Open + c + Sep|])
  {
    var d := i + |Open + c + Sep|;
    assert Token(c, f) == (Open + c) + (Sep + f + Close);
    PartsAt(s, i, j, Open + c, Sep + f + Close);
    assert Token(c, f) == (Open + c + Sep) + (f + Close);
    PartsAt(s, i, j, Open + c + Sep, f + Close);
    assert s[d] == s[d..d + |f + Close|][0] == (f + Close)[0] == f[0];
    assert Token(c, f) == (Open + c + Sep + f) + Close;
    PartsAt(s, i, j, Open + c + Sep + f, Close);
  }

  /** The token MatchAt finds at i, read piece by piece from its start. */
  lemma MatchLayout(s: string, i: nat)
    requires i <= |s| && MatchAt(s, i).Some?
    ensures var c := MatchAt(s, i).value.category; var f := MatchAt(s, i).value.field;
      IsCategory(c) && IsField(f) && HasAt(s, i, Open + c) && HasAt(s, i, Open + c + Sep)
      && HasAt(s, i, Open + c + Sep + f) && HasAt(s, i + |Open + c + Sep + f|, Close)
      && i + |Open + c + Sep| < |s| && IsWordChar(s[i + |Open + c + Sep|])
  {
    var m := MatchAt(s, i).value;
    TokenLayout(s, i, m.end, m.category, m.field);
  }

  /** No category written after the opening "{{metadata::" at i is followed
   *  by "::": nothing matches at i. */
  lemma NoMatchWithoutSeparator(s: string, i: nat)
    requires i <= |s|
    requires forall c | IsCategory(c) && HasAt(s, i, Open + c) ::
      !HasAt(s, i + |Open + c|, Sep)
    ensures MatchAt(s, i).None?
  {
    if MatchAt(s, i).Some? {
      MatchLayout(s, i);
    }
  }

  /** Every category written after the opening at i and followed by "::" is
   *  followed by no field character: nothing matches at i. */
  lemma NoMatchWithoutField(s: string, i: nat)
    requires i <= |s|
    requires forall c | IsCategory(c) && HasAt(s, i, Open + c + Sep) ::
      i + |Open + c + Sep| == |s| || !IsWordChar(s[i + |Open + c + Sep|])
    ensures MatchAt(s, i).None?
  {
    if MatchAt(s, i).Some? {
      MatchLayout(s, i);
    }
  }

  /** No category and field written after the opening at i, with "::"
   *  between them, are followed by "}}": nothing matches at i. */
  lemma NoMatchWithoutClose(s: string, i: nat)
    requires i <= |s|
    requires forall c, f | IsCategory(c) && IsField(f) && HasAt(s, i, Open + c + Sep + f) ::
      !HasAt(s, i + |Open + c + Sep + f|, Close)
    ensures MatchAt(s, i).None?
  {
    if MatchAt(s, i).Some? {
      MatchLayout(s, i);
    }
  }

  /** "::" is not at c when the character at c is not ':'. */
  lemma NoSepWhereNoColon(s: string, c: nat)
    requires c < |s| && s[c] != ':'
    ensures !HasAt(s, c, Sep)
  {
    if HasAt(s, c, Sep) {
      SepStartsWithColon(s, c);
    }
  }

  /** "}}" is not at e when the text ends too early or the character at e is
   *  not '}'. */
  lemma NoCloseWhereNoBrace(s: string, e: nat)
    requires e + |Close| > |s| || s[e] != '}'
    ensures !HasAt(s, e, Close)
  {
    if HasAt(s, e, Close) {
      CloseStartsWithBrace(s, e);
    }
  }

  /** A text with no '{' past its second character holds no token that
   *  starts after its first character. */
  lemma NoTokenPastFirst(s: string)
    requires 2 <= |s| && forall k | 2 <= k < |s| :: s[k] != '{'
    ensures NoTokenStartsIn(s, 1, |s|)
  {
    forall p, q, c, f | 1 <= p < |s| && p <= q <= |s| && IsCategory(c) && IsField(f)
      ensures s[p..q] != Token(c, f)
    {
      TokenShape(c, f);
      if q - p >= 2 {
        assert s[p..q][1] == s[p + 1];
      }
    }
  }

  /** A text that MatchAt rejects at position 0 and that has no '{' past its
   *  second character is returned unchanged. */
  lemma UnchangedWhenFirstFails(s: string)
    requires 2 <= |s| && MatchAt(s, 0).None?
    requires forall k | 2 <= k < |s| :: s[k] != '{'
    ensures Filter(s, false) == s
  {
    NoTokenWhereNoMatch(s, 0);
    NoTokenPastFirst(s);
    IdentityIffTokenFree(s);
  }

  // ---------------------------------------------------------------------------
  // Categories

  /** A string with a digit not directly after an '=' is not a category. */
  lemma DigitAfterDigitRejected(c: string, k: nat)
    requires 1 <= k < |c| && IsDigit(c[k]) && c[k - 1] != '='
    ensures !IsCategory(c)
  {
    if IsCategory(c) {
      InstanceDigitsAreSingle(c);
    }
  }

  /** The instance id in the source comment's example has three digits, which
   *  the pattern does not accept. */
  lemma MultiDigitInstanceRejected(c: string)
    requires c == "course=234"
    ensures !IsCategory(c)
  {
    DigitAfterDigitRejected(c, 8);
  }

  /** Two one-digit instance selectors in a row are accepted. */
  lemma TwoInstanceSelectorsAccepted(c: string)
    requires c == "course=2=3"
    ensures IsCategory(c)
  {
    assert c == "course" + "=2=3";
    assert IsInstanceSuffix("=2=3"[2..]);
    LettersThenSuffix("course", "=2=3");
  }

  // ---------------------------------------------------------------------------
  // Whole texts. Each text is a parameter fixed by the precondition, and the
  // facts about its characters are established one lemma at a time.

  lemma CourseInstanceTwoCategory(c: string)
    requires c == "course=2"
    ensures IsCategory(c)
  {
    assert IsInstanceSuffix(c[6..][2..]);
    assert c == c[..6] + c[6..];
    LettersThenSuffix(c[..6], c[6..]);
  }

  lemma CourseCategory(c: string)
    requires c == "course"
    ensures IsCategory(c)
  {
    LettersThenSuffix(c, []);
    assert c + [] == c;
  }

  lemma CreditsField(f: string)
    requires f == "credits"
    ensures IsField(f)
  {
  }

  lemma CourseInstanceTwoText(s: string, c: string, f: string)
    requires s == "{{metadata::course=2::credits}}" && c == "course=2" && f == "credits"
    ensures s == Token(c, f) && c + " = " + f == "course=2 = credits"
  {
  }

  /** A token with one instance selector becomes "<category> = <field>". */
  lemma CourseInstanceTwo(s: string, c: string, f: string)
    requires s == "{{metadata::course=2::credits}}" && c == "course=2" && f == "credits"
    ensures Filter(s, false) == "course=2 = credits"
  {
    CourseInstanceTwoCategory(c);
    CreditsField(f);
    CourseInstanceTwoText(s, c, f);
    LoneToken(c, f);
  }

  lemma XField(f: string)
    requires f == "x"
    ensures IsField(f)
  {
  }

  lemma TwoInstanceSelectorsText(s: string, c: string, f: string)
    requires s == "{{metadata::course=2=3::x}}" && c == "course=2=3" && f == "x"
    ensures s == Token(c, f) && c + " = " + f == "course=2=3 = x"
  {
  }

  /** A token with two instance selectors becomes "<category> = <field>". */
  lemma TwoInstanceSelectors(s: string, c: string, f: string)
    requires s == "{{metadata::course=2=3::x}}" && c == "course=2=3" && f == "x"
    ensures Filter(s, false) == "course=2=3 = x"
  {
    TwoInstanceSelectorsAccepted(c);
    XField(f);
    TwoInstanceSelectorsText(s, c, f);
    LoneToken(c, f);
  }

  lemma TextAroundTokenPieces(a: string, c: string, f: string, b: string)
    requires a == "Credits: " && c == "course" && f == "credits" && b == "!"
    ensures (forall k | 0 <= k < |a| :: a[k] != '{') && (forall k | 0 <= k < |b| :: b[k] != '{')
    ensures a + (c + " = " + f) + b == "Credits: course = credits!"
  {
  }

  /** Text around a token is copied; the token alone is rewritten. */
  lemma TextAroundTokenCopied(a: string, c: string, f: string, b: string)
    requires a == "Credits: " && c == "course" && f == "credits" && b == "!"
    ensures Filter(a + Token(c, f) + b, false) == "Credits: course = credits!"
  {
    CourseCategory(c);
    CreditsField(f);
    TextAroundTokenPieces(a, c, f, b);
    TokenInPlainText(a, c, f, b);
  }

  lemma MultiDigitOpening(s: string)
    requires s == "{{metadata::course=234::credits}}"
    ensures s[0..12] == Open && forall k | 2 <= k < |s| :: s[k] != '{'
  {
  }

  lemma MultiDigitLetterRun(s: string)
    requires s == "{{metadata::course=234::credits}}"
    ensures LetterRunEnd(s, 12) == 18
  {
    LetterRunIs(s, 12, 18);
  }

  lemma MultiDigitSuffixRun(s: string)
    requires s == "{{metadata::course=234::credits}}"
    ensures SuffixEnd(s, 18) == 20 && s[20] != ':'
  {
  }

  /** The example in the source comment: a three-digit instance id leaves the
   *  token as it is. */
  lemma MultiDigitInstanceStaysLiteral(s: string)
    requires s == "{{metadata::course=234::credits}}"
    ensures Filter(s, false) == s
  {
    MultiDigitOpening(s);
    MultiDigitLetterRun(s);
    MultiDigitSuffixRun(s);
    NoSepWhereNoColon(s, 20);
    RejectsNoSeparator(s, 0, 20);
    UnchangedWhenFirstFails(s);
  }

  lemma HyphenOpening(s: string)
    requires s == "{{metadata::my-course::credits}}"
    ensures s[0..12] == Open && forall k | 2 <= k < |s| :: s[k] != '{'
  {
  }

  lemma HyphenCategoryRun(s: string)
    requires s == "{{metadata::my-course::credits}}"
    ensures LetterRunEnd(s, 12) == 14 && SuffixEnd(s, 14) == 14 && s[14] != ':'
  {
    LetterRunIs(s, 12, 14);
  }

  /** A hyphen is not a category character. */
  lemma HyphenStaysLiteral(s: string)
    requires s == "{{metadata::my-course::credits}}"
    ensures Filter(s, false) == s
  {
    HyphenOpening(s);
    HyphenCategoryRun(s);
    NoSepWhereNoColon(s, 14);
    RejectsNoSeparator(s, 0, 14);
    UnchangedWhenFirstFails(s);
  }

  lemma EmptyCategoryOpening(s: string)
    requires s == "{{metadata::::credits}}"
    ensures s[0..12] == Open && forall k | 2 <= k < |s| :: s[k] != '{'
    ensures !IsLetter(s[12])
  {
  }

  /** The category may not be empty. */
  lemma EmptyCategoryStaysLiteral(s: string)
    requires s == "{{metadata::::credits}}"
    ensures Filter(s, false) == s
  {
    EmptyCategoryOpening(s);
    RejectsEmptyCategory(s, 0);
    UnchangedWhenFirstFails(s);
  }

  lemma EmptyFieldOpening(s: string)
    requires s == "{{metadata::course::}}"
    ensures s[0..12] == Open && forall k | 2 <= k < |s| :: s[k] != '{'
  {
  }

  lemma EmptyFieldRuns(s: string)
    requires s == "{{metadata::course::}}"
    ensures LetterRunEnd(s, 12) == 18 && SuffixEnd(s, 18) == 18 && WordRunEnd(s, 20) == 20
  {
    LetterRunIs(s, 12, 18);
  }

  /** The field may not be empty. */
  lemma EmptyFieldStaysLiteral(s: string)
    requires s == "{{metadata::course::}}"
    ensures Filter(s, false) == s
  {
    EmptyFieldOpening(s);
    EmptyFieldRuns(s);
    RejectsEmptyField(s, 0, 18);
    UnchangedWhenFirstFails(s);
  }

  lemma MissingCloseOpening(s: string)
    requires s == "{{metadata::course::credits}"
    ensures s[0..12] == Open && forall k | 2 <= k < |s| :: s[k] != '{'
  {
  }

  lemma MissingCloseCategoryRun(s: string)
    requires s == "{{metadata::course::credits}"
    ensures LetterRunEnd(s, 12) == 18 && SuffixEnd(s, 18) == 18
  {
    LetterRunIs(s, 12, 18);
  }

  lemma MissingCloseFieldRun(s: string)
    requires s == "{{metadata::course::credits}"
    ensures WordRunEnd(s, 20) == 27 && |s| == 28
  {
    WordRunIs(s, 20, 27);
  }

  /** A token needs both closing braces. */
  lemma MissingCloseStaysLiteral(s: string)
    requires s == "{{metadata::course::credits}"
    ensures Filter(s, false) == s
  {
    MissingCloseOpening(s);
    MissingCloseCategoryRun(s);
    MissingCloseFieldRun(s);
    NoCloseWhereNoBrace(s, 27);
    RejectsNoClose(s, 0, 18, 27);
    UnchangedWhenFirstFails(s);
  }

  lemma SpaceOpening(s: string)
    requires s == "{{metadata::course::credit points}}"
    ensures s[0..12] == Open && forall k | 2 <= k < |s| :: s[k] != '{'
  {
  }

  lemma SpaceCategoryRun(s: string)
    requires s == "{{metadata::course::credit points}}"
    ensures LetterRunEnd(s, 12) == 18 && SuffixEnd(s, 18) == 18
  {
    LetterRunIs(s, 12, 18);
  }

  lemma SpaceFieldRun(s: string)
    requires s == "{{metadata::course::credit points}}"
    ensures WordRunEnd(s, 20) == 26 && s[26] != '}'
  {
    WordRunIs(s, 20, 26);
  }

  /** A space is not a field character. */
  lemma SpaceStaysLiteral(s: string)
    requires s == "{{metadata::course::credit points}}"
    ensures Filter(s, false) == s
  {
    SpaceOpening(s);
    SpaceCategoryRun(s);
    SpaceFieldRun(s);
    NoCloseWhereNoBrace(s, 26);
    RejectsNoClose(s, 0, 18, 26);
    UnchangedWhenFirstFails(s);
  }
}
