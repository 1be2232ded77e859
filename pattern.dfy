/** The placeholder grammar of filter_metadata and a recogniser for it.
 *
 *  The filter looks for tokens matching the PCRE pattern
 *    {{metadata::([a-zA-Z_]+(?:=[0-9])*)::([a-zA-Z0-9_]+)}}     (modifier /U)
 *  Group 1 is the category (a context name with optional "=digit" instance
 *  selectors), group 2 the field short name.
 *
 *  The ungreedy modifier does not change which text a match at a given start
 *  covers: none of the character classes contains '=', ':' or '}', so every
 *  lazy repetition can only stop where the next literal of the pattern begins,
 *  which is the end of the longest run. The recogniser below therefore uses
 *  longest runs.
 */
module MetadataPattern {

  datatype Option<T> = None | Some(value: T)

  /** One match of the pattern: the matched text is s[start..end]; category and
   *  field are capture groups 1 and 2. */
  datatype Match = Match(start: nat, end: nat, category: string, field: string)

  const Open: string := "{{metadata::"
  const Sep: string := "::"
  const Close: string := "}}"

  /** The class [a-zA-Z_]. */
  predicate IsLetter(c: char) {
    'a' <= c <= 'z' || 'A' <= c <= 'Z' || c == '_'
  }

  /** The class [0-9]. */
  predicate IsDigit(c: char) {
    '0' <= c <= '9'
  }

  /** The class [a-zA-Z0-9_]. */
  predicate IsWordChar(c: char) {
    IsLetter(c) || IsDigit(c)
  }

  /** (?:=[0-9])* : zero or more instance selectors, each '=' and ONE digit. */
  predicate IsInstanceSuffix(t: string)
    decreases |t|
  {
    t == [] || (|t| >= 2 && t[0] == '=' && IsDigit(t[1]) && IsInstanceSuffix(t[2..]))
  }

  /** Capture group 1, [a-zA-Z_]+(?:=[0-9])* : a letter, followed either by more
   *  of a category or by the instance suffix. */
  predicate IsCategory(c: string)
    decreases |c|
  {
    |c| > 0 && IsLetter(c[0]) && (IsCategory(c[1..]) || IsInstanceSuffix(c[1..]))
  }

  /** Capture group 2, [a-zA-Z0-9_]+ . */
  predicate IsField(f: string) {
    |f| > 0 && forall k | 0 <= k < |f| :: IsWordChar(f[k])
  }

  /** The text of the token whose groups are category and field. */
  function Token(category: string, field: string): string {
    Open + category + Sep + field + Close
  }

  /** In an instance suffix every digit directly follows an '='. */
  lemma {:induction false} SuffixDigitsFollowEquals(t: string)
    requires IsInstanceSuffix(t)
    ensures forall k | 0 <= k < |t| :: IsDigit(t[k]) ==> k >= 1 && t[k - 1] == '='
    decreases |t|
  {
    if t != [] {
      SuffixDigitsFollowEquals(t[2..]);
      assert forall k | 2 <= k < |t| :: t[k] == t[2..][k - 2];
    }
  }

  /** Each instance selector of a category is a single digit: a digit always
   *  directly follows an '=', so "course=234" is not a category. */
  lemma {:induction false} InstanceDigitsAreSingle(c: string)
    requires IsCategory(c)
    ensures forall k | 0 <= k < |c| :: IsDigit(c[k]) ==> k >= 1 && c[k - 1] == '='
    decreases |c|
  {
    if IsCategory(c[1..]) {
      InstanceDigitsAreSingle(c[1..]);
    } else {
      SuffixDigitsFollowEquals(c[1..]);
    }
    assert forall k | 1 <= k < |c| :: c[k] == c[1..][k - 1];
  }

  /** End of the longest run of [a-zA-Z_] that starts at i. */
  function LetterRunEnd(s: string, i: nat): (j: nat)
    requires i <= |s|
    ensures i <= j <= |s|
    ensures forall k | i <= k < j :: IsLetter(s[k])
    ensures j == |s| || !IsLetter(s[j])
    decreases |s| - i
  {
    if i < |s| && IsLetter(s[i]) then LetterRunEnd(s, i + 1) else i
  }

  /** End of the longest run of [a-zA-Z0-9_] that starts at i. */
  function WordRunEnd(s: string, i: nat): (j: nat)
    requires i <= |s|
    ensures i <= j <= |s|
    ensures forall k | i <= k < j :: IsWordChar(s[k])
    ensures j == |s| || !IsWordChar(s[j])
    decreases |s| - i
  {
    if i < |s| && IsWordChar(s[i]) then WordRunEnd(s, i + 1) else i
  }

  /** End of the longest instance suffix (?:=[0-9])* that starts at i. */
  function SuffixEnd(s: string, i: nat): (j: nat)
    requires i <= |s|
    ensures i <= j <= |s|
    ensures IsInstanceSuffix(s[i..j])
    ensures !(j + 1 < |s| && s[j] == '=' && IsDigit(s[j + 1]))
    decreases |s| - i
  {
    if i + 1 < |s| && s[i] == '=' && IsDigit(s[i + 1]) then
      var j := SuffixEnd(s, i + 2);
      assert s[i..j][2..] == s[i + 2..j];
      j
    else
      i
  }

  /** A non-empty run of letters followed by an instance suffix is a category. */
  lemma {:induction false} LettersThenSuffix(x: string, y: string)
    requires |x| > 0 && forall k | 0 <= k < |x| :: IsLetter(x[k])
    requires IsInstanceSuffix(y)
    ensures IsCategory(x + y)
    decreases |x|
  {
    if |x| == 1 {
      assert (x + y)[1..] == y;
    } else {
      LettersThenSuffix(x[1..], y);
      assert (x + y)[1..] == x[1..] + y;
    }
  }

  /** The pieces MatchAt checks one after the other make up a token. */
  lemma MatchParts(s: string, i: nat, b: nat, c: nat, e: nat)
    requires i + |Open| < b <= c && c + |Sep| < e && e + |Close| <= |s|
    requires s[i..i + |Open|] == Open && s[c..c + |Sep|] == Sep && s[e..e + |Close|] == Close
    requires forall k | i + |Open| <= k < b :: IsLetter(s[k])
    requires IsInstanceSuffix(s[b..c])
    requires forall k | c + |Sep| <= k < e :: IsWordChar(s[k])
    ensures IsCategory(s[i + |Open|..c]) && IsField(s[c + |Sep|..e])
    ensures s[i..e + |Close|] == Token(s[i + |Open|..c], s[c + |Sep|..e])
  {
    var a, d, end := i + |Open|, c + |Sep|, e + |Close|;
    LettersThenSuffix(s[a..b], s[b..c]);
    assert s[a..c] == s[a..b] + s[b..c];
    JoinSlices(s, i, a, c, d, e, end);
  }

  /** Consecutive slices of s join into the slice they cover. */
  lemma JoinSlices(s: string, i: nat, a: nat, c: nat, d: nat, e: nat, end: nat)
    requires i <= a <= c <= d <= e <= end <= |s|
    ensures s[i..end] == s[i..a] + s[a..c] + s[c..d] + s[d..e] + s[e..end]
  {
    assert s[i..end] == s[i..a] + s[a..end];
    assert s[a..end] == s[a..c] + s[c..end];
    assert s[c..end] == s[c..d] + s[d..end];
    assert s[d..end] == s[d..e] + s[e..end];
  }

  /** A slice of a slice is a slice of the whole. */
  lemma SliceOfSlice(s: string, i: nat, j: nat, p: nat, q: nat)
    requires i <= j <= |s| && p <= q <= j - i
    ensures s[i..j][p..q] == s[i + p..i + q]
  {
    assert forall k | 0 <= k < q - p :: s[i..j][p..q][k] == s[i + p + k];
  }

  /** A slice that lies in the left operand of a concatenation. */
  lemma ConcatSliceLeft(x: string, y: string, p: nat, q: nat)
    requires p <= q <= |x|
    ensures (x + y)[p..q] == x[p..q]
  {
    assert forall k | 0 <= k < q - p :: (x + y)[p..q][k] == x[p + k];
  }

  /** A slice that lies in the right operand of a concatenation. */
  lemma ConcatSliceRight(x: string, y: string, p: nat, q: nat)
    requires |x| <= p <= q <= |x| + |y|
    ensures (x + y)[p..q] == y[p - |x|..q - |x|]
  {
    assert forall k | 0 <= k < q - p :: (x + y)[p..q][k] == y[p - |x| + k];
  }

  /** The five pieces of a concatenation are its slices at the running lengths. */
  lemma SplitJoin(w: string, x1: string, x2: string, x3: string, x4: string, x5: string)
    requires w == x1 + x2 + x3 + x4 + x5
    ensures var n1 := |x1|; var n2 := n1 + |x2|; var n3 := n2 + |x3|; var n4 := n3 + |x4|;
      w[..n1] == x1 && w[n1..n2] == x2 && w[n2..n3] == x3 && w[n3..n4] == x4 && w[n4..] == x5
  {
    var n1 := |x1|;
    var n2 := n1 + |x2|;
    var n3 := n2 + |x3|;
    var n4 := n3 + |x4|;
    assert w[..n4] == x1 + x2 + x3 + x4;
    assert w[..n3] == x1 + x2 + x3;
    assert w[..n2] == x1 + x2;
  }

  /** The pattern tried at position i of s, as PCRE tries it: the match that
   *  starts at i, or None when the pattern does not match there. */
  function MatchAt(s: string, i: nat): (r: Option<Match>)
    requires i <= |s|
    ensures r.Some? ==> r.value.start == i && i < r.value.end <= |s|
    ensures r.Some? ==> IsCategory(r.value.category) && IsField(r.value.field)
    ensures r.Some? ==> s[i..r.value.end] == Token(r.value.category, r.value.field)
  {
    var a := i + |Open|;
    if !HasAt(s, i, Open) then None
    else
      var b := LetterRunEnd(s, a);
      var c := SuffixEnd(s, b);
      var d := c + |Sep|;
      if b == a || !HasAt(s, c, Sep) then None
      else
        var e := WordRunEnd(s, d);
        var end := e + |Close|;
        if e == d || !HasAt(s, e, Close) then None
        else
          MatchParts(s, i, b, c, e);
          Some(Match(i, end, s[a..c], s[d..e]))
  }

  /** s holds w at position i. */
  predicate HasAt(s: string, i: nat, w: string) {
    i + |w| <= |s| && s[i..i + |w|] == w
  }

  /** An instance suffix followed by ':' is consumed exactly by SuffixEnd. */
  lemma {:induction false} SuffixScan(s: string, b: nat, t: string)
    requires b + |t| < |s| && s[b..b + |t|] == t && s[b + |t|] == ':'
    requires IsInstanceSuffix(t)
    ensures SuffixEnd(s, b) == b + |t|
    decreases |t|
  {
    if t != [] {
      assert s[b] == t[0] && s[b + 1] == t[1];
      assert s[b + 2..b + |t|] == t[2..];
      SuffixScan(s, b + 2, t[2..]);
    }
  }

  /** A category followed by ':' is consumed exactly by the letter run and the
   *  instance suffix that MatchAt reads. */
  lemma {:induction false} CategoryScan(s: string, a: nat, c: string)
    requires a + |c| < |s| && s[a..a + |c|] == c && s[a + |c|] == ':'
    requires IsCategory(c)
    ensures a < LetterRunEnd(s, a) && SuffixEnd(s, LetterRunEnd(s, a)) == a + |c|
    decreases |c|
  {
    assert s[a] == c[0];
    assert s[a + 1..a + |c|] == c[1..];
    if |c| > 1 && IsLetter(c[1]) {
      assert !IsInstanceSuffix(c[1..]);
      CategoryScan(s, a + 1, c[1..]);
    } else {
      assert !IsCategory(c[1..]);
      assert s[a + 1] == if |c| > 1 then c[1] else ':';
      assert LetterRunEnd(s, a + 1) == a + 1;
      SuffixScan(s, a + 1, c[1..]);
    }
  }

  /** Where s holds a token, its five pieces are slices of s. */
  lemma TokenSlices(s: string, i: nat, j: nat, c: string, f: string)
    requires i <= j <= |s| && s[i..j] == Token(c, f)
    ensures var a := i + |Open|; var d := a + |c| + |Sep|; var e := d + |f|;
      j == e + |Close| && s[i..a] == Open && s[a..a + |c|] == c && s[a + |c|..d] == Sep
      && s[d..e] == f && s[e..j] == Close
  {
    var a := i + |Open|;
    var d := a + |c| + |Sep|;
    var e := d + |f|;
    var w := s[i..j];
    SplitJoin(w, Open, c, Sep, f, Close);
    SliceOfSlice(s, i, j, 0, a - i);
    SliceOfSlice(s, i, j, a - i, a + |c| - i);
    SliceOfSlice(s, i, j, a + |c| - i, d - i);
    SliceOfSlice(s, i, j, d - i, e - i);
    SliceOfSlice(s, i, j, e - i, j - i);
  }

  /** A field followed by a character outside [a-zA-Z0-9_] is consumed
   *  exactly by WordRunEnd. */
  lemma FieldScan(s: string, d: nat, f: string)
    requires d + |f| < |s| && s[d..d + |f|] == f && !IsWordChar(s[d + |f|])
    requires IsField(f)
    ensures WordRunEnd(s, d) == d + |f|
  {
    assert forall k | d <= k < d + |f| :: s[k] == f[k - d];
  }

  /** Completeness: wherever s holds a token of the grammar, MatchAt finds
   *  exactly that token, with exactly its two groups. */
  lemma MatchAtComplete(s: string, i: nat, j: nat, c: string, f: string)
    requires i <= j <= |s|
    requires IsCategory(c) && IsField(f)
    requires s[i..j] == Token(c, f)
    ensures MatchAt(s, i) == Some(Match(i, j, c, f))
  {
    TokenSlices(s, i, j, c, f);
    MatchAtOfPositions(s, i, i + |Open| + |c|, i + |Open| + |c| + |Sep| + |f|);
  }

  /** The first character of "::" is ':'. */
  lemma SepStartsWithColon(s: string, k: nat)
    requires k + |Sep| <= |s| && s[k..k + |Sep|] == Sep
    ensures s[k] == ':'
  {
    assert s[k..k + |Sep|][0] == Sep[0];
  }

  /** The first character of "}}" is '}'. */
  lemma CloseStartsWithBrace(s: string, e: nat)
    requires e + |Close| <= |s| && s[e..e + |Close|] == Close
    ensures s[e] == '}'
  {
    assert s[e..e + |Close|][0] == Close[0];
  }

  /** MatchAt finds a token whose pieces sit at positions i, k and e of s:
   *  the opening at i, the "::" at k and the closing at e. */
  lemma MatchAtOfPositions(s: string, i: nat, k: nat, e: nat)
    requires i + |Open| <= k && k + |Sep| <= e && e + |Close| <= |s|
    requires s[i..i + |Open|] == Open && s[k..k + |Sep|] == Sep && s[e..e + |Close|] == Close
    requires IsCategory(s[i + |Open|..k]) && IsField(s[k + |Sep|..e])
    ensures MatchAt(s, i) == Some(Match(i, e + |Close|, s[i + |Open|..k], s[k + |Sep|..e]))
  {
    SepStartsWithColon(s, k);
    CloseStartsWithBrace(s, e);
    CategoryScan(s, i + |Open|, s[i + |Open|..k]);
    FieldScan(s, k + |Sep|, s[k + |Sep|..e]);
  }

  /** The token that starts at a given position is unique. */
  lemma TokenAtStartUnique(s: string, i: nat, j1: nat, c1: string, f1: string, j2: nat, c2: string, f2: string)
    requires i <= j1 <= |s| && i <= j2 <= |s|
    requires IsCategory(c1) && IsField(f1) && s[i..j1] == Token(c1, f1)
    requires IsCategory(c2) && IsField(f2) && s[i..j2] == Token(c2, f2)
    ensures j1 == j2 && c1 == c2 && f1 == f2
  {
    MatchAtComplete(s, i, j1, c1, f1);
    MatchAtComplete(s, i, j2, c2, f2);
  }
}
