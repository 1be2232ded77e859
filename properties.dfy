/** What filter_metadata::filter promises, stated against the grammar alone and
 *  proved of the model in MetadataFilter.
 *
 *  The reference description of a pass is a leftmost scan: a list of tokens
 *  found from left to right, each the first token that starts at or after the
 *  end of the previous one. Splice rebuilds the text from such a list, copying
 *  everything outside the tokens and writing "<category> = <field>" for each.
 */
module FilterProperties {
  import opened MetadataPattern
  import opened MetadataFilter

  /** s holds a token of the grammar at m.start..m.end, with groups m.category
   *  and m.field. */
  ghost predicate TokenAt(s: string, m: Match) {
    m.start <= m.end <= |s| && IsCategory(m.category) && IsField(m.field)
    && s[m.start..m.end] == Token(m.category, m.field)
  }

  /** No token of the grammar starts at a position in [lo, hi). */
  ghost predicate NoTokenStartsIn(s: string, lo: nat, hi: nat) {
    forall p, q, c, f | lo <= p < hi && p <= q <= |s| && IsCategory(c) && IsField(f) :: s[p..q] != Token(c, f)
  }

  /** No substring of t is a token of the grammar. */
  ghost predicate TokenFree(t: string) {
    NoTokenStartsIn(t, 0, |t|)
  }

  /** hs is what a leftmost, non-overlapping, single pass over s from i finds. */
  ghost predicate IsLeftmostScan(s: string, i: nat, hs: seq<Match>)
    requires i <= |s|
    decreases |hs|
  {
    if hs == [] then NoTokenStartsIn(s, i, |s|)
    else
      i <= hs[0].start && TokenAt(s, hs[0]) && NoTokenStartsIn(s, i, hs[0].start)
      && IsLeftmostScan(s, hs[0].end, hs[1..])
  }

  /** The spans of hs lie in s from i on, in order and without overlap. */
  predicate Placed(s: string, i: nat, hs: seq<Match>)
    requires i <= |s|
    decreases |hs|
  {
    hs == [] || (i <= hs[0].start <= hs[0].end <= |s| && Placed(s, hs[0].end, hs[1..]))
  }

  /** s from i on, with the span of each element of hs replaced by
   *  "<category> = <field>" and everything else copied. */
  function Splice(s: string, i: nat, hs: seq<Match>): string
    requires i <= |s| && Placed(s, i, hs)
    decreases |hs|
  {
    if hs == [] then s[i..]
    else s[i..hs[0].start] + (hs[0].category + " = " + hs[0].field) + Splice(s, hs[0].end, hs[1..])
  }

  // ---------------------------------------------------------------------------
  // Facts about single tokens

  /** The characters a category can hold: letters, '=' and digits. */
  predicate IsCategoryChar(ch: char) {
    IsLetter(ch) || IsDigit(ch) || ch == '='
  }

  lemma {:induction false} SuffixChars(t: string)
    requires IsInstanceSuffix(t)
    ensures forall k | 0 <= k < |t| :: IsCategoryChar(t[k])
    decreases |t|
  {
    if t != [] {
      SuffixChars(t[2..]);
      assert forall k | 2 <= k < |t| :: t[k] == t[2..][k - 2];
    }
  }

  /** Every character of a category is a letter, a digit or '='. */
  lemma {:induction false} CategoryChars(c: string)
    requires IsCategory(c)
    ensures forall k | 0 <= k < |c| :: IsCategoryChar(c[k])
    decreases |c|
  {
    if IsCategory(c[1..]) {
      CategoryChars(c[1..]);
    } else {
      SuffixChars(c[1..]);
    }
    assert forall k | 1 <= k < |c| :: c[k] == c[1..][k - 1];
  }

  /** A token starts with '{', ends with '}', holds no space and is at least
   *  16 characters long. */
  lemma TokenShape(c: string, f: string)
    requires IsCategory(c) && IsField(f)
    ensures |Token(c, f)| == |c| + |f| + 16
    ensures Token(c, f)[0] == '{' && Token(c, f)[|Token(c, f)| - 1] == '}'
    ensures forall k | 0 <= k < |Token(c, f)| :: Token(c, f)[k] != ' '
  {
    CategoryChars(c);
    var t := Token(c, f);
    assert t == Open + c + Sep + f + Close;
    forall k | 0 <= k < |t| ensures t[k] != ' ' {
      if k < |Open| {
      } else if k < |Open| + |c| {
        assert t[k] == c[k - |Open|];
      } else if k < |Open| + |c| + |Sep| {
      } else if k < |Open| + |c| + |Sep| + |f| {
        assert t[k] == f[k - |Open| - |c| - |Sep|];
      }
    }
  }

  /** The callback's result holds no brace, so it can never be part of a token,
   *  and it is 13 characters shorter than the token it replaces. */
  lemma CallbackInert(m: Match)
    requires IsCategory(m.category) && IsField(m.field)
    ensures |Callback(m)| + 13 == |Token(m.category, m.field)|
    ensures forall k | 0 <= k < |Callback(m)| :: Callback(m)[k] != '{' && Callback(m)[k] != '}'
  {
    CategoryChars(m.category);
    var r := Callback(m);
    var lc := |m.category|;
    forall k | 0 <= k < |r| ensures r[k] != '{' && r[k] != '}' {
      if k < lc {
        assert r[k] == m.category[k];
      } else if k >= lc + 3 {
        assert r[k] == m.field[k - lc - 3];
      }
    }
  }

  // ---------------------------------------------------------------------------
  // The scan finds the leftmost tokens, and only them

  /** Where MatchAt fails, no token starts. */
  lemma NoTokenWhereNoMatch(s: string, i: nat)
    requires i < |s| && MatchAt(s, i).None?
    ensures NoTokenStartsIn(s, i, i + 1)
  {
    forall p, q, c, f | i <= p < i + 1 && p <= q <= |s| && IsCategory(c) && IsField(f)
      ensures s[p..q] != Token(c, f)
    {
      if s[p..q] == Token(c, f) {
        MatchAtComplete(s, p, q, c, f);
      }
    }
  }

  /** The matches handed to the callback form the leftmost scan of the text. */
  lemma {:induction false} ScanIsLeftmost(s: string, i: nat)
    requires i <= |s|
    ensures IsLeftmostScan(s, i, MatchesFrom(s, i))
    decreases |s| - i
  {
    if i < |s| {
      match MatchAt(s, i)
      case Some(m) =>
        ScanIsLeftmost(s, m.end);
        assert MatchesFrom(s, i) == [m] + MatchesFrom(s, m.end);
        assert ([m] + MatchesFrom(s, m.end))[1..] == MatchesFrom(s, m.end);
      case None =>
        ScanIsLeftmost(s, i + 1);
        NoTokenWhereNoMatch(s, i);
    }
  }

  /** A text has only one leftmost scan. */
  lemma {:induction false} LeftmostScanUnique(s: string, i: nat, hs1: seq<Match>, hs2: seq<Match>)
    requires i <= |s| && IsLeftmostScan(s, i, hs1) && IsLeftmostScan(s, i, hs2)
    ensures hs1 == hs2
    decreases |hs1|
  {
    if hs1 != [] && hs2 != [] {
      var m1, m2 := hs1[0], hs2[0];
      if m1.start == m2.start {
        TokenAtStartUnique(s, m1.start, m1.end, m1.category, m1.field, m2.end, m2.category, m2.field);
        assert m1 == m2;
        LeftmostScanUnique(s, m1.end, hs1[1..], hs2[1..]);
        assert hs1 == [m1] + hs1[1..];
        assert hs2 == [m2] + hs2[1..];
      }
    }
  }

  lemma {:induction false} LeftmostIsPlaced(s: string, i: nat, hs: seq<Match>)
    requires i <= |s| && IsLeftmostScan(s, i, hs)
    ensures Placed(s, i, hs)
    decreases |hs|
  {
    if hs != [] {
      LeftmostIsPlaced(s, hs[0].end, hs[1..]);
    }
  }

  /** Splicing a match that starts where the splice starts writes the
   *  callback's result first. */
  lemma SpliceMatchFirst(s: string, i: nat, m: Match, rest: seq<Match>)
    requires m.start == i <= m.end <= |s| && Placed(s, m.end, rest)
    ensures Placed(s, i, [m] + rest)
    ensures Splice(s, i, [m] + rest) == Callback(m) + Splice(s, m.end, rest)
  {
    var hs := [m] + rest;
    assert hs[0] == m && hs[1..] == rest;
    assert s[i..m.start] == [];
  }

  /** Splicing from a position before the first match copies that character. */
  lemma SpliceCopyFirst(s: string, i: nat, hs: seq<Match>)
    requires i < |s| && Placed(s, i + 1, hs)
    ensures Placed(s, i, hs)
    ensures Splice(s, i, hs) == [s[i]] + Splice(s, i + 1, hs)
  {
    if hs == [] {
      assert s[i..] == [s[i]] + s[i + 1..];
    } else {
      var m := hs[0];
      var r, tail := m.category + " = " + m.field, Splice(s, m.end, hs[1..]);
      assert Splice(s, i, hs) == s[i..m.start] + r + tail;
      assert Splice(s, i + 1, hs) == s[i + 1..m.start] + r + tail;
      assert s[i..m.start] == [s[i]] + s[i + 1..m.start];
      assert ([s[i]] + s[i + 1..m.start]) + r == [s[i]] + (s[i + 1..m.start] + r);
    }
  }

  /** preg_replace_callback copies the text outside the matches and writes the
   *  callback's result for each match: it computes Splice over its matches. */
  lemma {:induction false} ReplaceIsSplice(s: string, i: nat)
    requires i <= |s|
    ensures Placed(s, i, MatchesFrom(s, i))
    ensures ReplaceFrom(s, i) == Splice(s, i, MatchesFrom(s, i))
    decreases |s| - i
  {
    if i < |s| {
      match MatchAt(s, i)
      case Some(m) =>
        ReplaceIsSplice(s, m.end);
        SpliceMatchFirst(s, i, m, MatchesFrom(s, m.end));
      case None =>
        ReplaceIsSplice(s, i + 1);
        SpliceCopyFirst(s, i, MatchesFrom(s, i + 1));
    }
  }

  /** Each token is 13 characters longer than its replacement. */
  lemma {:induction false} SpliceLength(s: string, i: nat, hs: seq<Match>)
    requires i <= |s| && IsLeftmostScan(s, i, hs)
    ensures Placed(s, i, hs) && |Splice(s, i, hs)| == |s| - i - 13 * |hs|
    decreases |hs|
  {
    LeftmostIsPlaced(s, i, hs);
    if hs != [] {
      var m := hs[0];
      SpliceLength(s, m.end, hs[1..]);
      TokenShape(m.category, m.field);
      assert |s[m.start..m.end]| == |m.category| + |m.field| + 16;
    }
  }

  // ---------------------------------------------------------------------------
  // filter_metadata::filter

  /** The empty() guard returns the original text when the regex engine fails,
   *  and otherwise never changes the result: the substituted text is empty or
   *  "0" only when it equals the input. So the output is empty exactly when
   *  the input is. */
  lemma GuardTransparent(text: string, regexFailed: bool)
    ensures Filter(text, regexFailed) == if regexFailed then text else Substitute(text)
    ensures Filter(text, regexFailed) == [] <==> text == []
  {
    var hs := MatchesFrom(text, 0);
    ReplaceIsSplice(text, 0);
    if hs != [] {
      assert |Substitute(text)| >= |hs[0].category| + 3 + |hs[0].field|;
      ScanIsLeftmost(text, 0);
    }
  }

  /** A text that is a single token becomes "<category> = <field>". */
  lemma LoneToken(c: string, f: string)
    requires IsCategory(c) && IsField(f)
    ensures Filter(Token(c, f), false) == c + " = " + f
  {
    var s := Token(c, f);
    MatchAtComplete(s, 0, |s|, c, f);
    assert ReplaceFrom(s, |s|) == [];
    GuardTransparent(s, false);
  }

  /** The filter's output is the leftmost scan spliced: tokens replaced by
   *  "<category> = <field>" from left to right, all other text copied. */
  lemma FilterIsLeftmostSplice(text: string, hs: seq<Match>)
    requires IsLeftmostScan(text, 0, hs)
    ensures Placed(text, 0, hs) && Filter(text, false) == Splice(text, 0, hs)
  {
    ScanIsLeftmost(text, 0);
    LeftmostScanUnique(text, 0, hs, MatchesFrom(text, 0));
    ReplaceIsSplice(text, 0);
    GuardTransparent(text, false);
  }

  /** The output is 13 characters shorter per token replaced. */
  lemma FilterLength(text: string, hs: seq<Match>)
    requires IsLeftmostScan(text, 0, hs)
    ensures |Filter(text, false)| == |text| - 13 * |hs|
  {
    FilterIsLeftmostSplice(text, hs);
    SpliceLength(text, 0, hs);
  }

  /** The filter returns its input unchanged exactly when the input holds no
   *  token. */
  lemma IdentityIffTokenFree(text: string)
    ensures Filter(text, false) == text <==> TokenFree(text)
  {
    var hs := MatchesFrom(text, 0);
    ScanIsLeftmost(text, 0);
    FilterLength(text, hs);
    FilterIsLeftmostSplice(text, hs);
    if hs != [] {
      TokenShape(hs[0].category, hs[0].field);
      assert text[hs[0].start..hs[0].end] == Token(hs[0].category, hs[0].field);
    }
  }

  /** No token starts where there is no '{'. */
  lemma NoBraceNoToken(s: string, lo: nat, hi: nat)
    requires lo <= hi <= |s| && forall k | lo <= k < hi :: s[k] != '{'
    ensures NoTokenStartsIn(s, lo, hi)
  {
    forall p, q, c, f | lo <= p < hi && p <= q <= |s| && IsCategory(c) && IsField(f)
      ensures s[p..q] != Token(c, f)
    {
      TokenShape(c, f);
      if q > p {
        assert s[p..q][0] == s[p];
      }
    }
  }

  /** A text whose only token sits at i..j is rewritten there alone. */
  lemma OneTokenSplice(s: string, m: Match)
    requires TokenAt(s, m)
    requires NoTokenStartsIn(s, 0, m.start) && NoTokenStartsIn(s, m.end, |s|)
    ensures Filter(s, false) == s[..m.start] + (m.category + " = " + m.field) + s[m.end..]
  {
    assert IsLeftmostScan(s, m.end, []);
    assert [m][1..] == [];
    assert IsLeftmostScan(s, 0, [m]);
    FilterIsLeftmostSplice(s, [m]);
  }

  /** A token between two runs of text without '{' is rewritten and the text
   *  on either side is copied as it is. */
  lemma TokenInPlainText(a: string, c: string, f: string, b: string)
    requires IsCategory(c) && IsField(f)
    requires forall k | 0 <= k < |a| :: a[k] != '{'
    requires forall k | 0 <= k < |b| :: b[k] != '{'
    ensures Filter(a + Token(c, f) + b, false) == a + (c + " = " + f) + b
  {
    var t := Token(c, f);
    var s := a + t + b;
    var m := Match(|a|, |a| + |t|, c, f);
    assert s[..m.start] == a;
    assert s[m.end..] == b;
    assert TokenAt(s, m) by {
      ConcatSliceLeft(a + t, b, |a|, |a| + |t|);
      ConcatSliceRight(a, t, |a|, |a| + |t|);
    }
    NoBraceNoToken(s, 0, |a|);
    NoBraceNoToken(s, m.end, |s|);
    OneTokenSplice(s, m);
  }

  // ---------------------------------------------------------------------------
  // The output holds no token: replacement text is never matched again

  /** A token-free prefix of s, as a string of its own, is token-free. */
  lemma PrefixTokenFree(s: string, i: nat, j: nat)
    requires i <= j <= |s| && NoTokenStartsIn(s, i, j)
    ensures TokenFree(s[i..j])
  {
    var a := s[i..j];
    forall p, q, c, f | 0 <= p < |a| && p <= q <= |a| && IsCategory(c) && IsField(f)
      ensures a[p..q] != Token(c, f)
    {
      SliceOfSlice(s, i, j, p, q);
    }
  }

  /** Token-free text on both sides of a replacement makes token-free text:
   *  a token holds no space, starts with '{' and ends with '}', and the
   *  replacement "<category> = <field>" holds no brace. */
  lemma JoinTokenFree(a: string, c0: string, f0: string, b: string)
    requires TokenFree(a) && TokenFree(b) && IsCategory(c0) && IsField(f0)
    ensures TokenFree(a + (c0 + " = " + f0) + b)
  {
    var r := c0 + " = " + f0;
    var o := a + r + b;
    var la, lc, lr := |a|, |c0|, |r|;
    CallbackInert(Match(0, 0, c0, f0));
    assert r[lc] == ' ';
    assert forall k | la <= k < la + lr :: o[k] == r[k - la];
    forall p, q, c, f | 0 <= p < |o| && p <= q <= |o| && IsCategory(c) && IsField(f)
      ensures o[p..q] != Token(c, f)
    {
      TokenShape(c, f);
      if q - p < 16 {
      } else if q <= la {
        ConcatSliceLeft(a + r, b, p, q);
        ConcatSliceLeft(a, r, p, q);
      } else if p >= la + lr {
        ConcatSliceRight(a + r, b, p, q);
      } else if p <= la + lc < q {
        assert o[la + lc] == r[lc];
        assert o[p..q][la + lc - p] == ' ';
      } else if q <= la + lc {
        assert o[q - 1] == r[q - 1 - la];
        assert o[p..q][q - 1 - p] != '}';
      } else {
        assert o[p] == r[p - la];
        assert o[p..q][0] != '{';
      }
    }
  }

  /** Splicing a leftmost scan leaves no token behind. */
  lemma {:induction false} SpliceTokenFree(s: string, i: nat, hs: seq<Match>)
    requires i <= |s| && IsLeftmostScan(s, i, hs)
    ensures Placed(s, i, hs) && TokenFree(Splice(s, i, hs))
    decreases |hs|
  {
    LeftmostIsPlaced(s, i, hs);
    if hs == [] {
      PrefixTokenFree(s, i, |s|);
      assert s[i..] == s[i..|s|];
    } else {
      var m := hs[0];
      SpliceTokenFree(s, m.end, hs[1..]);
      PrefixTokenFree(s, i, m.start);
      JoinTokenFree(s[i..m.start], m.category, m.field, Splice(s, m.end, hs[1..]));
    }
  }

  /** Filtering twice is filtering once: the filter never produces text it
   *  would rewrite. */
  lemma FilterIdempotent(text: string)
    ensures Filter(Filter(text, false), false) == Filter(text, false)
  {
    var hs := MatchesFrom(text, 0);
    ScanIsLeftmost(text, 0);
    FilterIsLeftmostSplice(text, hs);
    SpliceTokenFree(text, 0, hs);
    IdentityIffTokenFree(Filter(text, false));
  }
}
