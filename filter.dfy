/** The filter itself: filter_metadata::filter and its callback
 *  find_metadata_callback.
 *
 *  preg_replace_callback walks the text from left to right. Where the pattern
 *  matches, the matched text is replaced by what the callback returns and the
 *  walk resumes after the match; elsewhere one character is copied and the
 *  walk moves on by one. Replacement text is never scanned again.
 */
module MetadataFilter {
  import opened MetadataPattern

  /** find_metadata_callback: group 1, then " = ", then group 2. */
  function Callback(m: Match): string {
    m.category + " = " + m.field
  }

  /** The output of preg_replace_callback for the part of s from position i on. */
  function ReplaceFrom(s: string, i: nat): string
    requires i <= |s|
    decreases |s| - i
  {
    if i == |s| then []
    else
      match MatchAt(s, i)
      case Some(m) => Callback(m) + ReplaceFrom(s, m.end)
      case None => [s[i]] + ReplaceFrom(s, i + 1)
  }

  /** The matches preg_replace_callback hands to the callback, in call order,
   *  for the part of s from position i on. */
  function MatchesFrom(s: string, i: nat): seq<Match>
    requires i <= |s|
    decreases |s| - i
  {
    if i == |s| then []
    else
      match MatchAt(s, i)
      case Some(m) => [m] + MatchesFrom(s, m.end)
      case None => MatchesFrom(s, i + 1)
  }

  /** preg_replace_callback over the whole text, when it succeeds. */
  function Substitute(text: string): string {
    ReplaceFrom(text, 0)
  }

  /** PHP's empty() on what preg_replace_callback returned: None stands for the
   *  null it returns on failure. */
  predicate IsPhpEmpty(v: Option<string>) {
    v.None? || v.value == "" || v.value == "0"
  }

  /** filter_metadata::filter. regexFailed says whether the PCRE engine gave up
   *  (preg_replace_callback returned null); the filter options are never read
   *  and do not appear. */
  function Filter(text: string, regexFailed: bool): string {
    var filtered := if regexFailed then None else Some(Substitute(text));
    if IsPhpEmpty(filtered) then text else filtered.value
  }
}
