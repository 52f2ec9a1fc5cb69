/**
 * The hashtag syntax of the entry box. The script recognises a partial tag
 * with the pattern `#[\w\d-_]+$`: a `#` followed by a non-empty run of tag
 * characters that reaches the end of the text. Regular expressions are not
 * available here, so the pattern is stated as the predicate MatchesAt and
 * computed by TrailingTagStart.
 */
module TagSyntax {
  import opened Wrappers

  /**
   * A character of the class `[\w\d-_]`. Without the unicode flag `\w` is
   * `[A-Za-z0-9_]`, `\d` adds nothing, and `-_` after a class escape is read
   * as the two literal characters `-` and `_`. Every tag character is
   * ASCII, and neither `#` nor a space is one, so both end a tag.
   */
  predicate IsTagChar(c: char)
    ensures IsTagChar(c) ==> c as int < 128 && c != '#' && c != ' '
  {
    ('A' <= c <= 'Z') || ('a' <= c <= 'z') || ('0' <= c <= '9') || c == '_' || c == '-'
  }

  /**
   * The pattern `#[\w\d-_]+$` matches `s` starting at position `i`. Being
   * anchored at the end, it can only match at the `#` just before the
   * trailing run of tag characters.
   */
  ghost predicate MatchesAt(s: string, i: int)
    ensures MatchesAt(s, i) ==> 0 < TagRun(s) && i == |s| - 1 - TagRun(s)
  {
    0 <= i && i + 1 < |s| && s[i] == '#' && forall j :: i < j < |s| ==> IsTagChar(s[j])
  }

  /** The length of the longest run of tag characters at the end of `s`. */
  function TagRun(s: string): (n: nat)
    ensures n <= |s|
    ensures forall j :: |s| - n <= j < |s| ==> IsTagChar(s[j])
    ensures n < |s| ==> !IsTagChar(s[|s| - 1 - n])
  {
    if s == [] || !IsTagChar(s[|s| - 1]) then 0 else TagRun(s[..|s| - 1]) + 1
  }

  /** Where `tagRegex.exec(s)` matches: the position of the `#` of the trailing tag, if there is one. */
  function TrailingTagStart(s: string): (r: Option<nat>)
    ensures r.Some? ==> MatchesAt(s, r.value)
    ensures r.None? ==> forall i :: !MatchesAt(s, i)
  {
    var n := TagRun(s);
    if 0 < n < |s| && s[|s| - 1 - n] == '#' then Some(|s| - 1 - n) else None
  }

  /**
   * The pattern matches at most once, so the leftmost match that `exec` and
   * `replace` use is the only one.
   */
  lemma MatchIsUnique(s: string, i: int, j: int)
    requires MatchesAt(s, i) && MatchesAt(s, j)
    ensures i == j
  {
  }

  /** The position of the first `#` in `s`, or `|s|` when there is none. */
  function FirstHash(s: string): (k: nat)
    ensures k <= |s|
    ensures '#' !in s[..k]
    ensures k < |s| ==> s[k] == '#'
  {
    if s == [] || s[0] == '#' then 0 else FirstHash(s[1..]) + 1
  }

  /** `s.replace('#', '')`: a string pattern replaces its first occurrence only. */
  function RemoveFirstHash(s: string): (r: string)
    ensures '#' !in s ==> r == s
    ensures forall k :: 0 <= k < |s| && s[k] == '#' && '#' !in s[..k] ==> r == s[..k] + s[k + 1..]
  {
    var k := FirstHash(s);
    if k < |s| then s[..k] + s[k + 1..] else s
  }

  /**
   * `text.replace(tagRegex, replacement)`: the trailing tag, `#` included, is
   * replaced; text without a trailing tag is returned unchanged. Replacement
   * strings are assumed to hold no `$` patterns.
   */
  function ReplaceTrailingTag(text: string, replacement: string): (r: string)
    ensures (forall i :: !MatchesAt(text, i)) ==> r == text
    ensures forall i :: MatchesAt(text, i) ==> r == text[..i] + replacement
  {
    match TrailingTagStart(text)
    case None => text
    case Some(i) =>
      assert forall j :: MatchesAt(text, j) ==> j == i by {
        forall j | MatchesAt(text, j) ensures j == i { MatchIsUnique(text, i, j); }
      }
      text[..i] + replacement
  }

  /** The partial tag typed so far: `lastTag[0].replace('#', '')` is the match without its `#`. */
  lemma PartialTagIsRunAfterHash(s: string, i: int)
    requires MatchesAt(s, i)
    ensures RemoveFirstHash(s[i..]) == s[i + 1..]
    ensures |s[i + 1..]| > 0 && forall c :: c in s[i + 1..] ==> IsTagChar(c)
  {
    var m := s[i..];
    assert m[0] == '#' && m[..0] == [];
    assert m[1..] == s[i + 1..];
    forall c | c in s[i + 1..] ensures IsTagChar(c) {
      var j :| 0 <= j < |s[i + 1..]| && s[i + 1..][j] == c;
      assert s[i + 1 + j] == c;
    }
  }

  /** A text whose last character is not a tag character (a lone trailing `#`, a space) has no trailing tag. */
  lemma NoTagAfterNonTagChar(s: string)
    requires s != [] && !IsTagChar(s[|s| - 1])
    ensures TrailingTagStart(s).None?
    ensures forall i :: !MatchesAt(s, i)
  {
  }
}
