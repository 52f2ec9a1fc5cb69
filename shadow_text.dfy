/**
 * The ghost text drawn behind an input: the suggested text is split at the
 * length of the typed text into a part drawn invisibly (it only takes up the
 * width of what is already typed) and a visible remainder. Both parts have
 * their spaces turned into `&nbsp;`. The `<span class='invisible'>` wrapper
 * is left out: a Ghost value holds the two parts.
 */
module ShadowText {

  /** What the ghost-text element shows: nothing (`innerHTML = ''`), or an invisible and a visible part. */
  datatype Shadow = Blank | Ghost(invisible: string, visible: string)

  /** `input.replace(/ /g, '&nbsp;')`. */
  function FixWhitespace(s: string): (r: string)
    ensures ' ' !in r
  {
    if s == [] then []
    else (if s[0] == ' ' then "&nbsp;" else [s[0]]) + FixWhitespace(s[1..])
  }

  /** On one character: a space becomes `&nbsp;`, any other character stays. */
  lemma FixWhitespaceChar(c: char)
    ensures FixWhitespace([c]) == if c == ' ' then "&nbsp;" else [c]
  {
    assert [c][1..] == [];
  }

  /** FixWhitespace works character by character: the results for the parts are put together in order. */
  lemma {:induction false} FixWhitespaceConcat(a: string, b: string)
    ensures FixWhitespace(a + b) == FixWhitespace(a) + FixWhitespace(b)
  {
    if a == [] {
      assert a + b == b;
    } else {
      assert (a + b)[0] == a[0];
      assert (a + b)[1..] == a[1..] + b;
      FixWhitespaceConcat(a[1..], b);
    }
  }

  /** A text is left as it is exactly when it holds no space. */
  lemma {:induction false} FixWhitespaceIdentity(s: string)
    ensures FixWhitespace(s) == s <==> ' ' !in s
  {
    if s != [] && ' ' !in s {
      FixWhitespaceIdentity(s[1..]);
      assert s == [s[0]] + s[1..];
    }
  }

  /**
   * `suggested.substring(0, cutoff)` and `suggested.substring(cutoff)` with
   * `cutoff = original.length`; substring clamps a cutoff past the end.
   */
  function ShadowSplit(original: string, suggested: string): (r: (string, string))
    ensures r.0 + r.1 == suggested
    ensures |r.0| == if |original| <= |suggested| then |original| else |suggested|
    ensures original <= suggested ==> r == (original, suggested[|original|..])
  {
    var cutoff := if |original| <= |suggested| then |original| else |suggested|;
    assert original <= suggested ==> suggested[..cutoff] == original;
    (suggested[..cutoff], suggested[cutoff..])
  }

  /**
   * `updateShadowSuggest`: the two parts rebuild the whole suggestion, and
   * when the suggestion extends the typed text the invisible part is exactly
   * the typed text.
   */
  function ShadowMarkup(original: string, suggested: string): (r: Shadow)
    ensures r.Ghost?
    ensures r.invisible + r.visible == FixWhitespace(suggested)
    ensures original <= suggested ==>
      r.invisible == FixWhitespace(original) && r.visible == FixWhitespace(suggested[|original|..])
  {
    var parts := ShadowSplit(original, suggested);
    FixWhitespaceConcat(parts.0, parts.1);
    Ghost(FixWhitespace(parts.0), FixWhitespace(parts.1))
  }
}
