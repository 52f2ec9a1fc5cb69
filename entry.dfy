/**
 * The entry box: the text area where a log entry is typed. It suggests tags
 * while the text ends in a partial hashtag, shows the focused or lone
 * candidate as ghost text, and splices the chosen tag, followed by a space,
 * over the partial hashtag.
 */
module Entry {
  import opened Wrappers
  import opened TagSyntax
  import opened Suggest
  import opened ShadowText

  /**
   * The candidates the input handler computes: the known tags extending the
   * partial hashtag at the end of the text, or none when the text does not
   * end in one.
   */
  function SuggestedTags(tags: seq<string>, text: string): (r: seq<string>)
    ensures (forall i :: !MatchesAt(text, i)) ==> r == []
    ensures forall i :: MatchesAt(text, i) ==> r == PrefixFilter(tags, text[i + 1..])
  {
    match TrailingTagStart(text)
    case None => []
    case Some(i) =>
      PartialTagIsRunAfterHash(text, i);
      assert forall j :: MatchesAt(text, j) ==> j == i by {
        forall j | MatchesAt(text, j) ensures j == i { MatchIsUnique(text, i, j); }
      }
      PrefixFilter(tags, RemoveFirstHash(text[i..]))
  }

  /**
   * What `updateEntryShadowSuggest` does to the ghost text. With no
   * candidates it does nothing at all (None: the ghost text stays as it is);
   * otherwise it clears it, or draws the text with its partial hashtag
   * replaced by the resolved candidate.
   */
  function ShadowUpdate(candidates: seq<string>, focus: int, text: string): (r: Option<Shadow>)
    ensures r.None? <==> candidates == []
    ensures r == Some(Blank) <==> candidates != [] && ResolvedIndex(|candidates|, focus) < 0
  {
    if candidates == [] then None
    else
      var k := ResolvedIndex(|candidates|, focus);
      if k >= 0 then Some(ShadowMarkup(text, ReplaceTrailingTag(text, "#" + JsIndex(candidates, k))))
      else Some(Blank)
  }

  /** The ghost text after an update is applied to the current one. */
  function ApplyShadowUpdate(update: Option<Shadow>, current: Shadow): Shadow {
    match update
    case None => current
    case Some(s) => s
  }

  /** Replacing a partial hashtag by a tag that extends it appends the untyped rest of the tag. */
  lemma ExtendTrailingTag(text: string, i: int, tag: string)
    requires MatchesAt(text, i) && text[i + 1..] <= tag
    ensures ReplaceTrailingTag(text, "#" + tag) == text + tag[|text| - i - 1..]
  {
    var partial := text[i + 1..];
    var rest := tag[|partial|..];
    assert tag == partial + rest;
    assert text == text[..i] + [text[i]] + partial;
    calc {
      ReplaceTrailingTag(text, "#" + tag);
      text[..i] + ("#" + tag);
      text[..i] + ("#" + (partial + rest));
      (text[..i] + "#" + partial) + rest;
      text + rest;
    }
  }

  /**
   * While the candidates are those of the current text, the ghost text is
   * the typed text drawn invisibly followed by the untyped rest of the
   * resolved candidate.
   */
  lemma GhostCompletesTypedText(tags: seq<string>, text: string, i: int, focus: int)
    requires MatchesAt(text, i)
    requires 0 <= ResolvedIndex(|SuggestedTags(tags, text)|, focus) < |SuggestedTags(tags, text)|
    ensures
      var candidates := SuggestedTags(tags, text);
      var tag := candidates[ResolvedIndex(|candidates|, focus)];
      text[i + 1..] <= tag &&
      ShadowUpdate(candidates, focus, text) ==
        Some(Ghost(FixWhitespace(text), FixWhitespace(tag[|text| - i - 1..])))
  {
    var candidates := SuggestedTags(tags, text);
    var tag := candidates[ResolvedIndex(|candidates|, focus)];
    assert tag in candidates;
    ExtendTrailingTag(text, i, tag);
    var suggested := text + tag[|text| - i - 1..];
    assert text <= suggested;
    assert suggested[|text|..] == tag[|text| - i - 1..];
  }

  /**
   * A commit changes only the partial hashtag: the text before its `#` is
   * kept, the tag and a space take its place, and no partial hashtag is left.
   * Text without a partial hashtag is kept as it is.
   */
  lemma CommitCompletesTag(text: string, tag: string)
    ensures var r := ReplaceTrailingTag(text, "#" + tag + " ");
      (forall i :: !MatchesAt(r, i)) &&
      ((forall i :: !MatchesAt(text, i)) ==> r == text) &&
      (forall i :: MatchesAt(text, i) ==> r[..i] == text[..i] && r[i..] == "#" + tag + " ")
  {
    var r := ReplaceTrailingTag(text, "#" + tag + " ");
    if TrailingTagStart(text).Some? {
      var i := TrailingTagStart(text).value;
      assert r == text[..i] + ("#" + tag + " ");
      NoTagAfterNonTagChar(r);
    }
  }

  /**
   * The state of the entry box: the text typed, the suggested candidates,
   * the focus (-1 for none) and the ghost text shown.
   */
  class EntryBox {
    var text: string
    var candidates: seq<string>
    var focus: int
    var shadow: Shadow

    /**
     * The focus is -1 or a candidate, except after the text lost its
     * partial hashtag: that empties the candidates but keeps the focus.
     */
    ghost predicate Valid()
      reads this
    {
      -1 <= focus && (focus < |candidates| || (candidates == [] && TrailingTagStart(text).None?))
    }

    constructor ()
      ensures Valid()
      ensures text == "" && candidates == [] && focus == -1 && shadow == Blank
    {
      text, candidates, focus, shadow := "", [], -1, Blank;
    }

    /** The text changed to `newText`; `tags` are the known tags. */
    method Input(newText: string, tags: seq<string>)
      requires Valid()
      modifies this
      ensures Valid()
      ensures text == newText && candidates == SuggestedTags(tags, newText)
      ensures focus == if TrailingTagStart(newText).Some? then -1 else old(focus)
      ensures shadow == ApplyShadowUpdate(ShadowUpdate(candidates, focus, text), Blank)
    {
      text := newText;
      var lastTag := TrailingTagStart(text);
      if lastTag.Some? {
        var incompleteTag := RemoveFirstHash(text[lastTag.value..]);
        focus := -1;
        candidates := PrefixFilter(tags, incompleteTag);
        if candidates == [] {
          shadow := Blank;
        }
        shadow := ApplyShadowUpdate(ShadowUpdate(candidates, focus, text), shadow);
      } else {
        candidates := [];
        shadow := Blank;
      }
    }

    /** Tab: commit a lone candidate, or move the focus on. */
    method Tab()
      requires Valid()
      modifies this
      ensures Valid()
      ensures candidates == old(candidates)
      ensures |candidates| == 1 ==>
        text == ReplaceTrailingTag(old(text), "#" + candidates[0] + " ") &&
        focus == old(focus) && shadow == Blank
      ensures |candidates| != 1 ==>
        text == old(text) && focus == NextFocus(|candidates|, old(focus)) &&
        shadow == ApplyShadowUpdate(ShadowUpdate(candidates, focus, text), old(shadow))
    {
      if |candidates| == 1 {
        var tag := "#" + candidates[0];
        text := ReplaceTrailingTag(text, tag + " ");
        shadow := Blank;
      } else {
        focus := NextFocus(|candidates|, focus);
        shadow := ApplyShadowUpdate(ShadowUpdate(candidates, focus, text), shadow);
      }
    }

    /**
     * Space: commit the focused candidate. A focus left past the end of the
     * list would splice `#undefined`, but then the text has no partial
     * hashtag and is kept as it is.
     */
    method Space()
      requires Valid()
      modifies this
      ensures Valid()
      ensures candidates == old(candidates) && focus == old(focus)
      ensures text == if 0 <= focus < |candidates|
        then ReplaceTrailingTag(old(text), "#" + candidates[focus] + " ")
        else old(text)
      ensures shadow == if focus >= 0 then Blank else old(shadow)
    {
      if focus >= 0 {
        var tag := "#" + JsIndex(candidates, focus);
        text := ReplaceTrailingTag(text, tag + " ");
        shadow := Blank;
      }
    }

    /** A click on the suggestion showing `tag`. */
    method Click(tag: string)
      requires Valid()
      modifies this
      ensures Valid()
      ensures candidates == old(candidates) && focus == old(focus)
      ensures text == ReplaceTrailingTag(old(text), "#" + tag + " ") && shadow == Blank
    {
      text := ReplaceTrailingTag(text, "#" + tag + " ");
      shadow := Blank;
    }

    /** ESC clears a non-empty entry. */
    method Escape()
      requires Valid()
      modifies this
      ensures Valid()
      ensures candidates == old(candidates) && focus == old(focus)
      ensures old(text) != "" ==> text == "" && shadow == Blank
      ensures old(text) == "" ==> text == old(text) && shadow == old(shadow)
    {
      if text != "" {
        text := "";
        shadow := Blank;
      }
    }

    /** The hashtag button appends `#`; a change made by the script raises no input event. */
    method InsertHashtag()
      requires Valid()
      modifies this
      ensures Valid()
      ensures text == old(text) + "#"
      ensures candidates == old(candidates) && focus == old(focus) && shadow == old(shadow)
    {
      text := text + "#";
      NoTagAfterNonTagChar(text);
    }
  }

  /**
   * Two known tags extend `#to`: nothing is previewed until a Tab focuses
   * the first one, whose untyped rest `do` is then shown.
   */
  lemma TwoCandidatesScenario(tags: seq<string>, typed: string)
    requires tags == ["todo", "travel", "tomorrow"] && typed == "hello #to"
    ensures SuggestedTags(tags, typed) == ["todo", "tomorrow"]
    ensures ShadowUpdate(["todo", "tomorrow"], -1, typed) == Some(Blank)
    ensures NextFocus(2, -1) == 0
    ensures ShadowUpdate(["todo", "tomorrow"], 0, typed) == Some(Ghost(FixWhitespace(typed), "do"))
  {
    assert MatchesAt(typed, 6) && typed[7..] == "to";
    assert tags[1..][1..][1..] == [];
    assert "travel"[1] == 'r';
    assert PrefixFilter(tags[1..][1..], "to") == ["tomorrow"];
    assert PrefixFilter(tags[1..], "to") == ["tomorrow"];
    ExtendTrailingTag(typed, 6, "todo");
    assert "todo"[2..] == "do";
    FixWhitespaceIdentity("do");
  }

  /** Text without a partial hashtag, or ending in a lone `#`, is offered nothing. */
  lemma NoPartialTagScenario(tags: seq<string>)
    ensures SuggestedTags(tags, "hello") == []
    ensures SuggestedTags(tags, "hello #") == []
  {
    NoTagAfterNonTagChar("hello #");
  }

  /** Committing `work` over `#wo` keeps the text before the `#` and adds a space. */
  lemma CommitScenario(typed: string)
    requires typed == "at #wo"
    ensures ReplaceTrailingTag(typed, "#work ") == "at #work "
  {
    assert MatchesAt(typed, 3);
    assert typed[..3] == "at ";
  }
}
