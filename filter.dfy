/**
 * The filter box: the field above the log that narrows it to one tag. The
 * whole field is the prefix the known tags are matched against, and a
 * commit replaces the whole field with the chosen tag.
 */
module Filter {
  import opened TagSyntax
  import opened Suggest
  import opened ShadowText

  /**
   * `updateFilterShadowSuggest`: the resolved candidate drawn behind the
   * field, or nothing. The script would fail on `undefined.substring` if the
   * focus pointed past a list of two or more, so that case is excluded.
   */
  function ShadowFor(candidates: seq<string>, focus: int, text: string): (r: Shadow)
    requires |candidates| < 2 || focus < |candidates|
    ensures r.Ghost? <==> candidates != [] && ResolvedIndex(|candidates|, focus) >= 0
    ensures r.Ghost? ==>
      r.invisible + r.visible == FixWhitespace(candidates[ResolvedIndex(|candidates|, focus)])
  {
    if candidates == [] then Blank
    else
      var k := ResolvedIndex(|candidates|, focus);
      if k >= 0 then ShadowMarkup(text, candidates[k]) else Blank
  }

  /**
   * While the candidates are those of the current text, the ghost text is
   * the typed text drawn invisibly followed by the untyped rest of the
   * resolved candidate.
   */
  lemma GhostCompletesTypedText(tags: seq<string>, text: string, focus: int)
    requires 0 <= ResolvedIndex(|PrefixFilter(tags, text)|, focus) < |PrefixFilter(tags, text)|
    ensures
      var candidates := PrefixFilter(tags, text);
      var tag := candidates[ResolvedIndex(|candidates|, focus)];
      text <= tag &&
      ShadowFor(candidates, focus, text) == Ghost(FixWhitespace(text), FixWhitespace(tag[|text|..]))
  {
    var candidates := PrefixFilter(tags, text);
    var tag := candidates[ResolvedIndex(|candidates|, focus)];
    assert tag in candidates;
  }

  /**
   * Space as the script writes it: `filterInput.value =
   * suggestedFilterTags[focus]` whenever the focus is not negative, even
   * when the list has no element there.
   */
  function SpaceAsWritten(candidates: seq<string>, focus: int, text: string): (r: string)
    ensures focus < 0 ==> r == text
    ensures 0 <= focus < |candidates| ==> r == candidates[focus]
    ensures focus >= |candidates| ==> r == "undefined"
  {
    if focus >= 0 then JsIndex(candidates, focus) else text
  }

  /**
   * Emptying the field keeps the focus a Tab gave it, so a Space that
   * follows writes `undefined` into the field: type `t` with known tags
   * `todo` and `tomorrow`, press Tab, erase the field, press Space.
   */
  lemma SpaceAfterClearingWritesUndefined(tags: seq<string>)
    requires tags == ["todo", "tomorrow"]
    ensures PrefixFilter(tags, "t") == tags
    ensures NextFocus(|tags|, -1) == 0
    ensures SpaceAsWritten([], NextFocus(|tags|, -1), "") == "undefined"
    ensures "undefined" !in tags
  {
    assert tags[1..][1..] == [];
    assert PrefixFilter(tags[1..], "t") == tags[1..];
  }

  /** Space as intended: it commits the focused candidate only when there is one. */
  function SpaceCommit(candidates: seq<string>, focus: int, text: string): (r: string)
    ensures 0 <= focus < |candidates| ==> r == candidates[focus]
    ensures !(0 <= focus < |candidates|) ==> r == text
    ensures focus < |candidates| ==> r == SpaceAsWritten(candidates, focus, text)
  {
    if 0 <= focus < |candidates| then candidates[focus] else text
  }

  /**
   * The state of the filter box: the text of the field, the suggested
   * candidates, the focus (-1 for none) and the ghost text shown.
   */
  class FilterBox {
    var text: string
    var candidates: seq<string>
    var focus: int
    var shadow: Shadow

    /** The focus is -1 or a candidate, except after the field was emptied: that empties the list but keeps the focus. */
    ghost predicate Valid()
      reads this
    {
      -1 <= focus && (focus < |candidates| || candidates == [])
    }

    constructor ()
      ensures Valid()
      ensures text == "" && candidates == [] && focus == -1 && shadow == Blank
    {
      text, candidates, focus, shadow := "", [], -1, Blank;
    }

    /**
     * The text changed to `newText`; `tags` are the known tags. An exact
     * match only hides the list: its one candidate stays.
     */
    method Input(newText: string, tags: seq<string>)
      requires Valid()
      modifies this
      ensures Valid()
      ensures text == newText
      ensures newText != "" ==>
        candidates == PrefixFilter(tags, newText) && focus == -1 &&
        shadow == ShadowFor(candidates, focus, newText)
      ensures newText == "" ==> candidates == [] && focus == old(focus) && shadow == Blank
    {
      text := newText;
      if text != "" {
        focus := -1;
        candidates := PrefixFilter(tags, text);
        shadow := ShadowFor(candidates, focus, text);
      } else {
        candidates := [];
        shadow := Blank;
      }
    }

    /** Tab: commit a lone candidate, or move the focus on. The ghost text is kept on a commit. */
    method Tab()
      requires Valid()
      modifies this
      ensures Valid()
      ensures candidates == old(candidates)
      ensures |candidates| == 1 ==>
        text == candidates[0] && focus == old(focus) && shadow == old(shadow)
      ensures |candidates| != 1 ==>
        text == old(text) && focus == NextFocus(|candidates|, old(focus)) &&
        shadow == ShadowFor(candidates, focus, text)
    {
      if |candidates| == 1 {
        text := candidates[0];
      } else {
        focus := NextFocus(|candidates|, focus);
        shadow := ShadowFor(candidates, focus, text);
      }
    }

    /** Space: commit the focused candidate, if the list has one there. */
    method Space()
      requires Valid()
      modifies this
      ensures Valid()
      ensures candidates == old(candidates) && focus == old(focus) && shadow == old(shadow)
      ensures text == SpaceCommit(candidates, focus, old(text))
    {
      text := SpaceCommit(candidates, focus, text);
    }

    /** A click on a tag shown as `html`, in the list or in the log: `innerHTML.replace('#', '')`. */
    method Click(html: string)
      requires Valid()
      modifies this
      ensures Valid()
      ensures candidates == old(candidates) && focus == old(focus) && shadow == old(shadow)
      ensures text == RemoveFirstHash(html)
    {
      text := RemoveFirstHash(html);
    }

    /** ESC empties a non-empty field. */
    method Escape()
      requires Valid()
      modifies this
      ensures Valid()
      ensures candidates == old(candidates) && focus == old(focus)
      ensures old(text) != "" ==> text == "" && shadow == Blank
      ensures old(text) == "" ==> text == old(text) && shadow == old(shadow)
    {
      if text != "" {
        text := "";
        shadow := Blank;
      }
    }
  }

  /** The state in which Space misbehaves as written is reachable from a fresh filter box. */
  method ClearedFieldSession() {
    var tags := ["todo", "tomorrow"];
    SpaceAfterClearingWritesUndefined(tags);
    var box := new FilterBox();
    box.Input("t", tags);
    box.Tab();
    assert box.focus == 0;
    box.Input("", tags);
    assert box.candidates == [] && box.focus == 0;
    assert SpaceAsWritten(box.candidates, box.focus, box.text) == "undefined";
    box.Space();
    assert box.text == "";
  }
}
