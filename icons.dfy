/**
 * The category-to-emoji lookup used to prefix note labels in the tree:
 * a fixed map of three categories and a light-bulb default.
 */
module Icons {
  import opened Wrappers

  const Bulb: string := "\U{1F4A1}"
  const Check: string := "\U{2705}"
  const Wrench: string := "\U{1F527}"

  /** The fixed `emojiMap`. */
  const EmojiMap: map<string, string> := map["note" := Bulb, "todo" := Check, "fix" := Wrench]

  /**
   * `emojiMap[category] || "💡"`. A NULL category (the store leaves the
   * column NULL until a category is chosen) finds nothing in the map.
   */
  function GetEmoji(category: Option<string>): (r: string)
    ensures r != ""
    ensures category.Some? && category.value in EmojiMap ==> r == EmojiMap[category.value]
    ensures (category.None? || category.value !in EmojiMap) ==> r == Bulb
  {
    if category.Some? && category.value in EmojiMap && EmojiMap[category.value] != "" then
      EmojiMap[category.value]
    else
      Bulb
  }

  /** The three known categories and the fallback, case by case. */
  lemma EmojiCases()
    ensures GetEmoji(Some("note")) == Bulb
    ensures GetEmoji(Some("todo")) == Check
    ensures GetEmoji(Some("fix")) == Wrench
    ensures GetEmoji(Some("")) == Bulb && GetEmoji(None) == Bulb
    ensures GetEmoji(Some("Todo")) == Bulb
  {
  }
}
