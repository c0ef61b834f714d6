/** `text_of`: the whitespace-normalised text of the first element a selector matches. */
module Extract {
  import opened Wrappers
  import opened Strings

  /**
   * A parsed page, seen through `select_one(selector)` followed by
   * `get_text(" ", strip=True)`: the text of the first matching element, or
   * None when no element matches.
   */
  type Doc = string -> Option<string>

  /**
   * Absent when there is no selector (None or empty) or nothing matches;
   * otherwise the element's text with whitespace collapsed.
   */
  function TextOf(doc: Doc, selector: Option<string>): (r: Option<string>)
    ensures r.None? <==> selector.None? || selector.value == "" || doc(selector.value).None?
    ensures r.Some? ==> Collapsed(r.value) && Words(r.value) == Words(doc(selector.value).value)
    ensures r.Some? ==> Collapse(r.value) == r.value
  {
    if selector.None? || selector.value == "" then None
    else match doc(selector.value)
      case None => None
      case Some(text) =>
        CollapseIdempotent(text);
        Some(Collapse(text))
  }
}
