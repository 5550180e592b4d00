// Which video ids the chat shows. Two checks meet here: the sentinel test that
// the chat route applies when picking a video and the page applies before
// mounting the player, and the player's own `isValidVideoId`, which the
// player applies before embedding.
module VideoPlayer {
  import opened JsText

  /** A present, non-empty id that is neither of the placeholders `NULL` and
      `EMPTY` the corpus uses for "no video". */
  predicate HasVideo(id: Option<string>) {
    Truthy(id) && id.value != "NULL" && id.value != "EMPTY"
  }

  /** The player's check: reject the empty string and the two placeholders,
      then accept exactly the ids of 11 or 12 characters. The placeholders are
      too short anyway, so only the length decides. */
  function IsValidVideoId(id: string): (r: bool)
    ensures r <==> 11 <= |id| <= 12
    ensures id == "" || id == "NULL" || id == "EMPTY" ==> !r
  {
    if id == "" then false
    else if id == "NULL" || id == "EMPTY" then false
    else 11 <= |id| <= 12
  }

  /** Every id the player accepts also passes the page's display check. */
  lemma ValidIdIsShown(id: string)
    requires IsValidVideoId(id)
    ensures HasVideo(Some(id))
  {
  }

  /** The converse fails: the page mounts the player for an id the player then
      refuses, and the player shows its "no video" notice instead. */
  lemma ShownIdMayBeInvalid()
    ensures HasVideo(Some("abc")) && !IsValidVideoId("abc")
  {
    assert "abc" != "NULL";
    assert "abc" != "EMPTY";
  }
}
