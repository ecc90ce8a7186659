/**
 * The composer (`PostEditor`). It owns no state: the text `value` belongs to
 * the feed page, and the editor reports what should happen through its
 * callback props `onAuthRequired`, `onPublish` and `onChange`.
 */
module PostEditor {
  import opened JsString
  import opened Effects

  /** `disabled={!value.trim()}`: the publish button is disabled exactly on blank text. */
  function IsPublishDisabled(value: string): (disabled: bool)
    ensures disabled <==> IsAllWhitespace(value)
  {
    TrimEmptyIffAllWhitespace(value);
    Trim(value) == []
  }

  /**
   * `handlePublish`: a signed-out author is sent to sign in; a signed-in
   * author with non-blank text publishes the text as typed (untrimmed) and then
   * has the composer cleared; blank text does nothing.
   */
  function HandlePublish(isAuthenticated: bool, value: string): (effects: seq<Effect>)
    ensures !isAuthenticated ==> effects == [OnAuthRequired]
    ensures isAuthenticated && IsAllWhitespace(value) ==> effects == []
    ensures isAuthenticated && !IsAllWhitespace(value) ==> effects == [OnPublish(value), OnChange("")]
    ensures OnPublish(value) in effects <==> isAuthenticated && !IsPublishDisabled(value)
  {
    if !isAuthenticated then [OnAuthRequired]
    else if !IsPublishDisabled(value) then [OnPublish(value), OnChange("")]
    else []
  }

  /** Publishing never asks for sign-in from a signed-in author, and never publishes for a signed-out one. */
  lemma PublishGate(isAuthenticated: bool, value: string)
    ensures OnAuthRequired in HandlePublish(isAuthenticated, value) <==> !isAuthenticated
    ensures forall c :: OnPublish(c) in HandlePublish(isAuthenticated, value) ==> isAuthenticated && c == value
  {
    var effects := HandlePublish(isAuthenticated, value);
    if !isAuthenticated {
      assert effects == [OnAuthRequired];
    } else if IsAllWhitespace(value) {
      assert effects == [];
    } else {
      assert effects == [OnPublish(value), OnChange("")];
    }
  }

  /** `handleNotImplemented`, behind the toolbar and footer buttons: one alert and no callback call. */
  function HandleNotImplemented(): (effects: seq<Effect>)
    ensures effects == [Alert(NotImplementedMessage)]
    ensures forall e :: e in effects ==> e.Alert?
  {
    [Alert(NotImplementedMessage)]
  }
}
