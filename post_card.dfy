/**
 * One post of the feed (`PostCard`): the `Post` record and the auth gate
 * shared by the like, comment and share buttons.
 */
module PostCard {
  import opened Wrappers
  import opened Effects

  /** `Post`: `avatar` and `emoji` are optional, the other fields are required. */
  datatype Post = Post(
    id: string,
    author: string,
    avatar: Option<string>,
    content: string,
    emoji: Option<string>,
    timestamp: string)

  datatype ActionButton = Like | Comment | Share

  /**
   * `handleAction`: a signed-out reader is sent to sign in through
   * `onInteraction()`; a signed-in reader only gets the "not implemented" alert.
   */
  function HandleAction(isAuthenticated: bool): (effects: seq<Effect>)
    ensures |effects| == 1
    ensures effects == [OnInteraction] <==> !isAuthenticated
    ensures isAuthenticated <==> effects == [Alert(NotImplementedMessage)]
    ensures OnInteraction !in effects <==> isAuthenticated
  {
    if !isAuthenticated then [OnInteraction] else [Alert(NotImplementedMessage)]
  }

  /** A click on any of the three action buttons. */
  function OnClick(button: ActionButton, isAuthenticated: bool): (effects: seq<Effect>)
    ensures effects == HandleAction(isAuthenticated)
  {
    match button
    case Like => HandleAction(isAuthenticated)
    case Comment => HandleAction(isAuthenticated)
    case Share => HandleAction(isAuthenticated)
  }

  /** The three buttons are interchangeable: which one is clicked never matters. */
  lemma ButtonsBehaveAlike(b1: ActionButton, b2: ActionButton, isAuthenticated: bool)
    ensures OnClick(b1, isAuthenticated) == OnClick(b2, isAuthenticated)
  {
  }

  /**
   * `{post.emoji && <PostEmoji>…}`: the emoji line is rendered when the field
   * is present and not the empty string (JavaScript truthiness).
   */
  function RenderedEmoji(post: Post): (shown: Option<string>)
    ensures shown.Some? <==> post.emoji.Some? && post.emoji.value != []
    ensures shown.Some? ==> shown == post.emoji
  {
    match post.emoji
    case Some(e) => if e != [] then Some(e) else None
    case None => None
  }
}
