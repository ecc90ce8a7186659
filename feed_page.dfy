/**
 * The feed page (`FeedPage`, route `/`): the session flag, the auth modal's
 * visibility, the list of posts and the composer text, owned here and
 * updated by the page's handlers and by the calls its children make.
 *
 * `Math.random()` and `Date.now()` in `handlePublishPost` become the
 * parameters `avatarIndex` and `id`.
 */
module FeedPage {
  import opened Wrappers
  import opened JsString
  import opened Effects
  import opened PostCard
  import PostEditor
  import LoginForm
  import SignUpForm
  import AuthModal

  /** `AVATAR_LIST` */
  const AvatarList: seq<string> := [
    "/avatar/baby-crocodile-head.svg",
    "/avatar/black-goat-head.svg",
    "/avatar/black-owl-head.svg",
    "/avatar/cow-head.svg",
    "/avatar/cute-fox-head.svg",
    "/avatar/rabbit-head.svg",
    "/avatar/white-cat-head.svg"
  ]

  /** The three entries of `DUMMY_POSTS`. */
  const RupankPost := Post("1", "Rupank", Some("/avatar/black-goat-head.svg"),
    "Hi, I'm Rupank, a Software Engineer with around 3 YoE aimed at delivering intuitive UIs, seamless UX, eliminating unnecessary complexities, making apps faster and easier to use/code. I'm adept at React, Next.js, Ionic, Javascript/Typescript, Redux, MUI, Sass, and have some experience with Java, Php, and MySql. I'm always trying to make better tech, one commit at a time!",
    Some("\U{1F60A}"), "11 mins ago")
  const PeterParkerPost := Post("2", "Peter Parker", Some("/avatar/cute-fox-head.svg"),
    "This is Peter Parker your friendly neighbourhood Spiderman, a curious, soft-spoken photographer with a knack for being in the right place at the wrong time. I balance my time between studying, freelancing, and figuring life out one step at a time. I enjoy science, honest conversations, and capturing real moments through my camera. I believe with great power comes great responsibility.",
    Some("\U{1F44D}"), "33 mins ago")
  const MaryJanePost := Post("3", "Mary Jane", Some("/avatar/rabbit-head.svg"),
    "Hey there, I'm MJ! I love creative chaos, late-night ideas, and doing things that feel exciting (even if they scare me a little). I'm big on self-expression, good energy, and people who keep it real. I believe life's better when you take chances, laugh often, and don't overthink everything.",
    Some("\U{1F480}"), "47 mins ago")

  /** `DUMMY_POSTS` */
  const DummyPosts: seq<Post> := [RupankPost, PeterParkerPost, MaryJanePost]

  const CurrentUser := "Current User"
  const JustNow := "Just now"

  /** The post `handlePublishPost` builds for `content`. */
  function NewPost(content: string, avatarIndex: nat, id: string): (p: Post)
    requires avatarIndex < |AvatarList|
    ensures p.content == content && p.id == id
    ensures p.author == CurrentUser && p.timestamp == JustNow
    ensures p.avatar.Some? && p.avatar.value in AvatarList
    ensures p.emoji.None? && RenderedEmoji(p).None?
  {
    Post(id, CurrentUser, Some(AvatarList[avatarIndex]), content, None, JustNow)
  }

  /** A post published from this page: by the current user, just now, with a listed avatar and no emoji. */
  predicate IsUserPost(p: Post) {
    p.author == CurrentUser && p.timestamp == JustNow && p.avatar.Some? && p.avatar.value in AvatarList && p.emoji.None?
  }

  /** The list only ever grows at the front: user posts, newest first, above the initial posts. */
  predicate FeedShape(posts: seq<Post>, initial: seq<Post>) {
    && |posts| >= |initial|
    && posts[|posts| - |initial|..] == initial
    && forall i :: 0 <= i < |posts| - |initial| ==> IsUserPost(posts[i])
  }

  /** Every user post holds some non-blank text. */
  predicate UserPostsNonBlank(posts: seq<Post>, initial: seq<Post>)
    requires FeedShape(posts, initial)
  {
    forall i :: 0 <= i < |posts| - |initial| ==> !IsAllWhitespace(posts[i].content)
  }

  /** Prepending a new post keeps the shape of the list. */
  lemma PrependKeepsShape(posts: seq<Post>, initial: seq<Post>, p: Post)
    requires FeedShape(posts, initial) && IsUserPost(p)
    ensures FeedShape([p] + posts, initial)
    ensures UserPostsNonBlank(posts, initial) && !IsAllWhitespace(p.content) ==> UserPostsNonBlank([p] + posts, initial)
  {
    var r := [p] + posts;
    assert r[|r| - |initial|..] == posts[|posts| - |initial|..];
    assert forall i :: 1 <= i < |r| ==> r[i] == posts[i - 1];
  }

  /** The page component, with its four `useState` variables and the mounted auth modal. */
  class Feed {
    var isAuthenticated: bool
    var showAuthModal: bool
    var posts: seq<Post>
    var postContent: string
    const modal: AuthModal.Modal
    /** The value `posts` was initialised with. */
    const initialPosts: seq<Post>

    /** The modal's `open` prop is `showAuthModal`, and the post list keeps its shape. */
    predicate Valid()
      reads this, modal
    {
      modal.open == showAuthModal && FeedShape(posts, initialPosts)
    }

    /** The first render: signed out, modal closed, the sample posts, an empty composer. */
    constructor()
      ensures Valid()
      ensures !isAuthenticated && !showAuthModal && posts == DummyPosts && postContent == []
      ensures initialPosts == DummyPosts && UserPostsNonBlank(posts, initialPosts)
      ensures fresh(modal) && modal.State() == AuthModal.Initial(false)
    {
      isAuthenticated := false;
      showAuthModal := false;
      posts := DummyPosts;
      initialPosts := DummyPosts;
      postContent := [];
      modal := new AuthModal.Modal(false);
    }

    /** `setShowAuthModal(b)`, followed by the modal's reaction to its new `open` prop. */
    method SetShowAuthModal(b: bool)
      requires Valid()
      modifies this, modal
      ensures Valid()
      ensures showAuthModal == b
      ensures isAuthenticated == old(isAuthenticated) && posts == old(posts) && postContent == old(postContent)
      ensures modal.State() == AuthModal.Step(old(modal.State()), AuthModal.SetOpen(b))
    {
      showAuthModal := b;
      modal.OpenChanged(b);
    }

    /** `handleAuthClick` (the header button): sign out when signed in, otherwise open the modal. */
    method HandleAuthClick()
      requires Valid()
      modifies this, modal
      ensures Valid()
      ensures old(isAuthenticated) ==> !isAuthenticated && showAuthModal == old(showAuthModal)
      ensures !old(isAuthenticated) ==> !isAuthenticated && showAuthModal
      ensures posts == old(posts) && postContent == old(postContent)
      ensures modal.State() == AuthModal.Step(old(modal.State()), AuthModal.SetOpen(showAuthModal))
    {
      if isAuthenticated {
        isAuthenticated := false;
      } else {
        SetShowAuthModal(true);
      }
    }

    /** `handleAuthenticate`: signed in; calling it again changes nothing. */
    method HandleAuthenticate()
      requires Valid()
      modifies this
      ensures Valid()
      ensures isAuthenticated
      ensures showAuthModal == old(showAuthModal) && posts == old(posts) && postContent == old(postContent)
    {
      isAuthenticated := true;
    }

    /** `handleAuthRequired`: open the modal, and nothing else. */
    method HandleAuthRequired()
      requires Valid()
      modifies this, modal
      ensures Valid()
      ensures showAuthModal
      ensures isAuthenticated == old(isAuthenticated) && posts == old(posts) && postContent == old(postContent)
      ensures modal.State() == AuthModal.Step(old(modal.State()), AuthModal.SetOpen(true))
    {
      SetShowAuthModal(true);
    }

    /**
     * `handlePublishPost(content)`: prepend a new post. It checks neither the
     * session nor the text; that gating is done by the editor.
     */
    method HandlePublishPost(content: string, avatarIndex: nat, id: string)
      requires Valid() && avatarIndex < |AvatarList|
      modifies this
      ensures Valid()
      ensures posts == [NewPost(content, avatarIndex, id)] + old(posts)
      ensures |posts| == |old(posts)| + 1 && posts[0].content == content && posts[1..] == old(posts)
      ensures isAuthenticated == old(isAuthenticated) && showAuthModal == old(showAuthModal)
      ensures postContent == old(postContent)
      ensures UserPostsNonBlank(old(posts), initialPosts) && !IsAllWhitespace(content) ==> UserPostsNonBlank(posts, initialPosts)
    {
      var p := NewPost(content, avatarIndex, id);
      PrependKeepsShape(posts, initialPosts, p);
      posts := [p] + posts;
    }

    /** The composer's `onChange`: `setPostContent(value)`. */
    method SetPostContent(value: string)
      requires Valid()
      modifies this
      ensures Valid()
      ensures postContent == value
      ensures isAuthenticated == old(isAuthenticated) && showAuthModal == old(showAuthModal) && posts == old(posts)
    {
      postContent := value;
    }

    /**
     * A click on the composer's publish button, with the editor's calls
     * carried out by the page. On blank text the button is disabled and the
     * click does nothing at all, signed in or not. Otherwise a signed-out
     * author gets the modal, and a signed-in author publishes the text as typed
     * and has the composer cleared. A post is added only by a signed-in author
     * with non-blank text.
     */
    method ClickPublish(avatarIndex: nat, id: string) returns (effects: seq<Effect>)
      requires Valid() && avatarIndex < |AvatarList|
      modifies this, modal
      ensures Valid()
      ensures effects ==
        if PostEditor.IsPublishDisabled(old(postContent)) then []
        else PostEditor.HandlePublish(old(isAuthenticated), old(postContent))
      ensures isAuthenticated == old(isAuthenticated)
      ensures IsAllWhitespace(old(postContent)) ==>
        showAuthModal == old(showAuthModal) && posts == old(posts) && postContent == old(postContent) &&
        modal.State() == old(modal.State())
      ensures !old(isAuthenticated) && !IsAllWhitespace(old(postContent)) ==>
        showAuthModal && posts == old(posts) && postContent == old(postContent) &&
        modal.State() == AuthModal.Step(old(modal.State()), AuthModal.SetOpen(true))
      ensures old(isAuthenticated) && !IsAllWhitespace(old(postContent)) ==>
        showAuthModal == old(showAuthModal) && postContent == [] &&
        posts == [NewPost(old(postContent), avatarIndex, id)] + old(posts) &&
        modal.State() == old(modal.State())
      ensures |posts| > |old(posts)| ==> old(isAuthenticated) && !IsAllWhitespace(old(postContent))
      ensures UserPostsNonBlank(old(posts), initialPosts) ==> UserPostsNonBlank(posts, initialPosts)
    {
      if PostEditor.IsPublishDisabled(postContent) {
        // `disabled={!value.trim()}`: the click never reaches `handlePublish`
        effects := [];
      } else {
        effects := PostEditor.HandlePublish(isAuthenticated, postContent);
        if !isAuthenticated {
          HandleAuthRequired();
        } else {
          var content := postContent;
          HandlePublishPost(content, avatarIndex, id);
          SetPostContent([]);
        }
      }
    }

    /** A click on a post's like, comment or share button. */
    method ClickPostAction(button: ActionButton) returns (effects: seq<Effect>)
      requires Valid()
      modifies this, modal
      ensures Valid()
      ensures effects == OnClick(button, old(isAuthenticated))
      ensures isAuthenticated == old(isAuthenticated) && posts == old(posts) && postContent == old(postContent)
      ensures !old(isAuthenticated) ==>
        showAuthModal && modal.State() == AuthModal.Step(old(modal.State()), AuthModal.SetOpen(true))
      ensures old(isAuthenticated) ==>
        showAuthModal == old(showAuthModal) && modal.State() == old(modal.State())
    {
      effects := OnClick(button, isAuthenticated);
      if !isAuthenticated {
        HandleAuthRequired();
      }
    }

    /** The modal's `onClose`: `setShowAuthModal(false)`. */
    method CloseModal()
      requires Valid()
      modifies this, modal
      ensures Valid()
      ensures !showAuthModal
      ensures isAuthenticated == old(isAuthenticated) && posts == old(posts) && postContent == old(postContent)
      ensures modal.State() == AuthModal.Step(old(modal.State()), AuthModal.SetOpen(false))
    {
      SetShowAuthModal(false);
    }

    /** One call of `handleAuth` carried out by the page: `onAuthenticate` or `onClose`. */
    method PerformAuthCall(call: Effect)
      requires Valid()
      modifies this, modal
      ensures Valid()
      ensures posts == old(posts) && postContent == old(postContent)
      ensures call == OnAuthenticate ==>
        isAuthenticated && showAuthModal == old(showAuthModal) && modal.State() == old(modal.State())
      ensures call == OnClose ==>
        isAuthenticated == old(isAuthenticated) && !showAuthModal &&
        modal.State() == AuthModal.Step(old(modal.State()), AuthModal.SetOpen(false))
      ensures call != OnAuthenticate && call != OnClose ==>
        isAuthenticated == old(isAuthenticated) && showAuthModal == old(showAuthModal) &&
        modal.State() == old(modal.State())
    {
      if call == OnAuthenticate {
        HandleAuthenticate();
      } else if call == OnClose {
        CloseModal();
      }
    }

    /**
     * Submitting the form the open modal shows (sign-in when `mode` is login,
     * sign-up otherwise). On acceptance the form calls `handleAuth`, whose two
     * calls sign in and then close the modal; on rejection only an alert is shown.
     */
    method SubmitAuthForm(email: string, password: string, repeatPassword: string) returns (effects: seq<Effect>)
      requires Valid() && showAuthModal
      modifies this, modal
      ensures Valid()
      ensures old(modal.mode) == AuthModal.Login ==> effects == LoginForm.HandleSubmit(email, password)
      ensures old(modal.mode) == AuthModal.Signup ==> effects == SignUpForm.HandleSubmit(email, password, repeatPassword)
      ensures posts == old(posts) && postContent == old(postContent)
      ensures effects == [OnSubmit] ==>
        isAuthenticated && !showAuthModal &&
        modal.State() == AuthModal.Step(old(modal.State()), AuthModal.SetOpen(false))
      ensures effects != [OnSubmit] ==>
        isAuthenticated == old(isAuthenticated) && showAuthModal && modal.State() == old(modal.State())
    {
      if modal.mode == AuthModal.Login {
        effects := LoginForm.HandleSubmit(email, password);
      } else {
        effects := SignUpForm.HandleSubmit(email, password, repeatPassword);
      }
      if effects == [OnSubmit] {
        var calls := AuthModal.HandleAuth();
        PerformAuthCall(calls[0]);
        PerformAuthCall(calls[1]);
      }
    }
  }
}
