# social-feed, modelled in Dafny

A model of the logic under the React/MUI front end of *social-feed*: a feed
page where a visitor can read sample posts, sign in or sign up through a
flipping modal card, and publish short posts once signed in. Everything the
code keeps is in memory; nothing is stored or sent anywhere.

The model covers three groups.

- **Credential validators.** The `handleSubmit` bodies of the sign-in form
  (`LoginForm`), the `/login` page, the sign-up form (`SignUpForm`) and the
  `/signup` page. Each one is a function from the typed fields to a verdict
  datatype, plus a function from the verdict to the calls the handler makes
  (`alert`, `onSubmit()`, `router.push('/')`, `console.log`). The lemmas cover
  check order, e-mail normalisation and the regex, the agreement of the two
  sign-in copies, and the fact that an e-mail accepted by sign-up can never
  sign in.
- **Feed session state.** `FeedPage` is a class whose fields are the
  page's `useState` variables (`isAuthenticated`, `showAuthModal`, `posts`,
  `postContent`) plus the mounted auth modal. Its methods are the page's
  handlers and the user actions that reach them through `PostEditor`,
  `PostCard`, the header and the modal. Each contract states the new value
  of every field. The invariant `Valid()` says that the post list only grows
  at the front, above the three sample posts. `PostEditor` and `PostCard`
  own no state, so they are modelled as functions returning the callback
  calls they make.
- **Auth-modal mode machine.** `AuthModal` is a pure state
  `(open, mode, isFlipped, pending)` with a `Step` function over the events
  `Toggle`, `Fire` and `SetOpen`. `pending` is the FIFO queue of scheduled
  `setTimeout` swaps. A class `Modal` holds the same fields, and each of its
  methods is proved equal to one `Step`. The lemmas show:
  - two quick toggles leave the card and the form out of step;
  - reopening the modal does not cancel a scheduled swap;
  - a session that never toggles or reopens while a swap is pending keeps
    the card and the form in step.

Files: `js_builtins.dfy` (`trim`, `\s`, ASCII `toLowerCase`, `Array.find`),
`effects.dfy` (the calls a handler makes), `login_form.dfy`,
`login_page.dfy`, `signup_form.dfy`, `signup_page.dfy`, `post_card.dfy`,
`post_editor.dfy`, `auth_modal.dfy`, `feed_page.dfy`.

Where the behaviour described for the system and the code differ, the model
follows the code:

- The header button toggles. Signed in, it signs out. Signed out, it opens
  the modal. So a second "logout" click opens the modal rather than doing
  nothing.
- `handlePublishPost` checks neither the session nor the text. The
  signed-in and non-blank checks live in `PostEditor.handlePublish` and in
  the button's `disabled` flag.
- A toggle negates `isFlipped` rather than setting it to true.
- Two quick toggles do not race to different modes. Both scheduled swaps set
  the same mode, the opposite of the one captured by both toggles.

## Model

| member | source | states |
|---|---|---|
| JsArray.Find | src/components/AuthModal/LoginForm.tsx:155-157 | `find` returns nothing exactly when no element satisfies the predicate, and otherwise returns the first element that does |
| JsString.ToLowerAscii | src/components/AuthModal/LoginForm.tsx:156 | lower-casing keeps the length and lower-cases each ASCII capital in place |
| JsString.TrimEmptyIffAllWhitespace | src/components/PostEditor/PostEditor.tsx:131 | `s.trim()` is empty exactly when every character of `s` is whitespace |
| JsString.Trim | src/components/PostEditor/PostEditor.tsx:131 | `s.trim()`; its meaning is stated by `TrimEmptyIffAllWhitespace`, `TrimWithoutWhitespace`, `TrimPadded` and `TrimKeepsNoUpper` |
| JsString.TrimWithoutWhitespace | src/components/AuthModal/SignUpForm.tsx:160 | a string without whitespace is its own trim |
| JsString.TrimKeepsNoUpper | src/components/AuthModal/LoginForm.tsx:156 | trimming keeps only characters of its input, so it creates no ASCII capital |
| JsString.NormalizeEmail | src/components/AuthModal/LoginForm.tsx:156 | `email.toLowerCase().trim()`; its meaning is stated by `NormalizeEmailFacts` and `NormalizeEmailCanonical` |
| JsString.NormalizeEmailFacts | src/components/AuthModal/SignUpForm.tsx:160 | the normal form is no longer than the e-mail, holds no ASCII capital, is empty exactly when the e-mail is all whitespace, and is the plain lower-cased e-mail when the e-mail has no whitespace |
| JsString.TrimPadded | src/components/AuthModal/LoginForm.tsx:156 | `trim` removes exactly one blank on each side of a non-empty blank-free string |
| JsString.NormalizeEmailCanonical | src/components/AuthModal/LoginForm.tsx:156 | an e-mail with no blanks and no capitals is unchanged by `toLowerCase().trim()` |
| LoginForm.Decide | src/components/AuthModal/LoginForm.tsx:149-171 | missing fields exactly when a raw field is empty; accepted exactly when some credential has the normalised e-mail and the verbatim password; wrong password exactly when there is no such pair but the normalised e-mail is listed; unknown otherwise |
| LoginForm.HandleSubmit | src/components/AuthModal/LoginForm.tsx:145-173 | exactly one call: `onSubmit()` on acceptance, and an alert on every rejection |
| LoginForm.WhitespaceEmailIsUnknown | src/components/AuthModal/LoginForm.tsx:149-156 | an all-blank e-mail passes the raw emptiness check and is then reported as unknown |
| LoginForm.PasswordIsVerbatim | src/components/AuthModal/LoginForm.tsx:156 | once a pair is accepted, any other non-empty password for the same e-mail is a wrong password |
| LoginForm.ListedEmailOtherPassword | src/components/AuthModal/LoginForm.tsx:163-168 | a listed e-mail with a password other than its own is a wrong password |
| LoginForm.ExamplePaddedEmailAccepted | src/components/AuthModal/LoginForm.tsx:155-160 | `(" DEMO@example.com ", "password123")` is accepted |
| LoginForm.ExampleWrongPassword | src/components/AuthModal/LoginForm.tsx:163-168 | `("demo@example.com", "wrong")` is a wrong password |
| LoginForm.ExampleUnknownEmail | src/components/AuthModal/LoginForm.tsx:163-171 | `("nobody@x.com", "x")` is unknown |
| LoginPage.Decide | src/app/login/page.tsx:147-170 | the page's decision over its own credential list equals the modal form's decision on every input |
| LoginPage.HandleSubmit | src/app/login/page.tsx:143-172 | exactly one call: navigation to `/` exactly on acceptance; on rejection no navigation, only the form's alert |
| SignUpForm.MatchesEmailRegex | src/components/AuthModal/SignUpForm.tsx:153 | the regex test `^[^\s@]+@[^\s@]+\.[^\s@]+$`; it is characterised by `EmailRegexIffShape` |
| SignUpForm.RegexImpliesShape | src/components/AuthModal/SignUpForm.tsx:153-154 | a string matching `^[^\s@]+@[^\s@]+\.[^\s@]+$` has no whitespace, exactly one `@`, a non-empty local part and an inner dot in the domain |
| SignUpForm.ShapeImpliesRegex | src/components/AuthModal/SignUpForm.tsx:153-154 | a string with those three properties matches the regex |
| SignUpForm.EmailRegexIffShape | src/components/AuthModal/SignUpForm.tsx:153-157 | the regex and the three conditions accept the same strings |
| SignUpForm.WellFormedEmailIsTrimmed | src/components/AuthModal/SignUpForm.tsx:153-160 | on an e-mail that passed the format check, `trim` is the identity, so the registration test is a plain lower-cased lookup |
| SignUpForm.RegistrationTestOnWellFormed | src/components/AuthModal/SignUpForm.tsx:160-163 | on a well-formed e-mail, "already registered" holds exactly when its lower-cased form is in `VALID_EMAILS` |
| SignUpForm.EmailChecksAgree | src/components/AuthModal/SignUpForm.tsx:153-163 | the two e-mail checks restated without the regex and without `trim` |
| SignUpForm.Decide | src/components/AuthModal/SignUpForm.tsx:147-178 | each verdict holds exactly when every earlier check passes and its own check fails: missing fields, invalid e-mail, already registered, mismatch (before length), too short, and accepted when all pass |
| SignUpForm.HandleSubmit | src/components/AuthModal/SignUpForm.tsx:143-179 | exactly one call: `onSubmit()` exactly when all five checks pass, otherwise an alert |
| SignUpForm.ValidEmailsAreLoginEmails | src/components/AuthModal/SignUpForm.tsx:16 | `VALID_EMAILS` is exactly the set of e-mails in the sign-in form's credential list |
| SignUpForm.AcceptedSignUpCannotSignIn | src/components/AuthModal/SignUpForm.tsx:160-178 | an e-mail that sign-up accepts is never accepted by the sign-in form, and with a non-empty password it is reported unknown |
| SignUpForm.ExampleAlreadyRegistered | src/components/AuthModal/SignUpForm.tsx:160-163 | `("demo@example.com", "longenough1", "longenough1")` is already registered |
| SignUpPage.Decide | src/app/signup/page.tsx:94-101 | accepted exactly when the passwords match and have at least 8 characters; mismatch exactly when they differ; too short exactly when they match but are shorter |
| SignUpPage.HandleSubmit | src/app/signup/page.tsx:92-104 | exactly one call: the console log of the three fields exactly on acceptance, otherwise an alert; never `onSubmit()` or a navigation |
| SignUpPage.EmailIgnored | src/app/signup/page.tsx:92-103 | the e-mail never influences the page's verdict |
| SignUpPage.FormAcceptedImpliesPageAccepted | src/app/signup/page.tsx:94-101 | whatever the modal form accepts, the page accepts |
| SignUpPage.FormPasswordVerdictsAgree | src/app/signup/page.tsx:94-101 | a mismatch or too-short verdict of the form is also the page's verdict |
| SignUpPage.ExampleEmptyEmailAccepted | src/app/signup/page.tsx:92-103 | an empty e-mail with matching long passwords is accepted by the page, while the form reports missing fields |
| SignUpPage.ExampleShortMismatch | src/app/signup/page.tsx:94-97 | a short mismatched pair is reported as a mismatch |
| PostCard.HandleAction | src/components/PostCard/PostCard.tsx:100-106 | exactly one call: `onInteraction()` exactly when signed out, the "not implemented" alert exactly when signed in |
| PostCard.OnClick | src/components/PostCard/PostCard.tsx:124-132 | every action button runs `handleAction` |
| PostCard.ButtonsBehaveAlike | src/components/PostCard/PostCard.tsx:124-132 | like, comment and share behave identically |
| PostCard.RenderedEmoji | src/components/PostCard/PostCard.tsx:119 | the emoji is rendered exactly when present and non-empty, and it is the post's own |
| PostEditor.IsPublishDisabled | src/components/PostEditor/PostEditor.tsx:192 | the publish button is disabled exactly when the text is all whitespace |
| PostEditor.HandlePublish | src/components/PostEditor/PostEditor.tsx:126-135 | signed out: only `onAuthRequired()`; signed in with blank text: nothing; otherwise `onPublish(value)` with the untrimmed text, then `onChange('')`; publishing happens exactly when signed in and the button is enabled |
| PostEditor.PublishGate | src/components/PostEditor/PostEditor.tsx:127-134 | `onAuthRequired()` is called exactly when signed out, and anything published is the typed text of a signed-in author |
| AuthModal.Opposite | src/components/AuthModal/AuthModal.tsx:85 | the swap target always differs from the mode it was computed from |
| AuthModal.FrontFace | src/components/AuthModal/AuthModal.tsx:99-103 | the front face shows the sign-in form exactly when `mode` is login |
| AuthModal.BackFace | src/components/AuthModal/AuthModal.tsx:106-110 | the back face shows the sign-up form exactly when `mode` is signup |
| AuthModal.FacesAgree | src/components/AuthModal/AuthModal.tsx:99-110 | both faces render the same form, the sign-in form exactly when `mode` is login |
| AuthModal.Initial | src/components/AuthModal/AuthModal.tsx:71-72 | the modal starts in login mode, unflipped, with nothing scheduled |
| AuthModal.Step | src/components/AuthModal/AuthModal.tsx:74-87 | a toggle negates `isFlipped` and schedules the opposite of the current mode; a firing swap sets `mode` to the oldest scheduled target; opening a closed modal resets `mode` and `isFlipped` and keeps the schedule |
| AuthModal.FirePreservesEventual | src/components/AuthModal/AuthModal.tsx:84-86 | a firing swap never changes the mode the modal is headed for, so it keeps card and form in step |
| AuthModal.ToggleAgreementIff | src/components/AuthModal/AuthModal.tsx:81-87 | from an agreeing state, a toggle keeps the agreement exactly when the scheduled swaps end on the current mode |
| AuthModal.OpenAgreementIff | src/components/AuthModal/AuthModal.tsx:74-79 | reopening a closed modal leaves card and form in step exactly when no swap is scheduled or the newest scheduled swap targets login |
| AuthModal.DoubleToggleDesync | src/components/AuthModal/AuthModal.tsx:81-87 | two toggles then two swaps: `isFlipped` is back where it started, `mode` is switched, and card and form disagree |
| AuthModal.ReopenDuringSwapDesync | src/components/AuthModal/AuthModal.tsx:74-87 | toggle, close and reopen before the swap fires: the reset card ends unflipped in sign-up mode |
| AuthModal.WellPacedKeepsAgreement | src/components/AuthModal/AuthModal.tsx:74-87 | a run that never toggles or reopens while a swap is pending keeps card and form in step |
| AuthModal.WellPacedSessionAgrees | src/components/AuthModal/AuthModal.tsx:71-87 | such a run from mount never shows the wrong face |
| AuthModal.QueueOnlyDrainsWithoutToggle | src/components/AuthModal/AuthModal.tsx:84-86 | without toggles the schedule only loses its oldest entries, and every remaining swap keeps the mode captured by its own toggle |
| AuthModal.HandleAuth | src/components/AuthModal/AuthModal.tsx:89-92 | `onAuthenticate()` is called first, then `onClose()` |
| AuthModal.Modal.constructor | src/components/AuthModal/AuthModal.tsx:71-72 | the mounted modal is in the initial state |
| AuthModal.Modal.OpenChanged | src/components/AuthModal/AuthModal.tsx:74-79 | the new state is the `SetOpen` step |
| AuthModal.Modal.HandleToggleMode | src/components/AuthModal/AuthModal.tsx:81-87 | the new state is the `Toggle` step |
| AuthModal.Modal.FireSwap | src/components/AuthModal/AuthModal.tsx:84-86 | the new state is the `Fire` step |
| AuthModal.Modal.ShownForm | src/components/AuthModal/AuthModal.tsx:97-111 | the form shown is that of both faces for the current `mode`, flipped or not |
| FeedPage.NewPost | src/app/page.tsx:93-101 | the new post carries the given text and id, the author "Current User", the timestamp "Just now", an avatar from `AVATAR_LIST` and no emoji |
| FeedPage.PrependKeepsShape | src/app/page.tsx:102 | prepending a user post keeps the feed's shape, and keeps every user post non-blank when the new one is |
| FeedPage.Feed.constructor | src/app/page.tsx:70-73 | signed out, modal closed, posts are `DUMMY_POSTS`, empty composer, modal in its initial state |
| FeedPage.Feed.SetShowAuthModal | src/app/page.tsx:128-130 | `showAuthModal` takes the new value, the modal reacts to its `open` prop, and nothing else changes |
| FeedPage.Feed.HandleAuthClick | src/app/page.tsx:75-81 | signed in: sign out and leave the modal alone; signed out: open the modal and stay signed out; posts and composer unchanged |
| FeedPage.Feed.HandleAuthenticate | src/app/page.tsx:83-85 | signed in afterwards, with nothing else changed, so a second call changes nothing |
| FeedPage.Feed.HandleAuthRequired | src/app/page.tsx:87-89 | opens the modal and changes neither the session nor the posts |
| FeedPage.Feed.HandlePublishPost | src/app/page.tsx:91-103 | the list becomes the new post followed by the old list, whatever the session and the text; nothing else changes |
| FeedPage.Feed.SetPostContent | src/app/page.tsx:110-116 | the composer text takes the typed value and nothing else changes |
| FeedPage.Feed.ClickPublish | src/components/PostEditor/PostEditor.tsx:126-135 | with blank text the button is disabled: no call and no change; otherwise the editor's calls are carried out: signed out opens the modal, signed in prepends the untrimmed text and clears the composer; a post is added only by a signed-in author with non-blank text, and every user post stays non-blank |
| FeedPage.Feed.ClickPostAction | src/app/page.tsx:118-124 | signed out, any post button opens the modal; signed in, it only alerts; session, posts and composer never change |
| PostEditor.HandleNotImplemented | src/components/PostEditor/PostEditor.tsx:122-124 | a toolbar or footer button makes exactly one call, the alert "Function not implemented" |
| FeedPage.Feed.CloseModal | src/app/page.tsx:130 | `onClose` hides the modal and changes nothing else |
| FeedPage.Feed.PerformAuthCall | src/components/AuthModal/AuthModal.tsx:89-92 | `onAuthenticate()` signs the page in and `onClose()` hides the modal and runs its close step; posts and composer never change |
| FeedPage.Feed.SubmitAuthForm | src/app/page.tsx:128-132 | the shown form decides; on acceptance the page is signed in and the modal closed, on rejection only an alert is shown and nothing changes |

## Left out

- Rendering and styling: the styled components, MUI layout, icons and the 3-D flip CSS. The same goes for `Header` (a label and icon chosen by `isAuthenticated`), `AuthCard`, the root layout and `ThemeRegistry`. `ThemeRegistry` is not part of this model.
- `alert`, `console.log`, `router.push` and the callback props are not performed. Each handler returns them, in order, as `Effects.Effect` values.
- `Math.random()` and `Date.now()` in `handlePublishPost` are the parameters `avatarIndex` (below the length of `AVATAR_LIST`) and `id`.
- FeedPage.Feed.HandlePublishPost: does not claim that post ids are unique, because two publishes in the same millisecond get the same `Date.now()` id.
- React scheduling: state updates take effect at once, and the `[open]` effect runs as soon as `open` changes. Between two user events the component re-renders, so a toggle reads the current `mode` and `isFlipped`. Stale closures from two toggles inside one render are not modelled.
- The 300 ms `setTimeout` is a FIFO queue of scheduled swaps, fired by the `Fire` event. Wall-clock time is not modelled. All timers have the same delay, so they fire in the order they were set.
- AuthModal.Step: a `Fire` with nothing scheduled is given no effect; it cannot occur, since a timer fires only after a toggle set it.
- JsString.ToLowerAscii: lower-cases ASCII letters only; the full Unicode case mapping of `toLowerCase` is not modelled.
- String lengths (the 8-character minimum) are counted in code points, not UTF-16 units.
- Browser constraint validation (`required`, `type="email"` on the inputs) is not modelled. Each `handleSubmit` is modelled as if called with any field values.
- The close buttons and the backdrop close of the modal call the page's `onClose` directly. That is `FeedPage.Feed.CloseModal`.
- The standalone `/login` and `/signup` pages keep their fields in local `useState`. Only their submit decisions are modelled.
