# peer-teach-now: the component logic, modelled in Dafny

peer-teach-now is a React front end for a peer-tutoring site on a hosted table store.
Teachers publish teaching offers and open time slots. Students browse offers, pick slots
and message teachers. Sessions move through a small set of statuses, and either party can
leave a review. Nearly all of its logic lives inside components as small decisions and
local state updates. This project models that logic, component by component, and proves
what each component promises.

- **Browse** (`browse.dfy`): the offer search (case-insensitive substring search over
  subject, description and teacher name, combined with exact-match level and location
  filters), the badge colour tables, and first-letter capitalisation.
- **SessionCard** (`session_card.dfy`): the five-value session status, which actions a
  viewer is offered, and the status-only update with its busy flag (`SessionCardView`).
- **AvailabilitySlots** (`availability_slots.dfy`): the select/deselect click, the
  Booked/Selected/Available label, and the grouping of slots by calendar date. The grouping
  is a loop method proved against a specification function.
- **AddAvailabilityDialog** (`add_availability_dialog.dfy`): parsing of `HH:MM` fields,
  range validation, and the inserted slot (`AvailabilityDialog.HandleSubmit`).
- **ConversationList** (`conversation_list.dfy`): the loop that keeps one entry per
  counterpart, in first-seen order (`CollectConversations`, `ConversationListView`). The
  loop names entries as the program does, after each newest message's sender. A corrected
  list named after the counterpart stands beside it (see "## Findings").
- **NotificationsCard** (`notifications_card.dfy`): the first fetch and the bounded
  prepend of new notifications.
- **ChatWindow** (`chat_window.dfy`): the send guard, the trimmed send and the incoming
  append (`ChatWindowView`).
- **ReviewForm** (`review_form.dfy`): stars, comment normalisation, the submit gate and
  the reset after success (`ReviewFormView`).
- **Theme** (`theme.dfy`): the first theme, the toggle, the document and storage effect,
  the system-change listener (`ThemeProvider`), and the `useTheme` guard.
- **TeachingSection** (`teaching_section.dfy`): the three-offer preview and the "View All"
  button.

Shared modules:

- `Wrappers`: `Option`, plus the outcomes of store reads and writes.
- `Store`: a table whose rows an insert appends to.
- `Seqs`: subsequences, filtering, and first-element-per-key.
- `Text`: the JavaScript string operations the components use, namely lower-casing,
  `includes`, `trim`, `split`, and decimal digits.

Calls to the store are not made. A read's answer is an input of type `Fetch<T>`, which is
an error or a possibly-null payload. A write's answer is an input of type `WriteOutcome`.
Date formatting is an uninterpreted function `dateKey`. An instant is a whole number of
minutes.

The code has no booking, point-transfer, slot-claim or review-eligibility logic: the
booking card is a static stub with a disabled button. This model therefore follows what
the components do, not a booking service. In particular:

- Sessions use the five statuses the card declares (`scheduled` rather than `requested`).
- Only the teacher may confirm or decline, and only from `scheduled`.
- Cancelling a confirmed session is not offered.
- The review form checks neither the session status nor duplicate reviews.
- A stored rating stays between 1 and 5 only because of the stars and the disabled submit
  button. `handleSubmit` itself does not check it (`ReviewFormView.SubmitClicked`).

## Model

| member | source | states |
|---|---|---|
| Browse.FilterOffers | src/pages/offers/Browse.tsx:69-81 | The shown offers are a subsequence of the fetched ones. An offer is shown iff it passes all three tests, and each shown offer appears exactly as often as it was fetched. |
| Browse.MatchesSearch | src/pages/offers/Browse.tsx:71-74 | The search matches iff the lower-cased term occurs in the lower-cased subject, description or teacher name. A missing profile searches as the empty name. |
| Browse.EmptySearchMatches | src/pages/offers/Browse.tsx:71-74 | The empty search term matches every offer. |
| Browse.ClearedShowsAll | src/pages/offers/Browse.tsx:71-79 | With an empty search and both selects on "all", every offer is shown, in the fetched order. |
| Browse.FilterOffersIdempotent | src/pages/offers/Browse.tsx:79 | Filtering the filtered list again with the same filters changes nothing. |
| Browse.SearchIgnoresTermCase | src/pages/offers/Browse.tsx:72-74 | Lower-casing the term first does not change the result. |
| Browse.LevelFilterCaseSensitive | src/pages/offers/Browse.tsx:76 | The level filter is exact equality, so "beginner" hides a level stored as "Beginner". |
| Browse.SelectsNarrow | src/pages/offers/Browse.tsx:76-77 | A select set to anything but "all" shows only offers carrying exactly that value. |
| Browse.MatchesSelect | src/pages/offers/Browse.tsx:76-77 | A select on "all" admits every value. Any other choice admits exactly the offers whose value equals it. |
| Browse.Keep | src/pages/offers/Browse.tsx:70-78 | An offer is kept iff it matches the search and each select either is "all" or equals the offer's value. |
| Browse.LevelBadgeColor | src/pages/offers/Browse.tsx:83-94 | The gray default is used exactly for strings other than the three levels. |
| Browse.LocationBadgeColor | src/pages/offers/Browse.tsx:96-107 | The gray default is used exactly for strings other than the three location types. |
| Browse.BadgesDistinguishKnownValues | src/pages/offers/Browse.tsx:83-107 | Different known levels get different badge classes, and so do different known location types. |
| Text.Capitalize | src/pages/offers/Browse.tsx:182 | Only the first character may change, and it becomes upper case. The length is kept, and "" maps to "". |
| Text.CapitalizeIdempotent | src/pages/offers/Browse.tsx:182 | Capitalising twice is capitalising once. |
| Text.Lower | src/pages/offers/Browse.tsx:72-74 | Same length, no upper-case letter left, and every other character unchanged. |
| Text.Includes | src/pages/offers/Browse.tsx:72-74 | True iff the term occurs at some position. |
| Text.IncludesEmpty | src/pages/offers/Browse.tsx:71-74 | Every string includes the empty string. |
| SessionCard.ParseStatus | src/components/SessionCard.tsx:12 | Exactly the five status names parse, each to the status stored under that name. |
| SessionCard.StatusNameRoundTrip | src/components/SessionCard.tsx:12 | Every status parses back from its stored name. |
| SessionCard.StatusNameInjective | src/components/SessionCard.tsx:12 | Different statuses are stored under different names. |
| SessionCard.Buttons | src/components/SessionCard.tsx:102-132 | Confirm and Decline are offered iff the session is scheduled and the viewer is its teacher. Mark as Completed is offered iff it is confirmed. Nothing is offered from pending, completed or cancelled. Every button is disabled iff an update is in flight. |
| SessionCard.OfferedLowersPotential | src/components/SessionCard.tsx:102-132 | Every offered action strictly lowers a status potential (scheduled 2, confirmed 1, others 0). |
| SessionCard.RunsAreShort | src/components/SessionCard.tsx:102-132 | Any sequence of offered actions has at most two steps, so no status comes back. |
| SessionCard.EntryPoints | src/components/SessionCard.tsx:102-132 | Completed is requested only from confirmed. Cancelled is requested only from scheduled, by the teacher. |
| SessionCard.WithStatus | src/components/SessionCard.tsx:51-54 | The update sets the status of the rows with the session's id. Every other field of those rows, and every other row, is unchanged. |
| SessionCard.WithStatusIdempotent | src/components/SessionCard.tsx:51-54 | Repeating the same update changes nothing. |
| SessionCard.SessionCardView.constructor | src/components/SessionCard.tsx:41 | A new card shows the given session for the given viewer, not updating, and has not called the parent. |
| SessionCard.SessionCardView.StartUpdate | src/components/SessionCard.tsx:102-132 | The flag goes up, and every shown button is then disabled. |
| SessionCard.SessionCardView.UpdateSessionStatus | src/components/SessionCard.tsx:44-76 | On success the new status is written and the parent is told once. On error nothing is written and the parent is not told. The flag ends down either way. |
| SessionCard.SessionCardView.FinishUpdate | src/components/SessionCard.tsx:51-75 | Once the store answers: on success the row gets the new status and the parent is told once. On error nothing is written and the parent is not told. The flag comes down either way. |
| SessionCard.SessionCardView.Click | src/components/SessionCard.tsx:102-132 | An offered, enabled button runs the update with the status it requests. Any other click changes nothing. |
| AvailabilitySlots.HandleSlotClick | src/components/AvailabilitySlots.tsx:75-91 | A click has an effect iff the slot is free, the viewer is not the teacher and a callback exists. It deselects iff the slot is the selected one. Otherwise it selects the slot with its own id, start and end. |
| AvailabilitySlots.Label | src/components/AvailabilitySlots.tsx:148-152 | "Booked" iff booked, even when selected. "Selected" iff free and selected. "Available" otherwise. |
| AvailabilitySlots.SelectedAfter | src/components/AvailabilitySlots.tsx:79-89 | The parent's selection after a click: unchanged without an effect, cleared by `null`, and otherwise the emitted slot's id. |
| AvailabilitySlots.ClickToggles | src/components/AvailabilitySlots.tsx:79-89 | A click flips a free slot between Selected and Available, and a second click flips it back. |
| AvailabilitySlots.IgnoredClicks | src/components/AvailabilitySlots.tsx:76 | Clicks on a booked slot, and all clicks by the teacher, leave the selection as it was. |
| AvailabilitySlots.GroupSlots | src/components/AvailabilitySlots.tsx:93-100 | The accumulator loop builds exactly the specified grouping. |
| AvailabilitySlots.GroupingKeepsCount | src/components/AvailabilitySlots.tsx:93-100 | The group sizes add up to the number of slots. |
| AvailabilitySlots.GroupDatesInFirstSeenOrder | src/components/AvailabilitySlots.tsx:93-100 | Group dates are dates of slots, each appears once, and they are ordered by their first slot. |
| AvailabilitySlots.GroupContents | src/components/AvailabilitySlots.tsx:94-98 | Each group is a subsequence of the slots. It holds exactly the slots of its date, each as often as in the input, and it is never empty. |
| AvailabilitySlots.EverySlotInOneGroup | src/components/AvailabilitySlots.tsx:93-100 | Every slot is listed in exactly one group, the one for its own date. |
| AddAvailabilityDialog.AvailabilityDialog.constructor | src/components/AddAvailabilityDialog.tsx:33-36 | The dialog opens on the given day with 09:00-10:00, not submitting, and with nothing reported. |
| AddAvailabilityDialog.NumberOfDecimal | src/components/AddAvailabilityDialog.tsx:55-59 | `Number` reads a decimal numeral as its value, whatever white space surrounds it. |
| AddAvailabilityDialog.NumberOfRejectsStray | src/components/AddAvailabilityDialog.tsx:55-59 | A piece holding a character that is neither white space nor a digit is NaN. |
| AddAvailabilityDialog.ClockMinutes | src/components/AddAvailabilityDialog.tsx:55-59 | A field gives a time only if it contains ':', and that time is never negative. |
| AddAvailabilityDialog.AtTimeOfClockField | src/components/AddAvailabilityDialog.tsx:54-60 | Every `HH:MM` value sets the selected day's clock to that minute, with seconds zeroed. |
| AddAvailabilityDialog.AtTimeNeedsColon | src/components/AddAvailabilityDialog.tsx:54-60 | A field without ':' lacks a minutes piece, so the date becomes invalid. |
| AddAvailabilityDialog.Decide | src/components/AddAvailabilityDialog.tsx:41-78 | No date gives an error and nothing else. The range is rejected as empty iff both times are valid and start is not before end. It fails as an invalid time iff it is not rejected and a time is invalid. A row is inserted iff both times are valid and start is before end. The row carries the dialog's offer, is unbooked, and has start before end on the selected date. |
| AddAvailabilityDialog.EqualTimesRejected | src/components/AddAvailabilityDialog.tsx:63-70 | Equal start and end times never produce a row. |
| AddAvailabilityDialog.DecisionIgnoresDay | src/components/AddAvailabilityDialog.tsx:54-63 | Whether a range is accepted does not depend on the selected day. |
| AddAvailabilityDialog.ClockFieldRoundTrip | src/components/AddAvailabilityDialog.tsx:55-56 | Every `HH:MM` value a time input can hold parses back to its own minute of the day. |
| AddAvailabilityDialog.ClockRangeAccepted | src/components/AddAvailabilityDialog.tsx:54-78 | Any two input values with the start earlier produce the slot between those minutes on the selected day. |
| AddAvailabilityDialog.DefaultRangeAccepted | src/components/AddAvailabilityDialog.tsx:34-35 | The initial 09:00-10:00 gives a one-hour slot on any selected day. |
| AddAvailabilityDialog.ClearedFieldInvalid | src/components/AddAvailabilityDialog.tsx:55-56 | A cleared time field gives an invalid date. |
| AddAvailabilityDialog.AvailabilityDialog.HandleSubmit | src/components/AddAvailabilityDialog.tsx:38-100 | The store gets the row only for an accepted range with a successful insert. Added-then-closed are reported only after success. The busy flag is cleared on every path that raised it, including the early return for an empty range. |
| Text.Split | src/components/AddAvailabilityDialog.tsx:54-60 | There is at least one piece, no piece contains the separator, and joining the pieces gives the input back. |
| Text.SplitJoin | src/components/AddAvailabilityDialog.tsx:54-60 | Splitting a join of separator-free pieces gives the pieces back. |
| ConversationList.Counterpart | src/components/messages/ConversationList.tsx:39 | The receiver when the user sent the message, the sender otherwise. |
| ConversationList.EntryAsWritten | src/components/messages/ConversationList.tsx:39-44 | The recorded entry has the counterpart's id and the sender's profile name. It equals the corrected entry exactly when the user received the message. |
| ConversationList.Entry | src/components/messages/ConversationList.tsx:39-44 | The corrected entry: the counterpart's id, with the name joined for that same party. |
| ConversationList.ConversationsAsWritten | src/components/messages/ConversationList.tsx:36-48 | The program's list has the corrected list's length and ids, position by position. Only names can differ. |
| ConversationList.CollectConversations | src/components/messages/ConversationList.tsx:36-48 | The map-and-order loop yields exactly the list as written: one entry per counterpart from its newest message, named by that message's sender. |
| ConversationList.ConversationsDistinctAndOrdered | src/components/messages/ConversationList.tsx:37-48 | The program's entry ids are distinct counterparts of fetched messages, ordered by first appearance in the newest-first list. |
| ConversationList.ConversationsCoverAll | src/components/messages/ConversationList.tsx:38-46 | Every counterpart of a fetched message has an entry in the program's list. |
| ConversationList.ConversationNamesCorrect | src/components/messages/ConversationList.tsx:40-44 | With names taken from the counterpart, every entry of the corrected list carries its own person's name. |
| ConversationList.AsWrittenShowsOwnName | src/components/messages/ConversationList.tsx:27-43 | Assume all joined names are consistent. In the program's list, an entry whose newest message the user sent carries the user's own name. An entry whose newest message the user received carries the counterpart's name. |
| ConversationList.OwnNameExample | src/components/messages/ConversationList.tsx:27-43 | Ann's last message to Bob makes the program's entry for Bob read "Ann", where the corrected list reads "Bob". |
| ConversationList.ConversationListView.constructor | src/components/messages/ConversationList.tsx:18-19 | The list starts empty and loading. |
| ConversationList.ConversationListView.LoadConversations | src/components/messages/ConversationList.tsx:22-50 | With no user, or on an error, nothing changes and the loading flag is unchanged. No rows give the empty list. Otherwise the list is the one the program builds from the rows, and loading ends. |
| NotificationsCard.Push | src/components/NotificationsCard.tsx:43 | The new notification comes first, followed by the previous first four at most, in order. The length is min(5, old length + 1). |
| NotificationsCard.PushBounded | src/components/NotificationsCard.tsx:43 | The list never holds more than five. |
| NotificationsCard.PushAll | src/components/NotificationsCard.tsx:42-44 | After a run of arrivals the list holds at most five, with the latest arrival on top. With no arrivals it is unchanged. |
| NotificationsCard.PushAllShowsNewest | src/components/NotificationsCard.tsx:43 | After any run of arrivals the list is the newest five of everything: arrivals newest first, then the earlier list. |
| NotificationsCard.Latest | src/components/NotificationsCard.tsx:17-22 | The first fetch is the front of the user's newest-first notifications: at most five, all the user's, in the list's order. One of the user's notifications is missing only when five are shown. |
| NotificationsCard.LatestAreNewest | src/components/NotificationsCard.tsx:17-22 | With distinct rows, whenever a notification of the user is shown, every newer one of the user is shown too. |
| NotificationsCard.AfterInitialFetch | src/components/NotificationsCard.tsx:24-26 | The list becomes the rows on success. On an error or missing data it is unchanged. |
| ChatWindow.SendDisabled | src/components/messages/ChatWindow.tsx:141 | The send button is disabled iff the draft is all white space. |
| ChatWindow.Outgoing | src/components/messages/ChatWindow.tsx:77-85 | Nothing is sent without a user, without a counterpart, or with a blank draft. Otherwise the trimmed draft goes from the user to the counterpart. |
| ChatWindow.OutgoingContentClean | src/components/messages/ChatWindow.tsx:82 | Sent content is non-empty, has no white space at either end, and is its own trim. |
| ChatWindow.ButtonMatchesSend | src/components/messages/ChatWindow.tsx:141 | With a user and a counterpart, a send goes out iff the button is enabled. |
| ChatWindow.ChatWindowView.constructor | src/components/messages/ChatWindow.tsx:23-25 | The pane starts with no messages, an empty draft, and not loading. |
| ChatWindow.ChatWindowView.SetDraft | src/components/messages/ChatWindow.tsx:137 | Typing replaces the draft and leaves the thread and loading flag alone. |
| ChatWindow.ChatWindowView.LoadMessages | src/components/messages/ChatWindow.tsx:28-47 | Without a counterpart or a user nothing changes. On an error `loading` stays true and the messages are kept. An answer replaces the messages and ends loading. |
| ChatWindow.ChatWindowView.ReceiveMessage | src/components/messages/ChatWindow.tsx:60 | An incoming message is appended, and earlier messages are unchanged. |
| ChatWindow.ChatWindowView.HandleSendMessage | src/components/messages/ChatWindow.tsx:76-93 | A refused send touches nothing. Otherwise the trimmed draft is inserted, and the draft is cleared only on success. The thread is never changed. |
| Text.Trim | src/components/messages/ChatWindow.tsx:77-82 | The result is empty iff the input is all white space. Otherwise it is the infix between white-space runs at both ends, with no white space at its own ends. |
| Text.TrimPadded | src/components/messages/ChatWindow.tsx:77-82 | White space added at either end of an untrimmed string is exactly what trimming removes. |
| Text.TrimIdempotent | src/components/messages/ChatWindow.tsx:77-82 | Trimming twice is trimming once. |
| ReviewForm.NormalizedComment | src/components/reviews/ReviewForm.tsx:34 | The stored comment is null iff the typed one is all white space. Otherwise it is the non-empty trimmed comment. |
| ReviewForm.NormalizedCommentStable | src/components/reviews/ReviewForm.tsx:34 | A stored comment normalises to itself. |
| ReviewForm.SubmitDisabled | src/components/reviews/ReviewForm.tsx:84 | Submit is enabled iff the form is rated and not submitting. With a rating the stars can set, an enabled button means a rating from 1 to 5. |
| ReviewForm.StarRow | src/components/reviews/ReviewForm.tsx:61-68 | Five stars, and star k is filled iff k is at most the rating. |
| ReviewForm.FilledStarsShowRating | src/components/reviews/ReviewForm.tsx:61-68 | For a rating 0..5, exactly that many stars are filled. |
| ReviewForm.RatingCaption | src/components/reviews/ReviewForm.tsx:73 | A prompt while unrated, "k out of 5" once rated. |
| ReviewForm.ReviewFormView.constructor | src/components/reviews/ReviewForm.tsx:17-19 | A new form is unrated, with an empty comment, and its submit is disabled. |
| ReviewForm.ReviewFormView.ClickStar | src/components/reviews/ReviewForm.tsx:69 | Star k sets the rating to k. |
| ReviewForm.ReviewFormView.SetComment | src/components/reviews/ReviewForm.tsx:79 | Typing replaces the comment and leaves everything else alone. |
| ReviewForm.ReviewFormView.Review | src/components/reviews/ReviewForm.tsx:29-35 | The review has the form's session and reviewee, the user as reviewer, the current rating and the normalised comment. |
| ReviewForm.ReviewFormView.SubmitClicked | src/components/reviews/ReviewForm.tsx:23-84 | A disabled button changes nothing. An enabled one runs the submit with all its outcomes: no user changes nothing; success stores the review, resets the form, calls back and shows the success toast; an error keeps the form and shows the error toast; the busy flag ends down. Every review it stores has a rating from 1 to 5, and the rating stays one the stars can set. |
| ReviewForm.ReviewFormView.HandleSubmit | src/components/reviews/ReviewForm.tsx:23-56 | With no user nothing happens. On success the review is stored, the rating and comment are reset, and the callback fires if one was given. On error everything is kept. The busy flag ends down. |
| Theme.InitialTheme | src/hooks/use-theme.tsx:15-26 | A saved non-empty value is used as it is. Otherwise the theme is dark iff the system prefers dark, and light otherwise. |
| Theme.Toggled | src/hooks/use-theme.tsx:57-59 | The result is light or dark, and differs from a light or dark input. |
| Theme.ToggleInvolution | src/hooks/use-theme.tsx:57-59 | Toggling twice from light or dark is the identity. |
| Theme.ToggleTwiceFromOtherValue | src/hooks/use-theme.tsx:57-59 | From a saved value that is not a theme, two toggles end on dark, not on the value. |
| Theme.UseTheme | src/hooks/use-theme.tsx:68-74 | Throws (with its message) iff there is no provider. Otherwise it returns the context. |
| Theme.ThemeProvider.constructor | src/hooks/use-theme.tsx:15-41 | Mounting picks the first theme, then the document effect runs. The root carries that theme among light and dark, and the theme is saved. |
| Theme.ThemeProvider.SyncDocument | src/hooks/use-theme.tsx:29-41 | Light and dark are removed and the theme is added. Other classes are kept and the theme is saved. The root then carries exactly the current theme among light and dark. |
| Theme.ThemeProvider.SetTheme | src/hooks/use-theme.tsx:29-62 | Setting light or dark. A new theme triggers the effect: the root's classes and the saved value follow, and the provider is in step. Setting the current theme changes nothing, because React skips the update. |
| Theme.ThemeProvider.ToggleTheme | src/hooks/use-theme.tsx:29-59 | The theme becomes the toggled one, and the document and storage follow it. |
| Theme.ThemeProvider.OnSystemChange | src/hooks/use-theme.tsx:44-55 | The system setting applies only when no theme is saved. If it equals the current theme, nothing changes. On a mounted provider it never changes anything. |
| TeachingSection.Render | src/components/dashboard/TeachingSection.tsx:23-72 | An empty list shows only the prompt. Otherwise the first min(3, n) offers are shown in order, each with its capitalised level and points per hour. "View All (n)" appears iff n > 3. |
| TeachingSection.NothingHiddenWithoutViewAll | src/components/dashboard/TeachingSection.tsx:23-55 | An offer that is not previewed is always counted by a "View All" button. |
| TeachingSection.ViewAllShowsTotal | src/components/dashboard/TeachingSection.tsx:53 | The number in the "View All" label reads back as the total. |

## Left out

- All store reads and writes, and the realtime channels. Query answers and write outcomes are inputs, and subscribing and unsubscribing are not modelled. The row order a query returns (for example newest first) is taken as given.
- Toasts are recorded as events in the dialog and the review form. Elsewhere, toasts, console logging and their texts are not modelled. Scrolling is not modelled.
- Browse's `fetchOffers` and its loading state, the slot list's fetch and loading state, and the dialog's open state are not modelled.
- The user guards that skip a component's subscriptions are not modelled, except where a guard also skips a state update.
- Date formatting, time zones, daylight-saving time, and the range and ISO format of `Date` values are not modelled. Dates are formatted by the `dateKey` parameter and instants are minutes.
- Text.Lower: maps ASCII letters only, whereas `toLowerCase` also maps other Unicode letters.
- Text.Capitalize: upper-cases ASCII letters only, whereas `toUpperCase` covers all of Unicode. It also works on characters, where `charAt` works on UTF-16 code units.
- AddAvailabilityDialog.NumberOf: handles only white space and decimal digits. Signs, decimal points, exponents and hex literals, which `Number` also accepts, are treated as NaN. A time input never produces them.
- NotificationsCard.LatestAreNewest: assumes the fetched rows are all different, as each notification has its own id. With a repeated row, the statement can fail: a copy of an older row can be shown while a newer row is not.
- ConversationList: a message whose joined sender profile is null makes the loop throw. The model assumes every profile is present.
- Theme: a saved non-empty value containing white space makes `classList.add` throw. The model treats any saved string as a class name. An empty saved value is ignored, as in the source. Storage changed by other tabs or code is not modelled.
- Theme.ThemeProvider.SetTheme: re-setting the current theme leaves the document and storage as they are, so it promises an in-step provider afterwards only if it was in step before.
- Each asynchronous handler is one atomic step from its start to the store's answer. Edits made while a request is pending are not modelled. The source clears whatever draft exists when the send answers, resets whatever rating and comment exist when the review is stored, and lets a load effect apply an answer that has gone stale.
- TeachingSection: navigation is reduced to the link of each "View Offer" button. The other buttons' targets are not modelled.
- Not part of this model: the UI-only components, routing, authentication wiring, the database seeding script, and ReviewList's averages (which use floating point).

## Findings

| source | as written | input that shows it | evidently intended | confidence | as-written member | corrected member |
|---|---|---|---|---|---|---|
| src/components/messages/ConversationList.tsx:43 | Each entry is named with the joined sender profile (`profiles!messages_sender_id_fkey`), whoever the counterpart is. | User "a" (Ann) whose newest message went to "b" (Bob): Bob's entry reads "Ann". | Each entry carries its counterpart's own name. | not executed | ConversationList.AsWrittenShowsOwnName | ConversationList.ConversationNamesCorrect |
