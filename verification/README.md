# A verified model of the social-network backend

The project models the stateful and arithmetical core of three NestJS services in Dafny: the gateway
(accounts, sessions, posts, comments, likes, sockets), the messenger (chats, messages, read marks) and
payments (subscriptions and their calendar). Tables are sequences or maps of rows with their keys, a
use case is one atomic step, and the clock is an input. What the source does step by step (repositories,
entities, use cases, loops) is a class or a method proved equal to a function of the tables; what the
source promises is then proved about that function, mostly over every run.

| modules | what they cover |
|---|---|
| `Tables`, `Ordering`, `Paginator` | rows, `where`, left join, group by, order by, page record |
| `Likes`, `LikeTable`, `CommentListing`, `CommentListingFacts`, `CommentLikes` | the comment select with its six joins, and the like use case that keeps it meaningful |
| `PostListing`, `PostColumns`, `PostLikes`, `PostWalk`, `Keyset`, `KeysetExact` | the post select, the like toggle, the keyset cursor, with and without equal timestamps |
| `PostUpdatedSort`, `PostUpdatedWalk`, `CursorPages` | listing posts by their update date |
| `OffsetPages`, `CommentPages` | skip/limit paging of comments |
| `Messenger`, `MessengerRuns`, `MessengerOutcomes`, `ChatPages`, `ChatGrowth`, `ChatRemoval`, `ChatAccess` | send, read, remove; walking a chat while messages are sent or removed; who sees it |
| `JsDate`, `PlanDates`, `DateFormatter`, `DateOfBirth` | JavaScript dates (ECMA-262, section 21.4), period ends, dd.mm.yyyy |
| `Subscriptions`, `CancelPasses`, `PassOutcomes`, `LiveSubscriptions`, `SubscriptionOutcomes`, `Notifier`, `AccountTypes` | the nightly passes, webhooks, and the gateway's account types |
| `Identities`, `IdentityRuns`, `IdentityOutcomes`, `IdentityUnique` | registration, confirmation, Google and GitHub sign-in |
| `Sessions`, `SessionRuns`, `SessionOutcomes` | refresh tokens, session endings, reset codes |
| `WsRegistry` | the two socket indexes under interleaving |
| `Loaders` | the grouping batch loaders |

The functions the classes are tied to are pinned down in turn: the `...Outcomes` modules and the lemmas named
`...Outcome` and `...ByColumns` say, on guards and row columns alone and without the functions' helpers, when
each operation answers what and what it then stores.

Where the code and what one would expect of it differ, the code is kept and the exact condition is proved:

- The schema puts no uniqueness on user emails, usernames or GitHub ids, nor on likes. Registration that
  meets two different unconfirmed accounts, one by email and one by name, deletes only the one found by
  name and leaves a duplicate email (`IdentityUnique.RegistrationUnique`, with the run
  `IdentityUnique.DuplicateEmailRun`); a generated user name can be taken (`IdentityUnique.SignInUnique`,
  `Identities.GeneratedNamesEqualIff`, with the run `IdentityUnique.TakenNameRun`).
- PayPal's suspension webhook suspends a row of any status, also a cancelled one, and a payment's "custom"
  user need not be the row's user; either can give a user two live subscriptions
  (`LiveSubscriptions.StepKeepsOneLiveIffSafe`, with the runs `LiveSubscriptions.LateSuspensionRun` and
  `LiveSubscriptions.ForeignPaymentRun`).
- A comment's "answersCount" counts answers by banned users, which its own listing hides
  (`CommentPages.AnswersCountAgrees`, with the run `CommentPages.BannedAnswererRun`).
- Equal timestamps can make keyset pages skip rows and skip/limit pages repeat them: exactly when a page of
  the ordered table ends between two equal ones (`KeysetExact.WalkExact`, `ChatPages.ChatWalkExact`,
  `PostWalk.PostWalkExact`, `OffsetPages.PagesExact`; `Keyset.CountDropsByPage` for the count).
- Ordered by update date, two post listings compare update dates with the cursor's creation date, and posts
  never updated are no cursors. `PostUpdatedSort.SelectMatchesCountIff` says when page and count agree;
  `PostUpdatedWalk.AscendingRepeatsIff` and `AscendingStartsOver` when an ascending walk shows a post again
  (with the walk `AscendingAgainWalk`); `PostUpdatedWalk.DescendingShowsAllIff` and
  `DescendingStaysAtStart` when a descending one misses posts (with the walk `DescendingMissesWalk`).
- A cursor message removed during a walk is ignored, so the walk starts over and can show messages again:
  exactly when `ChatRemoval.RemovedCursorRepeatsIff` and `ChatRemoval.WalkRepeatsIff` say (with the run
  `ChatRemoval.RemovedCursorRun`).
- The subscription notifier's difference of dates is one of calendar days unless the years 0 to 99, which
  the Date constructor reads as 1900 to 1999, are mixed with others (`Notifier.DiffIsDays`).
- The date parser reads the years 0 to 99 as 1900 to 1999, and the printer does not pad years
  (`DateFormatter.ParsePrinted`, `DateFormatter.PrintParsed`).
- A socket that disconnects while its authentication is pending is registered afterwards
  (`WsRegistry.LateRegistration`).
- Two refresh tokens issued to a device in the same second are the same token, so "superseded" starts with
  the next second (`SessionRuns.SupersededForever`).

## Model

| member | source | states |
|---|---|---|
| CommentListingFacts.ListingIsDirect | apps/gateway/src/features/posts/infrastructure/posts-comment.query-repository.ts:49-104 | With at most one like row per user and comment, the six-way join with grouped sub-selects yields exactly one row per visible comment in scope, its author, likes, dislikes, answers count and viewer status equal to their direct definitions, and the separate count equals the number of rows |
| CommentListingFacts.AdminListingIsListing | apps/gateway/src/features/posts/infrastructure/posts-comment-graphql.query-repository.ts:41-109 | The admin select, which has no viewer join, yields the same rows with the viewer's status blank |
| Likes.GroupSizeIsVoters | apps/gateway/src/features/posts/infrastructure/posts-comment.query-repository.ts:62-75 | The group the like sub-select makes for a target has as many rows as there are unbanned users with that status on it |
| Likes.GroupRows | apps/gateway/src/features/posts/infrastructure/posts.query-repository.ts:287-302 | The rows the sub-select keeps for a target are exactly the counted likes, no two of one user |
| CommentLikes.AddLikeDislikeCommentUseCase.Execute | apps/gateway/src/features/posts/application/use-cases/add-like-dislike-comment.use-case.ts:37-68 | The like table and the answer afterwards are those of the set-status function on the tables before |
| CommentLikes.AddLikeDislikeCommentUseCase.UpdateCurrentLike | apps/gateway/src/features/posts/application/use-cases/add-like-dislike-comment.use-case.ts:88-97 | An equal status changes nothing, another one overwrites exactly this row's status and time |
| CommentLikes.SetStatusEffect | apps/gateway/src/features/posts/application/use-cases/add-like-dislike-comment.use-case.ts:46-97 | One call changes the caller's status on the one comment and nobody else's, and keeps at most one row per user and comment |
| CommentLikes.RunInvariant | apps/gateway/src/features/posts/application/use-cases/add-like-dislike-comment.use-case.ts:46-97 | In every run of likes, posts, bans and unbans the table has at most one row per user and comment, holding the latest successful call's status |
| CommentLikes.RunListing | apps/gateway/src/features/posts/infrastructure/posts-comment.query-repository.ts:49-90 | After any run the listing's likes and dislikes are the numbers of unbanned users whose latest successful call said so, and the viewer's status is the viewer's latest |
| PostListing.ListingIsDirect | apps/gateway/src/features/posts/infrastructure/posts.query-repository.ts:277-325 | With at most one like row per user and post the select gives exactly one row per visible post past the cursor, its author, like count and viewer status equal to their direct definitions, and its rows are as many as the count with the same clause; the column "lastLikedUserIds" is added in PostLikes.RunCards |
| PostListing.CountIsAfter | apps/gateway/src/features/posts/infrastructure/posts.query-repository.ts:231-325 | The count's where object selects exactly the visible posts past the cursor |
| PostLikes.AddLikePostUseCase.Execute | apps/gateway/src/features/posts/application/use-cases/add-like-post.use-case.ts:32-59 | The like table and the answer afterwards are those of the toggle function on the tables before |
| PostLikes.AddLikePostUseCase.UpdateCurrentLike | apps/gateway/src/features/posts/application/use-cases/add-like-post.use-case.ts:75-87 | A like becomes none and anything else a like, on exactly this row |
| PostLikes.LikePostEffect | apps/gateway/src/features/posts/application/use-cases/add-like-post.use-case.ts:40-87 | A successful call moves the caller's row one press further and leaves every other row alone |
| PostLikes.RunInvariant | apps/gateway/src/features/posts/application/use-cases/add-like-post.use-case.ts:40-87 | In every run there is at most one row per user and post; it says "like" exactly after an odd number of successful calls and carries the time of the latest |
| PostLikes.RunListing | apps/gateway/src/features/posts/infrastructure/posts.query-repository.ts:277-313 | After any run of likes, new posts, bans and unbans, whichever dates the listing is sorted and cut by, a listed post's like count is the number of unbanned users with an odd number of successful calls |
| PostLikes.RunLastLiked | apps/gateway/src/features/posts/infrastructure/posts.query-repository.ts:287-294 | The last-liked list has no repeats, is three long or holds all odd likers when fewer, newest call first, and no liker left out called later |
| PostLikes.RunCards | apps/gateway/src/features/posts/infrastructure/posts.query-repository.ts:277-313 | After any run every column of every row is right, "lastLikedUserIds" included: as many as the like count up to three, latest call first |
| PostWalk.PostWalkIsComplete | apps/gateway/src/features/posts/infrastructure/posts.query-repository.ts:231-325 | With distinct creation dates and fixed posts and bans a finished walk in either direction has shown every visible post exactly once, in order, in `pagesCount` non-empty pages |
| PostWalk.PostWalkExact | apps/gateway/src/features/posts/infrastructure/posts.query-repository.ts:231-325 | With equal creation dates allowed a finished walk shows every visible post exactly once if and only if no page end of the ordered posts falls between equal dates |
| PostWalk.NextCount | apps/gateway/src/features/posts/infrastructure/posts.query-repository.ts:315-325 | The next page's count is this page's count minus its length if and only if no post left over shares the last post's creation date |
| Keyset.WalkIsComplete | apps/messenger/src/features/message/infrastructure/message.query-repository.ts:29-79 | Keyset paging of rows without ties returns every row present at the start exactly once, newest first, in `pagesCount` non-empty pages, while newer rows arrive |
| Keyset.WalkNeverRepeats | apps/messenger/src/features/message/infrastructure/message.query-repository.ts:29-79 | However tables change and ties are ordered between requests, no row is returned twice |
| KeysetExact.WalkExact | apps/messenger/src/features/message/infrastructure/message.query-repository.ts:43-66 | With ties, a finished walk over a fixed table returns every row exactly once if and only if no page end of the ordered table falls between two rows with equal timestamps |
| Keyset.CountDropsByPage | apps/gateway/src/features/posts/infrastructure/posts.query-repository.ts:315-325 | The count behind the next cursor drops by the page's length if and only if no row off the page ties with its last row |
| Paginator.PagesCountBounds | libs/paginator/src/paginator.service.ts:39-52 | The page count is the ceiling: enough pages for every row and one fewer would not do |
| OffsetPages.PagesExact | apps/gateway/src/features/posts/infrastructure/posts-comment.query-repository.ts:85-89 | Pages 1 to `pagesCount` show every row exactly once for every order the database may pick per request if and only if no page ends between two rows that compare equal |
| CommentPages.PagesShowAll | apps/gateway/src/features/posts/application/queryBus/get-post-comments-by-post-id.use-case.ts:51-92 | With distinct creation dates the pages from 1 to the reported `pagesCount` show exactly the unbanned users' comments of the post (or answers to the comment), each once and correct; read off the columns, no comment of the viewer's stands behind another's, and within the viewer's and within the others' the creation dates ascend or descend; no page is empty |
| CommentPages.PagesShowEachOnceIff | apps/gateway/src/features/posts/infrastructure/posts-comment.query-repository.ts:85-104 | With equal dates allowed this holds if and only if no page ends inside a run of equal rows |
| CommentPages.AnswersCountAgrees | apps/gateway/src/features/posts/infrastructure/posts-comment.query-repository.ts:59-84 | A listed comment's "answersCount" equals the count of its answers' listing if and only if no answer is by a banned user |
| CommentPages.BannedAnswererRun | apps/gateway/src/features/posts/infrastructure/posts-comment.query-repository.ts:59-84 | From empty tables with two users: a comment, an answer to it, a ban of the answerer; the comment is listed with one answer, the listing of its answers counts none |
| Messenger.ChatRepository.GetChatByUserIds | apps/messenger/src/features/chat/infrastructure/chat.repository.ts:75-101 | The chat found is one that has both participants, or none when no chat has |
| Messenger.ChatRepository.CreateChatWithParticipants | apps/messenger/src/features/chat/infrastructure/chat.repository.ts:21-73 | One nested create adds the chat, both participants, the message and its author's read mark, or nothing |
| Messenger.MessageRepository.CreateMessage | apps/messenger/src/features/message/infrastructure/message.repository.ts:29-50 | Adds the message with its author's read mark, or nothing |
| Messenger.SendMessageUseCase.Execute | apps/messenger/src/features/message/application/use-case/send-message.use-case.ts:44-123 | Tables and outcome are those of the send function, which MessengerOutcomes.SendOutcome pins down |
| Messenger.ReadMessageUseCase.Execute | apps/messenger/src/features/message/application/use-case/read-message.use-case.ts:35-72 | Tables and outcome are those of the read function, which MessengerOutcomes.ReadOutcome pins down: it forbids only non-participants and otherwise marks and notifies |
| Messenger.RemoveMessagesUseCase.Execute | apps/messenger/src/features/message/application/use-case/remove-messages.use-case.ts:32-54 | Tables and outcome are those of the remove function, which MessengerRuns.RemoveIsAllOrNothing and MessengerOutcomes.RemovalRefusals pin down |
| MessengerRuns.RunIsReachable | apps/messenger/src/features/message/application/use-case/send-message.use-case.ts:55-123 | In every run each pair of different users shares at most one chat, each chat has two participant rows, each author takes part in the chat and has read the message, and there is at most one mark per user and message |
| MessengerRuns.SendDelivers | apps/messenger/src/features/message/application/use-case/send-message.use-case.ts:55-123 | When a send succeeds, and what it then stores and whom it notifies; otherwise nothing changes |
| MessengerRuns.MessagesLandInOneChat | apps/messenger/src/features/message/application/use-case/send-message.use-case.ts:55-83 | All messages two different users ever send each other, in either direction, land in one chat |
| MessengerRuns.ReadFindsTheOther | apps/messenger/src/features/message/application/use-case/read-message.use-case.ts:41-66 | In every reachable state a read never fails for want of another participant; whoever reads an unread message has exactly one counterpart, who is notified |
| MessengerRuns.ReadIsIdempotent | apps/messenger/src/features/message/application/use-case/read-message.use-case.ts:49-64 | A second read changes nothing and notifies nobody |
| MessengerRuns.MarksAreHistory | apps/messenger/src/features/message/application/use-case/read-message.use-case.ts:41-66 | After any run a user's read mark exists exactly when the user wrote the message or read it by command since it was created |
| MessengerRuns.RemoveIsAllOrNothing | apps/messenger/src/features/message/application/use-case/remove-messages.use-case.ts:38-47 | Removal succeeds exactly when some listed message exists and all existing ones are the caller's; then exactly they and their marks are gone, otherwise nothing changes |
| ChatPages.ChatWalkIsComplete | apps/messenger/src/features/message/application/query-bus/get-chat-messages.use-case.ts:62-77 | With distinct timestamps a finished walk by message id shows every message present at its start exactly once, newest first, in as many non-empty pages as the first answer's `pagesCount` |
| ChatPages.ChatWalkNeverRepeats | apps/messenger/src/features/message/infrastructure/message.query-repository.ts:29-66 | With equal timestamps and changing tables no message is shown twice when each cursor message is still there at the next request; removed ones are the subject of ChatRemoval.WalkRepeatsIff |
| ChatPages.ChatWalkExact | apps/messenger/src/features/message/infrastructure/message.query-repository.ts:43-66 | On a fixed chat a finished walk shows every message exactly once if and only if no page end of its newest-first order falls between equal timestamps |
| ChatAccess.ShownToParticipants | apps/messenger/src/features/message/application/query-bus/get-chat-messages.use-case.ts:54-77 | In every run the query shows a user only messages of a chat the user takes part in, each written by the user or the chat's only other participant, at most a page of them |
| ChatGrowth.RunWalkIsComplete | apps/messenger/src/features/message/application/query-bus/get-chat-messages.use-case.ts:54-77 | A client walks a chat while the run goes on with sends and reads in any chat: without ties at its first request and with later sends newer, the finished walk has shown every message the chat had then exactly once, in as many non-empty pages as announced |
| ChatGrowth.ChatGrewSince | apps/messenger/src/features/message/application/use-case/send-message.use-case.ts:91-123 | While nothing is removed and what is sent is newer, a chat only grows by newer messages |
| JsDate.CivilFacts | apps/payments/src/features/payments/application/payments.service.ts:191-203 | Every day number has a real year, month and day of the Gregorian calendar that make it again |
| JsDate.CivilOfMakeDay | libs/date-formater/src/date-formater.service.ts:13-20 | A real day's fields come back from the day number they make |
| PlanDates.HandleDateEnd | apps/payments/src/features/payments/application/payments.service.ts:191-206 | The returned date is fresh and holds the period's end; the payment date is not touched |
| PlanDates.PeriodInDays | apps/payments/src/features/payments/application/payments.service.ts:191-206 | A daily or weekly period is exactly 1 or 7 days, a monthly one exactly the 28 to 31 days of the payment's month, also across missing days and year ends |
| PlanDates.SameDayNextMonth | apps/payments/src/features/payments/application/payments.service.ts:200-202 | A monthly period ends on the same day of the next month if and only if that day exists |
| PlanDates.RenewalsKeepTheDay | apps/payments/src/features/payments/application/payments.service.ts:200-202 | From a day not after the 28th, n monthly renewals end on the same day of the month and time of day, n months later |
| DateFormatter.ParsePrinted | libs/date-formater/src/date-formater.service.ts:5-20 | Printing then parsing any valid date gives midnight of the same day if and only if its year is not one of 0 to 99 |
| DateFormatter.PrintParsed | libs/date-formater/src/date-formater.service.ts:5-20 | Every dd.mm.yyyy string parses to a valid date and prints back as itself if and only if it names a real calendar day of the year 1000 or later |
| DateOfBirth.AcceptedIfOldEnough | apps/gateway/src/common/decorators/validation/is-date-of-birth.ts:15-41 | A non-empty value is accepted exactly when it has the form dd.mm.yyyy and the day the profile will store for it is not after today's date thirteen years ago (1 March when today is 29 February) |
| Subscriptions.PaymentService.DisableSubscription | apps/payments/src/features/payments/application/payments.service.ts:139-189 | The loop over the fetched entities, PayPal's answer and the store afterwards give the cancel pass, which PassOutcomes.PassByColumns reads off the columns: who is asked about at PayPal, cancelled and reported |
| Subscriptions.PaymentService.Visit | apps/payments/src/features/payments/application/payments.service.ts:153-172 | One round settles the entity and asks and reports as the pass does for its row; by PassOutcomes.PassByColumns only suspended PayPal rows past the gate are asked about |
| Subscriptions.WrittenIsSettled | apps/payments/src/features/payments/infrastructure/payments.repository.ts:86-104 | Storing all fetched entities by id settles exactly the due rows |
| Subscriptions.PaymentService.HandleActiveSubscription | apps/payments/src/features/payments/application/payments.service.ts:209-236 | Cancels the user's other live row and answers it; a throwing provider call changes nothing |
| CancelPasses.PassRows | apps/payments/src/features/payments/application/payments.service.ts:61-76 | A stored pass cancels exactly the expired live Stripe rows and, only past hour 6 of the shifted clock, the expired live PayPal ones, reports them in order and leaves all others; a throwing provider call changes and reports nothing |
| CancelPasses.LaterPassReportsNewlyExpired | apps/payments/src/features/payments/application/payments.service.ts:139-189 | After an open-gate pass a later one reports only what expired in between, and one at the same instant reports and asks nothing |
| CancelPasses.ReportedOnce | apps/payments/src/features/payments/application/payments.service.ts:139-189 | Over any run of passes, in some of which the PayPal call may throw, the reports are exactly those of the subscriptions that were due at some stored pass, each once |
| CancelPasses.CancelledIffDue | apps/payments/src/features/payments/application/payments.service.ts:139-189 | Over any such run a subscription is cancelled if and only if it was due at some stored pass |
| LiveSubscriptions.HandleActiveMakesRoom | apps/payments/src/features/payments/application/payments.service.ts:209-236 | Afterwards the user has no live subscription besides the processed one, and other users' live rows are untouched |
| LiveSubscriptions.ActivationKeepsThePeriod | apps/payments/src/features/payments/application/handlers/paypal/paypal-subscription-active.handler.ts:67-85 | Activating a pending subscription in place of a live one hands over its paid period |
| LiveSubscriptions.StepKeepsOneLiveIffSafe | apps/payments/src/features/payments/application/handlers/paypal/paypal-subscription-suspended.handler.ts:33-58 | A webhook, switch or pass keeps at most one live subscription per user if and only if it is not a suspension or a foreign "custom" payment of a row whose user has another live one |
| LiveSubscriptions.RunKeepsOneLive | apps/payments/src/features/payments/infrastructure/payments.repository.ts:151-168 | In every run of safe steps no user ever has two live subscriptions |
| LiveSubscriptions.LateSuspensionRun | apps/payments/src/features/payments/application/handlers/paypal/paypal-subscription-suspended.handler.ts:33-58 | From the empty table: a subscription is created, activated and replaced by a second one; its late suspension makes it live beside the second |
| LiveSubscriptions.ForeignPaymentRun | apps/payments/src/features/payments/application/handlers/paypal/paypal-payment-succeeded.handler.ts:54-108 | So does a payment of the replaced subscription that names another user |
| Notifier.CheckAndNotifySubscriptionEnd | apps/payments/src/features/payments/application/payments.service.ts:78-137 | The loop pushes exactly the notices of the live rows, in order |
| Notifier.DiffIsDays | apps/payments/src/features/payments/application/payments.service.ts:96-109 | The floor of the difference of local midnights is the number of calendar days if and only if both dates lie outside the years 0 to 99, or both in January or February of year 0, or both in the rest of those years |
| Notifier.NoticesOverRun | apps/payments/src/features/payments/application/payments.service.ts:78-137 | With one tick a day and an unchanged end date a user gets exactly one 7-day and one 1-day notice if those days are in the run, and one next-payment notice exactly when auto-renewal is on at the 1-day tick |
| AccountTypes.UpdateSubscriptionInfoUseCase.Execute | apps/gateway/src/features/subscriptions/application/use-cases/update-subscription-info.use-case.ts:33-73 | One report makes its user Business until a future end date, Personal otherwise, and publishes that type; an unknown user changes nothing and fails |
| AccountTypes.UpdateSubscriptionsInfoUseCase.Execute | apps/gateway/src/features/subscriptions/application/use-cases/update-subscriptions-info.use-case.ts:34-84 | For any payload, with repeated or unknown users, the batch leaves the users that the single updates leave one after the other, and publishes one event per known user it names, with the type the user ends with |
| AccountTypes.LastEntryDecides | apps/gateway/src/features/subscriptions/application/use-cases/update-subscriptions-info.use-case.ts:50-66 | The user's last entry decides: Business until its end date if that was still ahead when processed, Personal without expiry otherwise |
| AccountTypes.PassThenBatch | apps/gateway/src/features/subscriptions/application/use-cases/update-subscriptions-info.use-case.ts:53-69 | A cancel pass's report, processed no earlier than the pass ran, makes exactly the known users of cancelled subscriptions Personal without expiry |
| Identities.RegistrationUseCase.Execute | apps/gateway/src/features/auth/application/use-cases/registration.use-case.ts:44-109 | Tables and answer are those of the registration function on some matching rows of the two lookups |
| Identities.RegistrationUseCase.HandleUser | apps/gateway/src/features/auth/application/use-cases/registration.use-case.ts:123-140 | The account to delete is the one found by name, else the one found by email |
| Identities.RegistrationUseCase.ExecuteTransaction | apps/gateway/src/features/auth/application/use-cases/registration.use-case.ts:101-109 | The old account is replaced by the new one, or everything is rolled back |
| Identities.ExternalSignInUseCase.Execute | apps/gateway/src/features/auth/application/use-cases/login-by-google.use-case.ts:47-103 | Tables, answer and user are those of the sign-in function on the two users looked up, which IdentityOutcomes.SignInOutcome pins down: Google's unverified emails are refused whatever accounts exist |
| Identities.ExternalSignInUseCase.HandleUser | apps/gateway/src/features/auth/application/use-cases/auth-with-github-use-case.ts:127-166 | The link, the confirmation or new account and the session are all stored or none |
| Identities.RegistrationConfirmationUseCase.Execute | apps/gateway/src/features/auth/application/use-cases/registration-confirmation.use-case.ts:32-63 | Tables and answer are those of the confirmation function |
| Identities.GeneratedNamesEqualIff | apps/gateway/src/features/auth/application/auth.service.ts:44-50 | Two generated names for one email are equal exactly when the random characters that survive the cut to 30 are |
| IdentityRuns.RegisterKeeps | apps/gateway/src/features/auth/application/use-cases/registration.use-case.ts:52-140 | Registration keeps every confirmed account with its links, and every session |
| IdentityRuns.RunIsReachable | apps/gateway/src/features/auth/application/use-cases/login-by-google.use-case.ts:62-143 | In every run linked users and users with sessions are confirmed, and no Google sub or GitHub id belongs to two users |
| IdentityRuns.ConfirmedForever | apps/gateway/src/features/auth/application/use-cases/registration.use-case.ts:58-63 | Once confirmed, an account and its links survive every later step |
| IdentityRuns.SameUserForever | apps/gateway/src/features/auth/application/use-cases/auth-with-github-use-case.ts:57-99 | A Google sub or GitHub id signs in as the same user whenever it signs in |
| IdentityRuns.SignInOpensOneSession | apps/gateway/src/features/auth/application/use-cases/login-by-google.use-case.ts:105-176 | A sign-in changes nothing or opens one new session, for a confirmed user who was not banned |
| IdentityRuns.LoginOpensOneSession | apps/gateway/src/features/auth/application/use-cases/login-use-case.ts:39-84 | A login changes nothing or opens one new session, for a confirmed user who is not banned |
| IdentityRuns.ConfirmsOnce | apps/gateway/src/features/auth/application/use-cases/registration-confirmation.use-case.ts:38-63 | A confirmation token works once, unexpired, for the unbanned user it was made for |
| IdentityUnique.RegistrationUnique | apps/gateway/src/features/auth/application/use-cases/registration.use-case.ts:123-140 | Registration keeps usernames unique, and emails if and only if it does not go through (nobody found confirmed, the new id and token free) having met two different accounts |
| IdentityUnique.SignInUnique | apps/gateway/src/features/auth/application/use-cases/login-by-google.use-case.ts:113-138 | Sign-in keeps emails unique, and usernames if and only if it does not create an account under a taken generated name |
| IdentityUnique.StepUnique | apps/gateway/src/features/users/infrastructure/users.repository.ts:68-138 | A step keeps emails and usernames unique if and only if it is not one of those two clashes |
| IdentityUnique.RunUnique | apps/gateway/src/features/auth/application/use-cases/registration.use-case.ts:52-140 | In every run without clashes emails and usernames are unique throughout |
| IdentityUnique.DuplicateEmailRun | apps/gateway/src/features/auth/application/use-cases/registration.use-case.ts:123-140 | From the empty tables three registrations leave two accounts with one email |
| IdentityUnique.TakenNameRun | apps/gateway/src/features/auth/application/auth.service.ts:44-50 | From the empty tables two Google sign-ins whose emails share 30 characters before the sign leave two accounts with one name, whatever random characters were drawn |
| Sessions.SessionUseCases.Validate | apps/gateway/src/common/guards/jwt/jwt-refresh-auth-strategy.ts:36-60 | The guard's chain of checks decides the acceptance predicate |
| Sessions.SessionUseCases.RenewTokens | apps/gateway/src/features/auth/application/use-cases/refresh-token-use-case.ts:31-56 | Rotation through the mutated session entity is the renew function, which SessionOutcomes.RenewalOutcome pins down: this device's session alone is dated by the new token |
| Sessions.SessionUseCases.TerminateDevicesExcludeCurrent | apps/gateway/src/features/security-devices/application/use-cases/terminate-devices-exclude-current.use-case.ts:33-58 | Deletes the user's other sessions, or answers that there are none |
| Sessions.SessionUseCases.RestorePassword | apps/gateway/src/features/auth/application/use-cases/restore-password.use-case.ts:45-88 | Creates or overwrites the user's one code; SessionOutcomes.AskingOutcome says for whom and with what lifetime |
| Sessions.SessionUseCases.ConfirmRestore | apps/gateway/src/features/auth/application/use-cases/restore-password-confirmation.use-case.ts:38-83 | Tables and answer are those of the reset function, which SessionOutcomes.ResetOutcome pins down: it stores the new hash for the code's user, uses the code up and deletes the user's sessions |
| SessionRuns.AcceptedIffNewest | apps/gateway/src/common/guards/jwt/jwt-refresh-auth-strategy.ts:36-60 | In every run an issued token is accepted if and only if its session is still there, its user exists unbanned, and no token with a later "iat" was issued for the device |
| SessionRuns.SessionIsNewest | apps/gateway/src/features/auth/application/use-cases/refresh-token-use-case.ts:36-51 | A live session's "lastActiveDate" is the "iat" of a token issued for it |
| SessionRuns.SupersededForever | apps/gateway/src/features/auth/application/use-cases/refresh-token-use-case.ts:36-51 | Once a different token with no earlier "iat" exists for the device, a token is never accepted again |
| SessionRuns.EndedForever | apps/gateway/src/features/auth/application/use-cases/logout-use-case.ts:24-36 | After a device's session has gone no token issued for it before is accepted in any later state |
| SessionRuns.SignedOutExactly | apps/gateway/src/features/security-devices/application/use-cases/terminate-device-by-id.use-case.ts:32-55 | Logout, both terminations and a reset end exactly the tokens they are meant to end |
| SessionRuns.ResetUsesNewest | apps/gateway/src/features/auth/application/use-cases/restore-password.use-case.ts:52-80 | A successful reset used the newest code issued to its user, before that code's expiry |
| SessionRuns.ResetOnce | apps/gateway/src/features/auth/application/use-cases/restore-password-confirmation.use-case.ts:48-83 | A reset code succeeds at most once |
| SessionRuns.ResetEndsOldTokens | apps/gateway/src/features/auth/application/use-cases/restore-password-confirmation.use-case.ts:73-83 | After a successful reset no refresh token issued earlier to that user is ever accepted again |
| WsRegistry.WsGateway.ClearClient | apps/gateway/src/common/services/ws-gateway/ws.gateway.ts:95-108 | Both indexes change as the clear function says |
| WsRegistry.WsGateway.ForceDisconnect | apps/gateway/src/common/services/ws-gateway/ws.gateway.ts:110-118 | The socket is out of both indexes, has received the error once and is disconnected |
| WsRegistry.WsGateway.CompleteConnection | apps/gateway/src/common/services/ws-gateway/ws.gateway.ts:125-133 | A finished authentication registers the socket in both indexes or clears it |
| WsRegistry.WsGateway.EmitMessageByUserId | apps/gateway/src/common/services/ws-gateway/ws.gateway.ts:151-174 | Every socket of the user receives the message exactly once and stays as connected as it was, no other socket anything; not found for a user without sockets |
| WsRegistry.RunInvariant | apps/gateway/src/common/services/ws-gateway/ws.gateway.ts:95-149 | Under every interleaving the indexes are inverse without empty sets, and a socket is registered to a user exactly when its last completed event is a successful authentication as that user |
| WsRegistry.EmitReaches | apps/gateway/src/common/services/ws-gateway/ws.gateway.ts:151-174 | An emit reaches exactly the sockets last authenticated as the user |
| WsRegistry.RegisterInverseIff | apps/gateway/src/common/services/ws-gateway/ws.gateway.ts:125-133 | Registering keeps the indexes inverse if and only if the socket was not registered to somebody else |
| WsRegistry.LateRegistration | apps/gateway/src/common/services/ws-gateway/ws.gateway.ts:120-149 | A socket that disconnects while its authentication is pending stays registered once it succeeds |
| Loaders.LoadByOwner | apps/gateway/src/common/data-loaders/posts-photos-loader.ts:19-36 | The grouping loop gives every requested owner that owner's files in order, or null |
| Loaders.LoadByPost | apps/gateway/src/common/data-loaders/posts-photos-loader-by-post.ts:17-29 | The same by post; a missing answer throws |
| Loaders.LoadPayments | apps/gateway/src/common/data-loaders/payments-loader.ts:25-46 | Every requested user gets the concatenated payments of all fetched rows of that user, null only without a row |
| Loaders.BatchIsOneByOne | apps/gateway/src/common/data-loaders/payments-loader.ts:29-43 | For any key list, duplicates included, a batch gives every key what loading it alone gives |
| LikeTable.LikesRepository.AddLike | apps/gateway/src/features/posts/infrastructure/posts-like.repository.ts:20-32 | Appends the row, or refuses a taken id |
| LikeTable.LikesRepository.GetLike | apps/gateway/src/features/posts/infrastructure/posts-like.repository.ts:47-63 | A fresh entity for the user's row on the target, null when there is none |
| CommentLikes.AddLikeDislikeCommentUseCase.CreateNewLike | apps/gateway/src/features/posts/application/use-cases/add-like-dislike-comment.use-case.ts:70-86 | Adds a row dated now, or fails on an unknown user or taken id and adds nothing |
| PostLikes.AddLikePostUseCase.CreateNewLike | apps/gateway/src/features/posts/application/use-cases/add-like-post.use-case.ts:61-73 | Adds a like row dated now, or fails and adds nothing |
| PostLikes.VotersAreOdd | apps/gateway/src/features/posts/infrastructure/posts.query-repository.ts:296-302 | After any run the users the sub-select counts are exactly the unbanned ones with an odd number of successful calls |
| PostUpdatedSort.SelectMatchesCountIff | apps/gateway/src/features/posts/infrastructure/posts.query-repository.ts:253-325 | Ordered by update date, the listing's rows past the cursor are as many as its count if and only if several users' posts are listed, or there is no cursor, or no visible post was last updated between the cursor post's two dates |
| PostUpdatedWalk.AscendingRepeatsIff | apps/gateway/src/features/posts/infrastructure/posts.query-repository.ts:268-313 | Ordered by update date, ascending, a walk whose first page ends at an updated post shows no post twice if and only if each page but the last ends at a post last updated at its creation, or several users' posts are listed; then it shows the updated posts in order |
| PostUpdatedWalk.AscendingStartsOver | apps/gateway/src/features/posts/infrastructure/posts.query-repository.ts:268-313 | In ascending order, when the first page has room for a post never updated, a second request shows the first post again |
| PostUpdatedWalk.DescendingShowsAllIff | apps/gateway/src/features/posts/infrastructure/posts.query-repository.ts:268-313 | In descending order, when the posts never updated do not fill a page, a finished walk shows none twice, and every visible post if and only if behind each page end the next post was last updated before the page's last post was created |
| PostUpdatedWalk.DescendingStaysAtStart | apps/gateway/src/features/posts/infrastructure/posts.query-repository.ts:268-313 | In descending order, when the posts never updated fill a page, no walk ever shows an updated post |
| PostUpdatedWalk.SeveralUsersComplete | apps/gateway/src/features/posts/infrastructure/posts.query-repository.ts:384-440 | Listing several users' posts by update date, descending, a finished walk shows every visible post exactly once |
| PostUpdatedWalk.AscendingAgainWalk | apps/gateway/src/features/posts/infrastructure/posts.query-repository.ts:268-313 | Two posts of one user, created at 0 and updated at 1 and 2: in ascending order with pages of one post the second page is the first again |
| PostUpdatedWalk.DescendingMissesWalk | apps/gateway/src/features/posts/infrastructure/posts.query-repository.ts:268-313 | The same two posts: in descending order with pages of one post the second page is empty and the other post is missed |
| CursorPages.RepeatsIff | apps/gateway/src/features/posts/infrastructure/posts.query-repository.ts:268-313 | For any keys and any greater numbers cursors stand for: a walk shows no row twice if and only if each row it stopped at stands for its own key |
| CursorPages.CompleteIff | apps/gateway/src/features/posts/infrastructure/posts.query-repository.ts:268-313 | For any keys and any smaller numbers cursors stand for: a finished walk shows every row if and only if behind no page end the next row lies at or above what the page's last row stands for |
| Messenger.MessageRepository.CreateMessageReadStatus | apps/messenger/src/features/message/infrastructure/message.repository.ts:52-68 | Adds the mark, or refuses a second one of the same user and message |
| MessengerRuns.ChatIsPrivate | apps/messenger/src/features/chat/infrastructure/chat.repository.ts:39-47 | A chat that two different users share has no other participant |
| ChatRemoval.RemovedCursorRepeatsIff | apps/messenger/src/features/message/infrastructure/message.query-repository.ts:31-66 | After a removed cursor message the next page shows some message again if and only if a shown one is still in the chat and fewer than a page of the chat's messages are newer than the newest of those |
| ChatRemoval.WalkRepeatsIff | apps/messenger/src/features/message/infrastructure/message.query-repository.ts:29-66 | Whatever is sent or removed between the requests, cursor messages included, a walk without ties shows no message twice if and only if at no request a shown message lies in its range with fewer than a page of newer ones in front |
| ChatRemoval.RemovedCursorRun | apps/messenger/src/features/message/application/use-case/remove-messages.use-case.ts:32-54 | From the empty store: three sends, pages of two, the second message removed after the first page; the second page shows the third message again |
| DateFormatter.DateStringParts | libs/date-formater/src/date-formater.service.ts:13-20 | A dd.mm.yyyy string parses to the date of its three numbers, with days and months out of range overflowing as section 21.4.2.1 of ECMA-262 does |
| DateFormatter.ParseToString | libs/date-formater/src/date-formater.service.ts:6-17 | parseInt undoes String, padded to two digits or not |
| Subscriptions.SubscriptionEntity.CancelSubscription | apps/payments/src/features/payments/domain/subscription.entity.ts:97-101 | The entity is cancelled without renewal at this time, its other fields as before |
| Subscriptions.PaymentsRepository.GetActiveSubscriptionsByDate | apps/payments/src/features/payments/infrastructure/payments.repository.ts:130-149 | One fresh entity per live row that ended before the date, in order |
| Subscriptions.PaymentsRepository.GetActiveSubscriptionByUserId | apps/payments/src/features/payments/infrastructure/payments.repository.ts:151-168 | A fresh entity of the user's live row, null when there is none |
| Subscriptions.PaymentsRepository.UpdateManySub | apps/payments/src/features/payments/infrastructure/payments.repository.ts:86-104 | Stores every given entity over the row with its id |
| CancelPasses.NothingLeft | apps/payments/src/features/payments/application/payments.service.ts:139-189 | After an open-gate pass no expired subscription is live |
| LiveSubscriptions.WriteKeepsOneLive | apps/payments/src/features/payments/infrastructure/payments.repository.ts:77-84 | Storing a row keeps one live row per user if and only if it is not live or its user has no other live row |
| AccountTypes.UserEntity.Apply | apps/gateway/src/features/subscriptions/application/use-cases/update-subscription-info.use-case.ts:44-54 | Business until the end date when that is in the future, else Personal without expiry |
| AccountTypes.UsersRepository.GetUsersByIds | apps/gateway/src/features/users/infrastructure/users.repository.ts:41-53 | One fresh entity per known listed user |
| AccountTypes.UsersRepository.GetUserById | apps/gateway/src/features/users/infrastructure/users.repository.ts:307-314 | A fresh entity of the user, null when unknown |
| AccountTypes.UpdateSubscriptionsInfoUseCase.ApplyEntry | apps/gateway/src/features/subscriptions/application/use-cases/update-subscriptions-info.use-case.ts:50-66 | One round of the loop updates the entity map as the single update updates the table; an unknown user is skipped |
| AccountTypes.UpdateSubscriptionsInfoUseCase.HandleUsers | apps/gateway/src/features/subscriptions/application/use-cases/update-subscriptions-info.use-case.ts:77-84 | Writing every mapped entity gives the table the map mirrors |
| AccountTypes.UpdateSubscriptionsInfoUseCase.HandleEvents | apps/gateway/src/features/subscriptions/application/use-cases/update-subscriptions-info.use-case.ts:86-96 | One event per mapped entity, with its final type |
| AccountTypes.ExpiredReports | apps/gateway/src/features/subscriptions/application/use-cases/update-subscriptions-info.use-case.ts:53-66 | A payload of past end dates makes exactly the listed known users Personal without expiry |
| Identities.UsersRepository.GetUserByEmail | apps/gateway/src/features/users/infrastructure/users.repository.ts:30-39 | Some user with the email, none only when nobody has it |
| Identities.UsersRepository.GetUserByUsername | apps/gateway/src/features/users/infrastructure/users.repository.ts:55-66 | Some user with the name, none only when nobody has it |
| Identities.UsersRepository.GetUserByLink | apps/gateway/src/features/users/infrastructure/users.repository.ts:231-245 | Some user linked to the external id, none only when nobody is |
| Identities.UsersRepository.GetUserByToken | apps/gateway/src/features/users/infrastructure/users.repository.ts:247-276 | The user the confirmation token belongs to, none only when there is no such token |
| Identities.UsersRepository.CreateNotConfirmedUser | apps/gateway/src/features/users/infrastructure/users.repository.ts:68-93 | Adds the unconfirmed account with its token, or refuses a taken key |
| Identities.UsersRepository.CreateConfirmedUser | apps/gateway/src/features/users/infrastructure/users.repository.ts:95-133 | Adds a confirmed account, or refuses a taken id |
| Identities.UsersRepository.AddLinkToUser | apps/gateway/src/features/users/infrastructure/users.repository.ts:181-214 | Adds the provider's link row for the user |
| Identities.UsersRepository.RemoveUserById | apps/gateway/src/features/users/infrastructure/users.repository.ts:145-152 | Removes the user with its token, links, ban and sessions |
| Identities.UsersRepository.CreateSession | apps/gateway/src/features/security-devices/infrastructure/security-devices.repository.ts:23-36 | Adds the session, or refuses a device id in use |
| IdentityRuns.StepKeeps | apps/gateway/src/features/auth/application/use-cases/registration.use-case.ts:101-140 | Every step keeps the invariant, every confirmed account and its links |
| Sessions.SecurityDevicesRepository.GetDeviceById | apps/gateway/src/features/security-devices/infrastructure/security-devices.repository.ts:59-68 | A fresh entity of the device's session, null when there is none |
| Sessions.SecurityDevicesRepository.CreateSession | apps/gateway/src/features/security-devices/infrastructure/security-devices.repository.ts:23-36 | Adds the session of an existing user, or refuses a device id in use |
| SessionRuns.TokenTracked | apps/gateway/src/features/auth/application/use-cases/refresh-token-use-case.ts:36-51 | No issued token is later than its device's live session, which belongs to the token's user |
| SessionRuns.GoneForever | apps/gateway/src/features/security-devices/infrastructure/security-devices.repository.ts:49-88 | A device whose session has gone never gets one again |
| WsRegistry.WsGateway.AuthConnection | apps/gateway/src/common/services/ws-gateway/ws.gateway.ts:49-93 | Answers the token's user, by WsRegistry.AuthenticatesIff exactly for a verified token of a known unbanned one, or forces a disconnect |
| WsRegistry.WsGateway.HandleDisconnect | apps/gateway/src/common/services/ws-gateway/ws.gateway.ts:142-149 | Takes the socket out of both indexes |
| CommentPages.SortedIsOwnThenByDate | apps/gateway/src/features/posts/infrastructure/posts-comment.query-repository.ts:85-89 | A list is in the listing's order if and only if no comment of the viewer's stands behind another's and within both parts the creation dates ascend or descend |
| IdentityOutcomes.RegistrationOutcome | apps/gateway/src/features/auth/application/use-cases/registration.use-case.ts:52-140 | A registration succeeds if and only if nobody found by email or name is confirmed and the new keys are free once the replaced account is gone; it stores exactly the new unconfirmed account and its token in place of the account found by name, or else by email; a confirmed match is the bad request, and no refusal stores anything |
| IdentityOutcomes.ConfirmationOutcome | apps/gateway/src/features/auth/application/use-cases/registration-confirmation.use-case.ts:38-63 | Success exactly for a known, unexpired token of an unbanned user, which confirms that user and uses the token up; unknown, banned and expired have their own answers and store nothing |
| IdentityOutcomes.LoginOutcome | apps/gateway/src/features/auth/application/use-cases/login-use-case.ts:46-83 | Success exactly for the right password of a confirmed unbanned account on a free device id, which opens that one session; else nothing is stored |
| IdentityOutcomes.SignInOutcome | apps/gateway/src/features/auth/application/use-cases/login-by-google.use-case.ts:55-143 | Success if and only if client data and, for Google, a verified email are there, the device id is free, and a linked user is unbanned, or else the account with the email is unbanned and without a link of this provider, or else the new id is free; it stores the session, and for an unknown external id the link and the confirmed or new account, and nothing else; a refusal stores nothing |
| IdentityOutcomes.SignInRefusals | apps/gateway/src/features/auth/application/use-cases/auth-with-github-use-case.ts:49-110 | Which of the refusals is answered, each on the guards alone |
| IdentityOutcomes.SessionOrigin | apps/gateway/src/features/auth/application/use-cases/login-use-case.ts:46-79 | In every run each session was opened by an earlier login with the account's password, or by an earlier sign-in with client data and, from Google, a verified email, that left the external id linked to the user; the user was not banned then |
| IdentityOutcomes.GoogleOrigin | apps/gateway/src/features/auth/application/use-cases/login-by-google.use-case.ts:55-143 | In every run each Google link was made by an earlier sign-in with that external id and a verified email that is the account's |
| Identities.GeneratedNameIs | apps/gateway/src/features/auth/application/auth.service.ts:44-50 | The generated name is what stands before the first "@", a dash and the random characters, cut to 30 |
| SessionOutcomes.TerminationOutcome | apps/gateway/src/features/security-devices/application/use-cases/terminate-device-by-id.use-case.ts:32-55 | Success exactly for a device whose session is the caller's own, which ends that session alone; an unknown device is not found, another user's forbidden, and both store nothing |
| SessionOutcomes.OthersOutcome | apps/gateway/src/features/security-devices/application/use-cases/terminate-devices-exclude-current.use-case.ts:33-58 | Success exactly when the caller has a session on another device; then all of those end, this device's and other users' stay; else not found |
| SessionOutcomes.ResetOutcome | apps/gateway/src/features/auth/application/use-cases/restore-password-confirmation.use-case.ts:48-83 | A reset succeeds exactly for an unexpired code of an unbanned user; then the users table is the old one with the new hash at that user, the code is gone and exactly this user's sessions are; a refusal stores nothing |
| SessionOutcomes.PasswordIsLatest | apps/gateway/src/features/auth/application/use-cases/restore-password-confirmation.use-case.ts:63-79 | In every run a user's stored password hash is that of the latest reset that went through, or the one given at sign-up when there was none |
| SessionOutcomes.HashChangesByCode | apps/gateway/src/features/auth/application/use-cases/restore-password-confirmation.use-case.ts:48-79 | A known user's hash changes in a step only if that step gave the user's unexpired code, which an earlier request of that user had stored |
| PassOutcomes.PassByColumns | apps/payments/src/features/payments/application/payments.service.ts:139-189 | PayPal is asked, in row order, about the provider ids of exactly the suspended PayPal rows that ended before now, past the gate; unless it throws exactly the ended rows are cancelled without renewal and reported in row order, all others stay; if it throws nothing is stored or reported |
| PassOutcomes.AskedAboutIff | apps/payments/src/features/payments/application/payments.service.ts:153-181 | Over any run of nights PayPal is asked about a subscription on a night if and only if it is a suspended PayPal one ended by then and no earlier stored pass had found it ended |
| PassOutcomes.AskedOnce | apps/payments/src/features/payments/application/payments.service.ts:153-181 | Over any run of nights the stored passes ask PayPal exactly once about each suspended PayPal subscription one of them found ended, and never about any other |
| MessengerOutcomes.ReadOutcome | apps/messenger/src/features/message/application/use-case/read-message.use-case.ts:41-66 | In every run reading is not found exactly when the message does not exist, forbidden exactly when it exists and the user is not in its chat, and else succeeds: without a mark the marks grow by exactly that one and the chat's other user is notified, with one nothing changes |
| MessengerOutcomes.SendOutcome | apps/messenger/src/features/message/application/use-case/send-message.use-case.ts:55-123 | In every run a send fails exactly when its message id, or the needed new chat's id, is taken; else it adds exactly the message and its author's mark, to the chat the two share or to a new one of these two, and the receiver is notified |
| MessengerOutcomes.RemovalRefusals | apps/messenger/src/features/message/application/use-case/remove-messages.use-case.ts:38-47 | Not found exactly when no listed message exists, forbidden exactly when a listed one is another user's |
| MessengerOutcomes.ReceiverCanRead | apps/messenger/src/features/message/application/use-case/read-message.use-case.ts:41-66 | Whatever happens after a send, while its message is not removed the receiver's read succeeds, marks it, and the first time notifies the sender |
| CommentLikes.SetStatusOutcome | apps/gateway/src/features/posts/application/use-cases/add-like-dislike-comment.use-case.ts:46-97 | Not found exactly without the comment; a first status needs a known user and a free row id; success leaves exactly the caller's row with the status, dated now if it changed, and every other row as it was; else nothing changes |
| PostLikes.LikePostOutcome | apps/gateway/src/features/posts/application/use-cases/add-like-post.use-case.ts:40-87 | Not found exactly when there is no such post of an unbanned owner; a first like needs a known user and a free row id; success toggles or adds exactly the caller's row; else nothing changes |
| PostColumns.ListedByColumns | apps/gateway/src/features/posts/infrastructure/posts.query-repository.ts:231-325 | Sorted by creation date the listing has each post once, and exactly the unbanned owners' posts in scope created before (ascending: after) the post whose id was sent as cursor, if that is one not hidden by a ban; the separate count is their number |
| PostColumns.PostWalkByColumns | apps/gateway/src/features/posts/infrastructure/posts.query-repository.ts:231-325 | With distinct creation dates a finished walk has shown exactly the unbanned owners' posts in scope, each later one created earlier (ascending: later) |
| PostColumns.UpdatedListedByColumns | apps/gateway/src/features/posts/infrastructure/posts.query-repository.ts:253-325 | Sorted by update date the listing has each post once, and exactly those in scope whose update date lies beyond the cursor post's creation date (several users': its update date); a cursor never updated is none; the count compares both update dates |
| ChatAccess.QueryOutcome | apps/messenger/src/features/message/application/query-bus/get-chat-messages.use-case.ts:54-77 | Not found exactly for an unknown chat, forbidden exactly for a user outside it; else a page of the first messages, whose total is the number of the chat's messages and whose page count is the ceiling |
| ChatAccess.OrderedByFields | apps/messenger/src/features/message/infrastructure/message.query-repository.ts:29-68 | The rows of a request are exactly the chat's messages sent before the cursor message, or all without one, newest first |
| WsRegistry.RegisteredOrigin | apps/gateway/src/common/services/ws-gateway/ws.gateway.ts:120-149 | In every run a socket is registered to a user only because it connected with a verified token of that user and the lookup then found the user unbanned |
| SubscriptionOutcomes.ActivationAlone | apps/payments/src/features/payments/application/handlers/paypal/paypal-subscription-active.handler.ts:67-85 | Without another live subscription of the user, activating a pending one makes it active and renewing, its dates kept, every other row as before |
| SubscriptionOutcomes.ActivationInPlaceOf | apps/payments/src/features/payments/application/handlers/paypal/paypal-subscription-active.handler.ts:67-85 | With one, that is cancelled and hands its dates over, and exactly these two rows change; if the provider refuses the cancellation nothing does |
| SubscriptionOutcomes.ReactivationOutcome | apps/payments/src/features/payments/application/handlers/paypal/paypal-subscription-active.handler.ts:50-90 | The webhook makes a suspended subscription active and renewing and leaves active and cancelled ones alone |
| SubscriptionOutcomes.SuspensionOutcome | apps/payments/src/features/payments/application/handlers/paypal/paypal-subscription-suspended.handler.ts:33-58 | A subscription of any status is suspended and stops renewing, and nothing else changes |
| SubscriptionOutcomes.CancellationOutcome | apps/payments/src/features/payments/application/handlers/paypal/paypal-subscription-cancel.handler.ts:44-55 | A subscription of any other status is cancelled and stops renewing, and nothing else changes |
| SubscriptionOutcomes.PaymentAlone | apps/payments/src/features/payments/application/handlers/paypal/paypal-payment-succeeded.handler.ts:63-109 | Without another live subscription of the user it names, a payment makes the subscription active and renewing with the new period; an unknown plan stores nothing |
| SubscriptionOutcomes.PaymentInPlaceOf | apps/payments/src/features/payments/application/handlers/paypal/paypal-payment-succeeded.handler.ts:63-109 | With one, that is cancelled first, also when the plan then is unknown; if the provider refuses nothing is stored |
| SubscriptionOutcomes.FailedPaymentOutcome | apps/payments/src/features/payments/application/handlers/paypal/paypal-payment-failed.handler.ts:76-100 | A failed payment cancels the subscription, keeps its end date and, through the update's default, sets it renewing |
| SubscriptionOutcomes.CheckoutInPlaceOf | apps/payments/src/features/payments/application/handlers/stripe/stripe-checkout-session-completed.handler.ts:30-48 | Stripe's checkout cancels the user's other live subscription and makes this one active under the provider's id, renewal and dates kept; exactly these two rows change, none if the provider refuses |
| SubscriptionOutcomes.SwitchOutcome | apps/payments/src/features/payments/application/use-cases/command/enable-autorenewal.use-case.ts:40-76 | If the provider accepts, the switch changes the renewal of the user's live subscription alone; at PayPal on makes it active and off suspended, at Stripe its status stays; switched the way it is nothing changes |
| JsDate.CalendarSteps | apps/payments/src/features/payments/application/payments.service.ts:191-203 | Day 0 is 1 January 1970 and each day's fields are the next calendar day's after those of the day before, with the months' lengths and leap years written out |
| Notifier.RowNotices | apps/payments/src/features/payments/application/payments.service.ts:93-129 | A row is told of exactly when its end lies seven calendar days ahead, or one, then first of the next payment if it renews |
| Loaders.FilesInOrder | apps/gateway/src/common/data-loaders/posts-photos-loader.ts:23-35 | A key gets nothing from no files, a file for its own key, and from two lists one after the other what it gets from each, in order |
| Loaders.PaymentsInOrder | apps/gateway/src/common/data-loaders/payments-loader.ts:29-43 | The same for payments: a subscription's payments for its own user, lists one after the other in order |

## Left out

- External services (Stripe, PayPal, S3, mail, reCAPTCHA, brokers, JWT signing, bcrypt): a call is a boolean or a parameter; a throw is the failing branch, and a payment webhook whose lookups at PayPal fail before anything is stored is no event.
- Atomicity: each use case is one atomic step, so read-then-create races between requests are not modelled; only the socket registry is modelled with interleaving.
- Time: local time is UTC with days of fixed length; integers are unbounded, with ECMA-262's limit on time values modelled.
- `findFirst` without an order: identities and sessions take any matching row; chats, live subscriptions and posts take the first in table order, and the invariants show there is at most one where it matters.
- Strings compare exactly; collations of the database are not modelled.
- Walks by update date are proved for distinct update dates and fixed posts and bans; ties are covered for the creation-date ordering.
- getPostById and the mutation of its "myStatus", avatars and photo links added to listing rows: one-row lookups without a property across functions.
- Profile edits and their effect on usernames, admin deletion of users, and notifications that block a user's deletion.
- Messages sent to oneself are allowed in every run; the routing claim is for two different users.
- The gateway's own send-message and its compensation field, controllers, resolvers, mappers, logging and configuration.
- Payment transactions and the event mails of account changes: rows and messages nothing else reads.
- Subscriptions.PaymentService.DisableSubscription: the pass runs at one instant; the source reads the clock again for each row's update time.
- AccountTypes.UpdateSubscriptionsInfoUseCase.Execute: the events are modelled as published records; what subscribes to them is not.
- Identities.ExternalSignInUseCase.Execute: one class stands for the Google and the GitHub use case, with the provider and the verified-email check as its difference; the profile fields the link rows carry besides the external id are left out.
- Sessions.SessionUseCases.Validate: token signature and expiry are checked by the JWT library before it.
- WsRegistry.WsGateway.AuthConnection: parsing the authorization header and verifying the token are one parameter.
- DateOfBirth.AcceptedIfOldEnough: for clocks whose date thirteen years ago is a valid time value.
- ChatPages.ChatWalkNeverRepeats: for walks whose cursor messages are kept; ChatRemoval.WalkRepeatsIff says for all walks without ties when a message is shown again.
- Sessions of `Identities` and `Sessions`: the first models only who a session belongs to, which is all sign-in needs; the second models its times, tokens and endings.
