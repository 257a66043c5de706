# Classifieds marketplace services in Dafny

This project models the three in-memory service modules of a classifieds
marketplace ("souq") and proves properties of them:

- **Chat store.** Conversations between two users, messages with ids `msg1`,
  `msg2`, … taken from a counter, a typing indicator, and the simulated
  counterpart's delayed canned reply. It also covers read flags, unread
  counting, listing by recency and a lookup restricted to participants.
- **User store.** Login matching, registration with a duplicate-email check,
  the credit ledger, follow and unfollow, the admin's flag toggles and profile
  edits.
- **Ad catalog.** Creation with defaults, field-restricted edits, status and
  promotion changes, deletion, and the filter-then-sort queries: promoted ads
  first, then the newest.

Each store is an immutable datatype: the module-level arrays plus their id
counters. Each operation is a pure function from a store and arguments to the
next store and a result (`Wrappers.Step`). Thrown errors become `Result.Err`
and `undefined` becomes `Option.None`.

Time is a natural-number clock `now`, passed in by the caller. The chat
counterpart's timer callback is its own transition, `Chat.DeliverReply`. The
store keeps the list of timers that were scheduled and have not yet fired.
The caller picks which timer fires and which of the five canned answers it
sends. The user directory that the chat and ad services read from the user
module is passed in as a `Users.UserStore`.

Files:

- `wrappers.dfy`: `Option`, `Result`, `Step`, plus `Collections`, which has
  `find`/`findLast` as indices and a `filter` with its algebra.
- `text.dfy`: ASCII lower-casing, substring search (`includes`), and decimal
  rendering of counters.
- `sorting.dfy`: a stable insertion sort with a caller-supplied order, the
  model of `Array.prototype.sort`. It is proved to permute, to sort and to be
  stable.
- `users.dfy`, `ads.dfy`, `chat.dfy`: the three services.
- `chat_invariants.dfy`: the chat store's invariant and its preservation by
  every transition.
- `chat_properties.dfy`: multi-call chat properties (idempotent start, unread
  accounting, query contents, the reply's effect).
- `chat_history.dfy`: arbitrary runs of chat calls. They keep the invariant,
  and they never lose a message or make one unread again.
- `chat_clock.dfy`: message times along a run. When the clock passed to the
  calls never goes back, each conversation's messages stay in time order.

## Model

| member | source | states |
|---|---|---|
| Sorting.SortSorted | services/adService.ts:35-39 | sorting with a comparator that is a total preorder yields a list ordered by it |
| Sorting.SortStable | services/adService.ts:35-39 | elements the comparator ties keep their original relative order (JavaScript's sort is stable) |
| Text.ContainsIff | services/adService.ts:31 | `includes` holds exactly when the needle occurs at some position of the haystack |
| Users.InitialStore | services/userService.ts:5-21 | the store starts with the one admin account (id 1, 9999 credits), whose seeded e-mail and password log in, and the counter at 2; it satisfies the id invariant |
| Users.GetUserById | services/userService.ts:60-66 | `None` exactly when no user has the id; otherwise the first stored user with that id, as `find` returns it, with the password removed |
| Users.GetUserByIdUnique | services/userService.ts:60-66 | with unique ids, the record returned is the sanitised record of that user |
| Users.Login | services/userService.ts:23-27 | returns a user exactly when some stored user matches the e-mail ignoring case and the password exactly; the result is the first such user, as `find` returns it |
| Users.Register | services/userService.ts:29-49 | fails exactly when the e-mail is in use ignoring case, leaving the store unchanged; otherwise appends one member account with the counter id, not verified, not premium, 5 credits and no follows |
| Users.RegisterKeepsValid | services/userService.ts:34-47 | registration keeps ids unique and below the counter |
| Users.RegisterThenLogin | services/userService.ts:23-49 | a fresh registration can log in at once with the same e-mail and password and gets the new account |
| Users.GetUsers | services/userService.ts:51-58 | the listing is a rearrangement of the sanitised accounts |
| Users.GetUsersSorted | services/userService.ts:51-58 | the listing is in ascending id order, contains every account sanitised, and shows no password |
| Users.ToggleUserVerification | services/userService.ts:68-71 | flips `isVerified` of exactly the users with that id; every other field and user is unchanged |
| Users.ToggleUserPremium | services/userService.ts:73-76 | flips `isPremium` of exactly the users with that id; every other field and user is unchanged |
| Users.ToggleUserVerificationKeepsValid | services/userService.ts:68-71 | a verification toggle keeps ids unique and below the counter |
| Users.ToggleUserPremiumKeepsValid | services/userService.ts:73-76 | a premium toggle keeps ids unique and below the counter |
| Users.ToggleTwiceRestores | services/userService.ts:68-76 | toggling either flag twice gives back the original store |
| Users.UpdateUser | services/userService.ts:78-93 | only name and e-mail of the matching users change; an unknown id fails and changes nothing; the result is the sanitised updated record |
| Users.UpdateUserKeepsValid | services/userService.ts:78-93 | a profile edit keeps ids unique and below the counter |
| Users.SpendCredit | services/userService.ts:95-108 | charges exactly `amount` to the users with that id whose balance covers it; fails, changing nothing, exactly when no user can be charged |
| Users.SpendCreditKeepsValid | services/userService.ts:95-108 | a charge keeps ids unique and below the counter |
| Users.AddCredits | services/userService.ts:110-123 | adds exactly `amount` to the users with that id and changes nothing else; an unknown id fails and changes nothing |
| Users.AddCreditsKeepsValid | services/userService.ts:110-123 | a credit keeps ids unique and below the counter |
| Users.CreditsStayNonNegative | services/userService.ts:95-123 | spending never makes a balance negative; adding a non-negative amount keeps balances non-negative |
| Users.SpendThenAddRestores | services/userService.ts:95-123 | with unique ids, a successful charge followed by adding back the same amount restores the store |
| Users.FollowUser | services/userService.ts:125-142 | only follow lists change; the store keeps its size and counter |
| Users.FollowUserKeepsValid | services/userService.ts:125-142 | a follow keeps ids unique and below the counter |
| Users.FollowEffect | services/userService.ts:125-142 | for distinct users, the follower's `following` gets the target appended at the end unless already there, and the target's `followers` gets the follower appended unless already there; the other lists are unchanged, no list gains a duplicate, other users are unchanged |
| Users.FollowIdempotent | services/userService.ts:125-142 | for distinct users, following twice equals following once |
| Users.UnfollowUser | services/userService.ts:144-155 | only follow lists change; the store keeps its size and counter |
| Users.UnfollowUserKeepsValid | services/userService.ts:144-155 | an unfollow keeps ids unique and below the counter |
| Users.UnfollowEffect | services/userService.ts:144-155 | for distinct users, the edge is gone on both sides while every other entry keeps its count; the untouched lists and every other user are unchanged |
| Users.UnfollowUndoesFollow | services/userService.ts:125-155 | for distinct users not yet linked, unfollowing after following restores the store |
| Ads.InitialStoreValid | services/adService.ts:19-21 | the catalog starts empty with the counter at 1, and satisfies the id invariant |
| Ads.JoinAdWithAuthor | services/adService.ts:8-16 | the ad is kept and the author has no password; when some user has the ad's user id the author is the sanitised record of the first such user, as `find` returns it, and when none has it the author is exactly the id-0 placeholder |
| Ads.DeletedAuthor | services/adService.ts:10 | the placeholder author: id 0, no password, empty e-mail, an unverified, non-premium ordinary member with no credits and no follows, joined at the caller's clock |
| Ads.JoinFindsAuthor | services/adService.ts:8-16 | with unique user ids, the joined author is the sanitised record of the ad's user |
| Ads.FilterAdsIsPasses | services/adService.ts:25-32 | the two filter stages keep exactly the ads in the given governorate that mention the given term ignoring case, in stored order |
| Ads.EmptyFilterKeepsAll | services/adService.ts:25-32 | with no governorate and no term, or empty ones, no ad is dropped |
| Ads.GetAds | services/adService.ts:23-40 | the result is a rearrangement of the filtered ads joined with their authors |
| Ads.GetAdsContents | services/adService.ts:23-40 | every listed ad is stored and passes the filter, and every stored ad that passes is listed |
| Ads.GetAdsOrdered | services/adService.ts:33-39 | every promoted ad comes before every other ad, each group newest first, and tied ads keep their stored order |
| Ads.GetAdById | services/adService.ts:42-46 | `None` exactly when no ad has the id; otherwise a stored ad with that id, joined with its author |
| Ads.AddAd | services/adService.ts:48-60 | prepends one ad with the counter id, `now`, 0 likes, active and not promoted, keeping the caller's fields and the other ads; the counter advances |
| Ads.AddAdKeepsValid | services/adService.ts:48-60 | adding keeps ad ids unique and below the counter |
| Ads.AddThenGet | services/adService.ts:42-60 | a newly added ad is found by its id |
| Ads.UpdateAd | services/adService.ts:62-74 | only title, description, price, phone number and governorate of the matching ads change; an unknown id fails and changes nothing; otherwise the result is the last matching ad, as edited, joined with its author |
| Ads.UpdateAdIdempotent | services/adService.ts:62-74 | applying the same edit twice equals applying it once |
| Ads.UpdateAdStatus | services/adService.ts:76-79 | only the status of the matching ads changes; an unknown id is a no-op |
| Ads.PromoteAd | services/adService.ts:81-84 | only the promotion flag of the matching ads changes, to true; an unknown id is a no-op |
| Ads.PromoteAndStatusIdempotent | services/adService.ts:76-84 | promoting twice, or setting the same status twice, equals doing it once |
| Ads.UpdateAdKeepsValid | services/adService.ts:62-74 | an edit keeps ad ids unique and below the counter |
| Ads.UpdateAdStatusKeepsValid | services/adService.ts:76-79 | a status change keeps ad ids unique and below the counter |
| Ads.PromoteAdKeepsValid | services/adService.ts:81-84 | promotion keeps ad ids unique and below the counter |
| Ads.DeleteAd | services/adService.ts:86-89 | the remaining ads are exactly the stored ads without that id, each as many times as stored |
| Ads.DeleteAdIdempotent | services/adService.ts:86-89 | deleting twice equals deleting once |
| Ads.DeleteAdKeepsOrder | services/adService.ts:86-89 | deletion distributes over concatenation, so the relative order of the remaining ads is kept |
| Ads.DeleteAdKeepsValid | services/adService.ts:86-89 | deletion keeps ad ids unique |
| Ads.DeleteUndoesAdd | services/adService.ts:48-89 | deleting the ad just added gives back the previous ads |
| Ads.GetAllAdsForAdmin | services/adService.ts:91-95 | the result is a rearrangement of all stored ads joined with their authors |
| Ads.GetAllAdsForAdminOrdered | services/adService.ts:91-95 | the listing is newest first, and ads posted at the same time keep their stored order |
| Ads.GetAdsByUserId | services/adService.ts:97-106 | the result is a rearrangement of that user's ads joined with their authors |
| Ads.GetAdsByUserIdContents | services/adService.ts:97-106 | exactly that user's ads are listed, promoted first and then newest first |
| Chat.Other | services/chatService.ts:57 | the participant found is in the pair and differs from the given user; when the user is in the pair, the pair is those two |
| Chat.MessageIdRoundTrip | services/chatService.ts:47 | the counter value can be read back from the id `msg<n>`, so distinct counter values give distinct ids |
| Chat.FindConversation | services/chatService.ts:31 | the first conversation with the id, or `None` exactly when no conversation has it |
| Chat.GetParticipantData | services/chatService.ts:10-13 | the directory record of the participant who is not the caller; `None` exactly when the directory lacks that user |
| Chat.GetUnreadCount | services/chatService.ts:112-121 | zero exactly when no conversation the user takes part in holds a message from someone else that is unread |
| Chat.UnreadTotalZero | services/chatService.ts:112-121 | the running total is zero exactly when every contributing conversation has no unread message for the user |
| Chat.GetConversationsForUser | services/chatService.ts:15-27 | the listing is a rearrangement of the user's conversations, each with the other participant and the user's unread count |
| Chat.GetConversationById | services/chatService.ts:29-37 | answers exactly when the first conversation with the id includes the user, and then returns it with the other participant |
| Chat.StartConversation | services/chatService.ts:123-142 | an existing conversation holding both users is returned with the store unchanged; otherwise one is created with the counter id, participants in call order and no messages, at the front, and the counter advances |
| Chat.SendMessage | services/chatService.ts:40-60 | an unknown id fails and changes nothing; otherwise one unread message with the counter id is appended, the timestamp set, the other participant shown typing, one reply scheduled, and every other conversation unchanged |
| Chat.MarkFirstRead | services/chatService.ts:88-91 | only messages with the given id may become read; with unique ids exactly those do |
| Chat.DeliverReply | services/chatService.ts:63-93 | with the conversation gone only the timer is used up; otherwise the typing indicator is cleared, the replier's unread canned answer appended with the next id and timestamp, and the original message marked read |
| Chat.CannedReplies | services/chatService.ts:71-73 | the five canned answers the counterpart picks from, in the source's order |
| Chat.ReadAllFrom | services/chatService.ts:103-108 | afterwards no message from someone else is unread; messages from the reader are unchanged; others are unchanged or became read |
| Chat.MarkConversationAsRead | services/chatService.ts:98-110 | only that conversation's messages change, as `ReadAllFrom` says; an unknown id is a no-op |
| ChatInvariants.InitialStoreValid | services/chatService.ts:4-7 | the store starts with no conversation and no pending reply, the first conversation id is 1 and the first message id `msg1`; it satisfies the invariant |
| ChatInvariants.StartConversationKeepsValid | services/chatService.ts:123-142 | conversation ids stay unique and below the counter, at most one conversation per pair of users, message ids stay unique, pending replies stay well-formed |
| ChatInvariants.SendMessageKeepsValid | services/chatService.ts:40-95 | sending keeps the invariant, including the new scheduled reply |
| ChatInvariants.DeliverReplyKeepsValid | services/chatService.ts:63-93 | delivering a reply keeps the invariant |
| ChatInvariants.MarkConversationAsReadKeepsValid | services/chatService.ts:98-110 | marking read keeps the invariant |
| ChatProperties.StartConversationIdempotent | services/chatService.ts:123-142 | a second call for the same pair, in either order, returns the same conversation and changes nothing |
| ChatProperties.StartConversationSymmetric | services/chatService.ts:126-132 | for a pair that already has a conversation, the argument order does not matter |
| ChatProperties.OneConversationPerPair | services/chatService.ts:126-141 | in a valid store, two conversations holding the same two users are the same one |
| ChatProperties.StartConversationFindsTheOne | services/chatService.ts:123-142 | in a valid store, the returned conversation is the only one holding both users |
| ChatProperties.SendMessageUnread | services/chatService.ts:40-60 | sending adds one to the unread count of each participant other than the sender and leaves every other count unchanged |
| ChatProperties.MarkConversationAsReadUnread | services/chatService.ts:98-121 | afterwards the conversation contributes nothing to the reader's count, and the total drops by exactly what it contributed |
| ChatProperties.MarkConversationAsReadIdempotent | services/chatService.ts:98-110 | marking a conversation read twice equals marking it once |
| ChatProperties.ConversationsForUserAddUp | services/chatService.ts:15-27 | the per-conversation unread counts of the listing add up to the user's total unread count |
| ChatProperties.GetConversationsForUserContents | services/chatService.ts:15-27 | exactly the user's conversations are listed, each summarised for the user, most recent first |
| ChatProperties.GetConversationByIdAuthorized | services/chatService.ts:29-37 | in a valid store the lookup answers exactly when a conversation with that id includes the user |
| ChatProperties.DeliverReplyEffect | services/chatService.ts:63-93 | in a valid store the replier is a participant; one unread canned answer with a fresh id is appended; exactly the original message, which is present, becomes read |
| ChatHistory.StartConversationGrows | services/chatService.ts:123-142 | every message stays, unchanged, at its position in the conversation with the same id |
| ChatHistory.SendMessageGrows | services/chatService.ts:40-60 | every message stays, unchanged, at its position in the conversation with the same id |
| ChatHistory.DeliverReplyGrows | services/chatService.ts:63-93 | no message is lost; at most an unread one becomes read |
| ChatHistory.MarkConversationAsReadGrows | services/chatService.ts:98-110 | no message is lost; at most an unread one becomes read |
| ChatHistory.ReachableValid | services/chatService.ts:4-142 | every store reached from the empty one by any sequence of calls satisfies the invariant |
| ChatHistory.RunGrows | services/chatService.ts:40-110 | along any sequence of calls every message stays at its position in the conversation with the same id, with the same content, and never becomes unread again |
| ChatClock.StartConversationTimesOrdered | services/chatService.ts:123-142 | started at a time `now` no earlier than the clock, every conversation, old or new, has its messages in time order and its stamp no later than `now` |
| ChatClock.SendMessageTimesOrdered | services/chatService.ts:40-56 | sent at a time `now` no earlier than the clock, every conversation has its messages in time order and its stamp no later than `now` |
| ChatClock.DeliverReplyTimesOrdered | services/chatService.ts:63-93 | fired at a time `now` no earlier than the clock, every conversation has its messages in time order and its stamp no later than `now` |
| ChatClock.MarkConversationAsReadTimesOrdered | services/chatService.ts:98-110 | every conversation keeps its stamp and every message its timestamp, so the time order is kept |
| ChatClock.RunTimesOrdered | services/chatService.ts:40-142 | along any sequence of calls whose clock never goes back, every conversation's messages are in time order and none is later than the conversation's stamp |
| ChatClock.ReachableChronological | services/chatService.ts:4-142 | every store reached from the empty one under a clock that never goes back has each conversation's messages in time order, each no later than `lastMessageTimestamp` |

## Left out

- Simulated latency: every `await` on a timeout is dropped; each call is one atomic step.
- Wall-clock `new Date()`: replaced by the caller's natural-number clock `now`. The time order of messages is proved only for calls whose clock never goes back (`ChatClock.ClockFrom`); a caller that passes an earlier time can break it, which a real clock does not do.
- Reply timing and randomness: the 2000–3500 ms delay and `Math.random` are not modelled. Which pending timer fires and which canned answer it sends are parameters of `Chat.DeliverReply`.
- Chat.StartConversation: requires two different users. With the same user `a` twice, the source returns, unchanged, the first conversation that includes `a` (its conversation with someone else) when there is one. Only when `a` has no conversation does it store a new conversation `[a, a]`, whose "other participant" does not exist.
- Users.FollowEffect, Users.FollowIdempotent, Users.UnfollowEffect, Users.UnfollowUndoesFollow: stated for two different users. A user following themselves runs the same branches in `Users.FollowUser`, but the effect on both lists is not claimed.
- Users.SpendCredit: the default `amount = 1` is not modelled; callers pass the amount.
- Cross-module user directory: the chat and ad services read the user module's array. Here they take a `Users.UserStore` parameter.
- Ads.JoinAdWithAuthor: the placeholder author's `joinedAt` is the caller's clock.
- Unicode case folding: `toLowerCase` is modelled on ASCII letters only; other characters are kept as they are.
- Float prices and dates: price is an integer; dates are natural numbers.
- Passwords: compared as plain strings; the model makes no security claim.
- The governorate is a plain string, not checked against the list of governorates.
- Optimistic UI updates, polling loops, form guards and the AI description helper are outside the three services and are not part of this model.
- JavaScript object copies (`{ ...user }`) are values here; aliasing between a returned object and the stored one is not modelled.
