# carb-snap-insulin, modelled in Dafny

This project models the deterministic logic of the carb-snap-insulin web app. The app estimates the carbohydrate in a meal photo and recommends an insulin dose from a carbs-per-unit ratio. Six parts are modelled, each with the properties its code promises:

- **PIN gate** of the settings screen (`pin_gate.dfy`, `settings_screen.dfy`).
  - A three-screen state machine: set-up, unlock, settings panel.
  - A plain PIN string kept in the browser's key-value store.
  - `PinGate` holds each handler as a transition on values, with lemmas about runs of transitions.
  - `SettingsScreen.SettingsView` is the component as a class. Its handlers update its fields and write into a `LocalStorage` object, and each handler is proved equal to its `PinGate` transition.
- **Dose and history** of the main page (`dose.dfy`).
  - The dose is carbs divided by the ratio, rounded to one decimal, kept as integer tenths of a unit.
  - Each result freezes the ratio in effect when it was captured.
  - The history is newest first and capped at ten results.
  - `IndexPage` is the page's state as a class.
- **Totals** of the pending results (`results.dfy`).
  - Two left folds.
  - The proof that summing rounded doses can differ from rounding the summed carbohydrate, by at most half a tenth per result.
- **Daily history** (`daily_history.dfy`, `calendar.dfy`).
  - The loop that groups the history into one entry per day, with running totals.
  - The sort, newest day first.
  - A day is an abstract integer key.
- **Translation function `t`** (`translation.dfy`).
  - Table lookup with fallback to the key.
  - Then one first-occurrence replacement per parameter, in parameter order, on the running text.
- **E-mail encoder** of the `send-email-gmail` function (`email.dfy`, `base64.dfy`).
  - The credentials check.
  - The `multipart/alternative` message of section 5.1 of RFC 2046, joined with CRLF as in section 2.1 of RFC 2822.
  - The tag-stripped plain-text part.
  - The unpadded base64url encoding of section 5 of RFC 4648, with its round trip back to the raw message.
- **Admin user list** (`admin.dfy`).
  - Case-insensitive search and name filter.
  - Role lookup and the admin toggle.
  - The buttons each row offers.
  - The per-day sign-up count.

`wrappers.dfy` (Option, Result), `text.dfy` (digits, ASCII lower-casing, substring search, join) and `seqs.dfy` are shared helpers.

Some safeguards one might expect of such an app are absent from the code, and the model follows the code:
- The code has no PIN hashing, no failed-attempt counter, no lockout and no inactivity auto-lock. The settings screen compares the entry with the stored plain string and never counts failures.
  - `PinGate.NoLockoutAfterWrongEntries` states that any number of wrong entries leaves the gate where it was.
- The dose computation has no failure cases for a bad ratio or a bad carbohydrate value. The page divides unchecked, so the model takes a ratio of at least 1 as a precondition.
- The ratio field passes whatever number is typed, fractions included. The model takes the ratio as a whole number; see "Left out".

## Model

| member | source | states |
|---|---|---|
| PinGate.Mount | src/components/SettingsView.tsx:19-29 | After mounting, settings are locked and both inputs are empty. A PIN counts as present exactly when the store holds a non-empty string for its key. |
| PinGate.SetPin | src/components/SettingsView.tsx:31-60 | "Invalid PIN" exactly when the entry is not four ASCII digits, checked before the confirmation. "Mismatch" exactly when it is well formed but differs from the confirmation. Both failures change no field and store nothing. Success stores the entry, sets `hasPin` and `isUnlocked`, and clears both inputs. |
| PinGate.Verify | src/components/SettingsView.tsx:62-80 | Access is granted exactly when the stored value equals the entry, and otherwise the notice is "incorrect". The gate is unlocked afterwards exactly when it was unlocked before or the entry matched. The entry is cleared on both outcomes. `hasPin`, the confirmation and the store are untouched. |
| PinGate.Filter | src/components/SettingsView.tsx:82-92 | A keystroke value is taken exactly when it is all digits and at most four long. Otherwise the field keeps its old value. |
| PinGate.PinInput | src/components/SettingsView.tsx:82-92 | A keystroke in the PIN field leaves it holding either the typed value or its old value. A field of at most four digits stays so. Every other field is unchanged. |
| PinGate.ConfirmPinInput | src/components/SettingsView.tsx:82-92 | The same for the confirmation field, with every other field unchanged. |
| PinGate.Lock | src/components/SettingsView.tsx:208 | Lock clears `isUnlocked` and leaves `hasPin` and both inputs as they were. |
| PinGate.ScreenOf | src/components/SettingsView.tsx:100-222 | Set-up screen exactly when no PIN is present. Unlock screen exactly when a PIN is present and the gate is locked. Settings panel exactly when both `hasPin` and `isUnlocked` hold. |
| PinGate.InputsStayWellFormed | src/components/SettingsView.tsx:82-92 | Every handler keeps `pin` and `confirmPin` digit strings of length at most 4. |
| PinGate.FilteredPinOfLengthFourIsWellFormed | src/components/SettingsView.tsx:31-39 | Behind the keystroke filter, a four-character entry never fails the format check. |
| PinGate.FailedVerifyChangesNothingElse | src/components/SettingsView.tsx:72-79 | A failed verification only empties the entry and raises "incorrect". |
| PinGate.NoLockoutAfterWrongEntries | src/components/SettingsView.tsx:62-80 | Any series of wrong entries leaves the gate exactly as it was. There is no counter and no lockout. |
| PinGate.SetLockVerifyRoundTrip | src/components/SettingsView.tsx:31-80 | A PIN that was set and then locked away shows the unlock screen. Typing the same PIN again grants access and shows the settings panel. |
| PinGate.PanelOnlyThroughStoredPin | src/components/SettingsView.tsx:62-80 | From a screen other than the panel, verification reaches the panel only when the entry equals the stored PIN. Set-up reaches it only by storing the entry. |
| SettingsScreen.LocalStorage.SetItem | src/components/SettingsViewTranslated.tsx:52 | The store maps the key to the new value, and every other entry is unchanged. |
| SettingsScreen.SettingsView.constructor | src/components/SettingsViewTranslated.tsx:20-31 | Mounting leaves the fields of `PinGate.Mount` for the current store: locked, empty inputs, and `hasPin` exactly when the stored PIN is a non-empty string. |
| SettingsScreen.SettingsView.HandleSetPin | src/components/SettingsViewTranslated.tsx:33-62 | The new fields, stored PIN and notice are those of `PinGate.SetPin`. Success happens exactly for a well-formed entry equal to its confirmation. The store changes only on success, and then only at the PIN key. The inputs stay well formed. |
| SettingsScreen.SettingsView.HandleVerifyPin | src/components/SettingsViewTranslated.tsx:64-82 | The new fields and notice are those of `PinGate.Verify` on the store's current value. Access is granted exactly on equality. The entry is always cleared, and a failure leaves `isUnlocked` as it was. |
| SettingsScreen.SettingsView.HandlePinInput | src/components/SettingsViewTranslated.tsx:84-88 | The entry takes the value exactly when it is at most four digits. Both inputs stay well formed. |
| SettingsScreen.SettingsView.HandleConfirmPinInput | src/components/SettingsViewTranslated.tsx:90-94 | The confirmation takes the value exactly when it is at most four digits. Both inputs stay well formed. |
| SettingsScreen.SettingsView.LockSettings | src/components/SettingsViewTranslated.tsx:210 | Only `isUnlocked` changes, to false. |
| SettingsScreen.SettingsView.CurrentScreen | src/components/SettingsViewTranslated.tsx:102-224 | The panel is rendered exactly when `hasPin` and `isUnlocked` both hold. The unlock screen is rendered exactly when a PIN is present but locked, and the set-up screen exactly when none is present. |
| Dose.DoseTenths | src/pages/Index.tsx:31 | The dose `d`, in tenths, is within half a tenth of carbs ÷ ratio: 2·\|d·ratio − 10·carbs\| ≤ ratio. |
| Dose.DoseIsNearestTenth | src/pages/Index.tsx:31 | No other tenth is closer to carbs ÷ ratio than the computed dose. |
| Dose.DoseMonotoneInCarbs | src/pages/Index.tsx:31 | For a fixed ratio ≥ 1, more carbohydrate never gives a smaller dose. |
| Dose.PlaceholderCarbs | src/pages/Index.tsx:30 | The placeholder estimate is a whole number of grams in [10, 59]. |
| Dose.PushHistory | src/pages/Index.tsx:43 | The new result is at index 0. The length is min(n + 1, 10). The entries after it are the previous history's first entries, in the same order. |
| Dose.HistoryOf | src/pages/Index.tsx:43 | After any series of captures from an empty history, the history holds min(n, 10) results and the newest capture is in front. |
| Dose.HistoryIsNewestTen | src/pages/Index.tsx:43 | After any series of captures from an empty history, the history is the ten most recent results, newest first. |
| Dose.IndexPage.constructor | src/pages/Index.tsx:21-24 | The page starts with the camera closed, no current result, an empty history and the default ratio of 10. |
| Dose.IndexPage.SetInsulinRatio | src/pages/Index.tsx:111 | A ratio change sets the ratio and leaves the history and the current result, with their frozen ratios and doses, unchanged. |
| Dose.IndexPage.HandlePhotoCapture | src/pages/Index.tsx:26-44 | The result records the estimate in [10, 59], the ratio in effect, and the dose for those two, with the capture time as id and timestamp. It becomes the current result, the camera closes, and the history becomes `PushHistory` of the old history. |
| Results.TotalCarbs | src/components/ResultsDisplayTranslated.tsx:17 | The `reduce` from 0 equals the plain sum of the estimates taken from the front. |
| Results.TotalInsulin | src/components/ResultsDisplayTranslated.tsx:18 | The `reduce` from 0 equals the plain sum of the stored doses taken from the front. |
| Results.TotalsOfAppend | src/components/ResultsDisplayTranslated.tsx:17-18 | Appending one result raises the carbohydrate total by its estimate and the insulin total by its stored dose. |
| Results.TotalsOfConcat | src/components/ResultsDisplayTranslated.tsx:17-18 | The totals of two runs of results add up. |
| Results.TotalInsulinDrift | src/components/ResultsDisplayTranslated.tsx:18 | For results captured at one ratio, the insulin total (a sum of rounded doses) is within half a tenth per result of carbohydrate total ÷ ratio. |
| Results.RoundingOrderCanDiffer | src/components/ResultsDisplayTranslated.tsx:18 | Three 1 g results at ratio 3 total 0.9 units, while 3 g at ratio 3 rounds to 1.0. The stored doses are summed, not re-rounded. |
| Results.ResultsView | src/components/ResultsDisplayTranslated.tsx:17-80 | The totals shown are `TotalCarbs` and `TotalInsulin` of all the results, so each is at least the first result's value. The ratio shown is the first result's. The "from N photos" note appears exactly when there is more than one result, with N the number of results. |
| DailyHistory.InsertByDate | src/components/DailyHistoryView.tsx:41 | Inserting a group into a newest-first list of groups with other days gives a newest-first permutation of the list plus the group. |
| DailyHistory.SortByDateDescending | src/components/DailyHistoryView.tsx:41 | For groups with distinct days, the result is a permutation of the groups in strictly descending date order. |
| DailyHistory.ItemCountSorted | src/components/DailyHistoryView.tsx:41 | Sorting keeps every item. |
| DailyHistory.FindDay | src/components/DailyHistoryView.tsx:26-35 | The lookup finds an entry with the given day exactly when one exists. |
| DailyHistory.AddItem | src/components/DailyHistoryView.tsx:35-38 | Adding an item keeps the day and the earlier items, appends the item, and keeps totals that were the sums of the items equal to the sums. |
| DailyHistory.SummaryStep | src/components/DailyHistoryView.tsx:35-38 | One more history item changes only its own day's group: the item is appended and its carbs and dose are added to the totals. |
| DailyHistory.NewDay | src/components/DailyHistoryView.tsx:26-33 | A day not seen yet gets an empty group with zero totals, which is that day's group for the history so far. |
| DailyHistory.StepSummaries | src/components/DailyHistoryView.tsx:35-38 | After the push and the two additions, every entry is still its own day's summary of the longer history. |
| DailyHistory.GroupStep | src/components/DailyHistoryView.tsx:35-38 | One turn of the loop keeps the entries one group per day touched, each with its own items and totals. |
| DailyHistory.AddToDay | src/components/DailyHistoryView.tsx:23-39 | The loop body turns the groups of a history into the groups of the history with one more item, and holds one more item. |
| DailyHistory.GroupByDay | src/components/DailyHistoryView.tsx:21-39 | The loop yields exactly one entry per day the history touches. Each entry holds that day's items in history order, with totals equal to the sums over its own items. All items are held. |
| DailyHistory.DailySummaries | src/components/DailyHistoryView.tsx:20-42 | The groups are exactly the history's days, one per day, each with its own items and totals, in strictly descending date order. There are none exactly when the history is empty, and the item count equals the history length. |
| DailyHistory.PermutedGrouping | src/components/DailyHistoryView.tsx:41 | Reordering the groups keeps them the groups of the same history. |
| DailyHistory.NonEmptyIff | src/components/DailyHistoryView.tsx:20-42 | There are no groups exactly when there is no history. |
| DailyHistory.ItemsOnMembership | src/components/DailyHistoryView.tsx:36 | A day's group holds exactly the history items on that day. |
| DailyHistory.ItemsOnKeepsOrder | src/components/DailyHistoryView.tsx:36 | Items keep their history order inside a group: an earlier stretch of the history gives a prefix of the group. |
| DailyHistory.ItemInItsDayGroup | src/components/DailyHistoryView.tsx:23-36 | Every history item is in the group of its own day, and in no group of another day. |
| DailyHistory.ShowsEmptyState | src/components/DailyHistoryView.tsx:56-62 | The empty-state message is shown exactly when the history is empty, which is exactly when no day has an item. |
| DailyHistory.EmptyStateIffNoGroups | src/components/DailyHistoryView.tsx:20-62 | For the groups `dailySummaries` returns, the empty-state message shows exactly when there are no groups, so the message and the list of days never appear together. |
| Text.IndexOf | src/contexts/LanguageContext.tsx:320 | The search finds the first occurrence of the pattern, and finds none exactly when the pattern occurs nowhere. |
| Translation.Lookup | src/contexts/LanguageContext.tsx:316 | A key with a non-empty text gives that text. A missing key, or one mapped to the empty string, gives the key itself. |
| Translation.Placeholder | src/contexts/LanguageContext.tsx:320 | The placeholder is the parameter name between `{` and `}`: two characters longer, a brace at each end, the name in between. |
| Translation.ReplaceFirst | src/contexts/LanguageContext.tsx:320 | Without an occurrence the text is unchanged. Otherwise only the first occurrence is replaced by the value, and the text before and after it is kept. |
| Translation.ReplaceFirstKeepsLaterOccurrences | src/contexts/LanguageContext.tsx:320 | Every occurrence after the first is still present, shifted by the change in length. |
| Translation.AbsentPlaceholderKeepsText | src/contexts/LanguageContext.tsx:320 | A parameter whose placeholder does not occur leaves the text unchanged. |
| Translation.Substitute | src/contexts/LanguageContext.tsx:318-322 | With no parameters, or on a text without `{`, the substitution leaves the text unchanged. |
| Translation.Translate | src/contexts/LanguageContext.tsx:315-325 | A key whose text is non-empty and has no `{` gives that text, whatever the parameters. A missing key, or one mapped to the empty string, that has no `{` comes back as itself, whatever the parameters. |
| Translation.FirstPlaceholderFilled | src/contexts/LanguageContext.tsx:320 | A placeholder preceded only by brace-free text is the first occurrence, and it alone is filled. |
| Translation.SingleParamFillsFirst | src/contexts/LanguageContext.tsx:316-321 | With one parameter, the substitution fills exactly the first occurrence of its placeholder. |
| Translation.OnlyFirstOccurrenceFilled | src/contexts/LanguageContext.tsx:320 | A placeholder used twice is filled once. The second occurrence stays. |
| Translation.ChainedSubstitution | src/contexts/LanguageContext.tsx:319-321 | Parameters apply in order on the running text, so a value that brings in `{b}` is filled by a later parameter `b`. |
| Translation.SwedishPhotoCount | src/contexts/LanguageContext.tsx:316-321 | With Swedish selected, the photo-count text is the Swedish entry with its count filled in. |
| Translation.LanguageSelectsTable | src/contexts/LanguageContext.tsx:316 | An example on a two-entry table: the same key gives the English text under English and the Swedish text under Swedish, and a key the Swedish table lacks comes back unchanged. The general statement, that `t` reads only the current language's table, is the ensures of `Translation.LanguageProvider.T`. |
| Translation.LanguageProvider.constructor | src/contexts/LanguageContext.tsx:313 | The language starts as English. |
| Translation.LanguageProvider.SetLanguage | src/contexts/LanguageContext.tsx:313 | The language becomes the chosen one. |
| Translation.LanguageProvider.T | src/contexts/LanguageContext.tsx:315-325 | The substitution loop returns the lookup in the current language, then one first-occurrence replacement per parameter in order. Without parameters it returns exactly the looked-up text. |
| Email.CheckCredentials | supabase/functions/send-email-gmail/index.ts:27-34 | The check fails, with "Missing Gmail credentials", exactly when one of the four values is unset or empty. Otherwise it yields the four values. |
| Email.StripTags | supabase/functions/send-email-gmail/index.ts:69 | Stripping tags never lengthens the text. |
| Email.StripTagsShrinks | supabase/functions/send-email-gmail/index.ts:69 | Every character of the stripped text comes from the input. |
| Email.StripTagsNoOpen | supabase/functions/send-email-gmail/index.ts:69 | A text without `<` is unchanged. |
| Email.StripTagsLeavesNoTag | supabase/functions/send-email-gmail/index.ts:69 | After stripping, no `<` is followed later by a `>`. |
| Email.PlainText | supabase/functions/send-email-gmail/index.ts:69 | The plain part is the text body when it is non-empty. Otherwise it is the stripped HTML body, which holds no tag. |
| Email.EmailLines | supabase/functions/send-email-gmail/index.ts:59-77 | The message has seventeen lines. The first empty line is the sixth, so exactly the five headers come before the blank line that ends the header block. Counting from 0, line 9 is the plain part and line 14 the HTML body. |
| Email.RawMessage | supabase/functions/send-email-gmail/index.ts:79 | The joined message opens with the From header and ends with the close delimiter `--boundary-string--`, with no line end after it. |
| Email.DelimitersMatchDeclaredBoundary | supabase/functions/send-email-gmail/index.ts:64-76 | The boundary the header declares is the one both parts open with, and the body ends with its close delimiter. The parts are `text/plain` then `text/html`, both UTF-8. |
| Email.RawMessageLines | supabase/functions/send-email-gmail/index.ts:59-79 | Splitting the raw message at CRLF gives back the seventeen lines. The headers come in the order From, To, Subject, MIME-Version, Content-Type. |
| Email.SplitJoin | supabase/functions/send-email-gmail/index.ts:79 | Lines without a carriage return are recovered from their CRLF join. |
| Email.Btoa | supabase/functions/send-email-gmail/index.ts:82 | `btoa` succeeds exactly on byte strings, and otherwise fails with InvalidCharacterError. |
| Email.ReplaceChar | supabase/functions/send-email-gmail/index.ts:83-84 | Every occurrence of the character is replaced, and nothing else changes. |
| Email.StripTrailingEquals | supabase/functions/send-email-gmail/index.ts:85 | The result is a prefix of the input that does not end in `=`, and everything dropped is `=`. |
| Email.EncodeRaw | supabase/functions/send-email-gmail/index.ts:82-85 | The encoding fails, with `btoa`'s InvalidCharacterError, exactly when the message holds a character above U+00FF. |
| Email.EncodeRawIsUnpadded | supabase/functions/send-email-gmail/index.ts:82-85 | The encoded message is unpadded base64 with `+` and `/` swapped for `-` and `_`. |
| Email.EncodeRawAlphabet | supabase/functions/send-email-gmail/index.ts:82-85 | The encoded message uses only `A-Z a-z 0-9 - _`, so it holds no `=`. |
| Email.EncodeRawLength | supabase/functions/send-email-gmail/index.ts:82-85 | The encoded length is ⌈4n/3⌉ for a message of n characters. |
| Email.UrlRoundTrip | supabase/functions/send-email-gmail/index.ts:82-85 | Mapping `-` to `+` and `_` to `/`, re-padding to a multiple of four and base64-decoding gives back the raw message. |
| Email.PaddingFromLength | supabase/functions/send-email-gmail/index.ts:85 | The padding a reader restores from the unpadded length is the padding that was stripped. |
| Email.PrepareRaw | supabase/functions/send-email-gmail/index.ts:32-85 | Missing credentials stop the function before any message is built. Otherwise the result is the encoded raw message. |
| Base64.Char | supabase/functions/send-email-gmail/index.ts:82 | No six-bit group encodes to the padding character. |
| Base64.SextetOfChar | supabase/functions/send-email-gmail/index.ts:82 | Each alphabet character decodes back to the group it encodes. |
| Base64.UnpaddedInAlphabet | supabase/functions/send-email-gmail/index.ts:82 | Every character before the padding is in the standard alphabet. |
| Base64.UnpaddedLength | supabase/functions/send-email-gmail/index.ts:82 | Before the padding there are ⌈4n/3⌉ characters for n bytes. |
| Base64.EncodeLength | supabase/functions/send-email-gmail/index.ts:82 | With the padding, the length is 4·⌈n/3⌉, a multiple of four. |
| Base64.BlockRoundTrip | supabase/functions/send-email-gmail/index.ts:82 | Three bytes survive the split into four six-bit groups and back. |
| Base64.DecodeOneByte | supabase/functions/send-email-gmail/index.ts:82 | One trailing byte decodes back from two characters and `==`. |
| Base64.DecodeTwoBytes | supabase/functions/send-email-gmail/index.ts:82 | Two trailing bytes decode back from three characters and `=`. |
| Base64.EncodeBlockPrefix | supabase/functions/send-email-gmail/index.ts:82 | Three more bytes in front add one block in front of the encoding, and the padding is unchanged. |
| Base64.DecodeQuadBlock | supabase/functions/send-email-gmail/index.ts:82 | A full block decodes to the three bytes it was made from. |
| Base64.DecodeBlockPrefix | supabase/functions/send-email-gmail/index.ts:82 | If the rest round-trips, so do three more bytes in front of it. |
| Base64.DecodeEncode | supabase/functions/send-email-gmail/index.ts:82 | Decoding what the encoder produced gives the bytes back. |
| Admin.MatchesEmail | src/pages/Admin.tsx:330 | An empty search accepts every user. An e-mail that contains the search as typed is accepted. A search longer than the e-mail is never accepted. |
| Admin.MatchesName | src/pages/Admin.tsx:331 | An empty filter accepts every user. A name that contains the filter as typed is accepted. A non-empty filter accepts only users with a name at least as long as the filter. |
| Admin.Kept | src/pages/Admin.tsx:329-333 | With both filters empty every user is kept. A kept user has a name whenever the name filter is non-empty, and an e-mail at least as long as the search. |
| Admin.FilteredUsers | src/pages/Admin.tsx:329-333 | A user is in the filtered list exactly when they are in `users` and both the search and the name filter accept them. The list is never longer than `users`. |
| Admin.FilteredIsSubsequence | src/pages/Admin.tsx:329 | The filtered list is a subsequence of `users`, in the original order. |
| Admin.FilterAppend | src/pages/Admin.tsx:329 | Filtering a concatenation filters each part in place. |
| Admin.EmptyFiltersKeepAll | src/pages/Admin.tsx:329-333 | An empty search and an empty name filter keep every user, in order. |
| Admin.NullNameExcluded | src/pages/Admin.tsx:331 | A user with no full name is excluded whenever the name filter is non-empty. |
| Admin.FilterAgrees | src/pages/Admin.tsx:329-333 | Two pairs of inputs that accept the same users give the same list. |
| Admin.FilterIgnoresCase | src/pages/Admin.tsx:330-331 | Searches and filters that lower-case alike select the same users. |
| Admin.FindAdminRecord | src/pages/Admin.tsx:245 | The lookup finds the first admin record of the user, and finds none exactly when no such record exists. |
| Admin.GetUserRole | src/pages/Admin.tsx:244-247 | The role is 'admin' exactly when an admin record with the user's id exists, and 'user' otherwise. |
| Admin.RoleIgnoresOtherUsers | src/pages/Admin.tsx:244-247 | Records of other users never change a user's role. |
| Admin.ToggleAdminRecords | src/pages/Admin.tsx:214-232 | For a non-admin, the toggle inserts one admin record. For an admin, it removes every admin record of the user and keeps all other records. |
| Admin.ToggleFlipsRole | src/pages/Admin.tsx:214-232 | Toggling with the displayed role as the flag flips the user's role, and leaves every other user's role as it was. |
| Admin.RowActions | src/pages/Admin.tsx:536-580 | Approve and decline are offered exactly for pending users. The admin toggle is offered exactly for approved users, reading "make admin" or "remove admin" by role. The reset e-mail and delete buttons are always offered, last. |
| Admin.ReviewAndToggleExclusive | src/pages/Admin.tsx:536-566 | A row never offers a review and the admin toggle together, and never offers both toggles. |
| Admin.SetStatus | src/pages/Admin.tsx:249-293 | Every row with the id gets the new status, and every other row is unchanged. |
| Admin.ApproveOffersToggle | src/pages/Admin.tsx:536-566 | Once a pending user is approved, their row offers the admin toggle instead of approve and decline. |
| Admin.FindDate | src/pages/Admin.tsx:137 | The lookup finds an entry for the day exactly when the day has one. |
| Admin.TallyNewDay | src/pages/Admin.tsx:137 | A day not seen before gets a new entry with count one, and the entries still tally the profiles seen. |
| Admin.TallySeenDay | src/pages/Admin.tsx:137 | A day seen before has its count raised by one, and the entries still tally the profiles seen. |
| Admin.TalliedCountsPositive | src/pages/Admin.tsx:134-138 | Every day in the tally has a positive count. |
| Admin.GrowthData | src/pages/Admin.tsx:134-138 | The loop gives one entry per distinct creation day, and only for such days. Each entry's count is the number of profiles created that day, which is positive. The counts add up to the number of profiles, the "new users" figure. |

## Left out

- Backend and network calls:
  - the Supabase queries behind every admin handler (create, delete, approve, decline, role toggle, reset e-mail);
  - the statistics queries, including the 30-day window of the sign-up query;
  - the OAuth token request and the Gmail send request.
  The model covers the logic around these calls: the status update, the role-row change and the message encoding.
- Toasts, rendering, and the loading and admin-check screens of the admin page.
- The buttons disabled until four digits are typed. The handlers are modelled as callable in any state, as the Enter key allows; `PinGate.FilteredPinOfLengthFourIsWellFormed` covers the case this opens.
- `isSettingPin`: it is written by the set-PIN handler but never read.
- PIN hashing, an attempt counter, a lockout and an auto-lock: the code has none of them, so there is nothing to model.
- Dose.DoseTenths: exact halves are rounded up in integer arithmetic. `toFixed(1)` on binary doubles can round some of them down. The proved half-a-tenth bound holds either way.
- Dose.DoseTenths: the ratio is a whole number. Both settings panels pass `Number(e.target.value)` on unchanged (src/components/SettingsPanel.tsx:32, src/components/SettingsPanelTranslated.tsx:38), so a typed fractional ratio such as 12.5 reaches the division. Non-integer ratios are not modelled.
- Dose.IndexPage.SetInsulinRatio: takes a whole-number ratio, so a fractional ratio typed into the field is not modelled, and neither is the dose computed from it.
- Dose.IndexPage.HandlePhotoCapture: `Math.random()` and the clock are parameters. The source reads the clock twice, once for the id (`Date.now()`) and once for the timestamp (`new Date()`); the model passes a single `now` for both, so two readings that differ by a millisecond are not modelled. The AI estimate, the error toast and the string id are not modelled. The ratio is required to be at least 1, since the ratio input's limits are browser hints only.
- Float sums of doses are integer sums of tenths.
- Results.ResultsView: requires at least one result. With none, the component's read of the first result's ratio throws, and that exception is not modelled.
- Dates and locales:
  - `startOfDay`, the `yyyy-MM-dd` keys and the displayed date formats;
  - time zones;
  - `toLocaleDateString` keys of the growth map.
  Each is an abstract integer day key.
- Admin.GrowthData: keeps the growth entries in first-seen order. The later sort by re-parsed locale date strings is not modelled.
- DailyHistory.GroupByDay: the summary map is a sequence of entries in insertion order, which the method reassigns. The JavaScript object identity behind mutating a summary in place is not modelled.
- Admin.FilteredUsers: lower-casing is ASCII only, here and in Admin.MatchesEmail, Admin.MatchesName and Admin.Kept. Unicode case mapping of `toLowerCase` is not modelled.
- Translation.LanguageProvider.T: substitution behaviour is only partly modelled:
  - parameter values are strings (no `String(value)` conversion of numbers);
  - a replacement value is inserted literally (no `$` patterns);
  - the parameters come as a sequence, in the order `Object.entries` would list them.
- Translation.SwedishPhotoCount: the translation table is represented by two of its entries in each language, not the full table.
- The languages "fr" and "es", which the sign-in page can set, are not part of the table and are not modelled.
- Email.RawMessageLines: stated for fields without a carriage return. A field holding CRLF would add lines to the message, and that case is not modelled.
- A body that contains the boundary string is not modelled.
- Email.Btoa: characters are code points. UTF-16 surrogate detail is not modelled.
