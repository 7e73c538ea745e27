# Activity roster page: a Dafny model

The page script of the school activities site keeps a list of activity
records in memory. Each record has an id, a name, a description, a schedule,
a capacity and a list of participant emails. From that list the script
renders one card per activity: the escaped texts, an availability badge, a
participant count, and a participant section with a remove button per
participant. Two event handlers change the store:

- the signup form normalises the typed email and runs five checks that fail
  fast. When they pass, it asks the server to register the participant. On a
  confirmation it appends the email, refreshes that activity's card and shows
  a success message.
- a click on a remove button filters that email out of the named activity,
  refreshes its card and shows an info message.

The model is split into modules that follow the script's helpers:

- `JsString`: the ECMAScript whitespace class, `trim` and `toLowerCase`.
- `Email`: normalisation and `validateEmail`. The index-based scanner is
  proved equal to a direct reading of the regular expression
  `^[^\s@]+@[^\s@]+\.[^\s@]+$` and to a plain description of the addresses
  it accepts.
- `Escape`: `esc`, with a decoder that shows the escaping loses nothing.
- `Availability`: the spots-left count and the badge's class and text.
- `Roster`: the activity record, the sample data, lookup by id and the
  participant filter.
- `Render`: the participant section and the card values.
- `Handlers`: both event handlers as functions from the store (and, for
  signup, the server's reply) to the new store and the message shown.
- `Page`: the mutable page. A class holds the store, the cards on screen and
  the message line. Its methods run the handlers step by step and are proved
  to agree with the functions in `Handlers`. The invariant `Valid` holds
  throughout: the cards always show exactly the store.

The server reply is an input. `Reply` is either a failure inside the
request's `try` (a transport failure or any exception thrown there) or a
response with its `ok` flag and the optional `detail` and `message` fields
of its body. `Handlers.InterleavedSignupsOverfill` shows what the source's
`await` permits: the capacity check runs only before the request, so two
signups validated against the same store can both be confirmed, leaving the
activity one over capacity. Membership is checked again after the request,
so duplicates cannot arise that way (`Handlers.SettleNoDuplicates`).

## Model

| member | source | states |
|---|---|---|
| JsString.IsWhitespace | src/static/app.js:144 | the whitespace class that `trim` strips and `\s` matches; lower-casing never moves it (JsString.LowerChar), so `Email.Normalise` and the scanner see the same positions |
| JsString.Trim | src/static/app.js:144 | the trimmed email has no whitespace at either end |
| JsString.TrimDecomposes | src/static/app.js:144 | trim removes exactly a whitespace prefix and a whitespace suffix, and keeps what lies between |
| JsString.TrimClean | src/static/app.js:144 | trim leaves a string alone when neither end is whitespace |
| JsString.TrimIdempotent | src/static/app.js:144 | trimming twice is trimming once |
| JsString.LowerChar | src/static/app.js:144 | a lower-cased character is never upper case, non-letters are unchanged, and whitespace stays whitespace |
| JsString.ToLower | src/static/app.js:144 | lower-casing keeps the length, leaves no upper-case letter and changes only upper-case letters |
| JsString.LowerCharAscii | src/static/app.js:144 | each ASCII capital A-Z becomes its own small letter a-z |
| JsString.LowerCharLatin | src/static/app.js:144 | each Latin-1 capital U+00C0-U+00DE other than U+00D7 becomes its own small letter |
| JsString.SkipSpaceToLower | src/static/app.js:144 | lower-casing leaves the end of the leading whitespace where it was |
| JsString.BackSpaceToLower | src/static/app.js:144 | lower-casing leaves the start of the trailing whitespace where it was |
| JsString.TrimToLower | src/static/app.js:144 | trimming and lower-casing commute |
| JsString.LowerSlice | src/static/app.js:144 | lower-casing a slice is slicing the lower-cased string |
| JsString.ToLowerIdempotent | src/static/app.js:144 | lower-casing twice is lower-casing once |
| Email.Normalise | src/static/app.js:144 | the normalised email has no whitespace at either end and no upper-case letter |
| Email.NormaliseIdempotent | src/static/app.js:144 | normalising a normalised email changes nothing, so a stored email is in normal form |
| Email.NormaliseFixes | src/static/app.js:144 | an address of lower-case letters, `@` and `.` is already in normal form |
| Email.NormaliseLowerFirst | src/static/app.js:144 | normalising is the same as lower-casing first and trimming after |
| Email.NormaliseIgnoresCase | src/static/app.js:144 | addresses that differ only in the case of their letters have the same normal form, so the duplicate check at line 168 ignores case |
| Email.RunEnd | src/static/app.js:229 | the scanner stops at the first whitespace or `@` after the start, or at the end |
| Email.RunEndOf | src/static/app.js:229 | any position that ends a run of address characters is where the scanner stops |
| Email.IsAddressChar | src/static/app.js:229 | the class `[^\s@]` of each of the pattern's three runs: neither whitespace nor `@` |
| Email.ValidateEmail | src/static/app.js:228-230 | `validateEmail` as a scan; Email.ValidateEmailMatches proves it accepts exactly what the regular expression matches |
| Email.ScannerSound | src/static/app.js:228-230 | every email validateEmail accepts matches the pattern: a non-empty local part, `@`, a non-empty part, `.`, a non-empty part, none with whitespace or `@` |
| Email.ScannerComplete | src/static/app.js:228-230 | every email that matches the pattern is accepted |
| Email.ValidateEmailMatches | src/static/app.js:228-230 | validateEmail accepts an email if and only if it matches the pattern |
| Email.PatternSound | src/static/app.js:229 | a match has no whitespace, exactly one `@`, and a `.` with characters on both sides somewhere after it |
| Email.PatternComplete | src/static/app.js:229 | every string of that shape matches the pattern |
| Email.ValidateEmailShape | src/static/app.js:228-230 | validateEmail accepts exactly the strings with no whitespace, exactly one `@`, a non-empty part before it, and after it a `.` with characters on both sides |
| Email.ValidateEmailOfLetters | src/static/app.js:228-230 | local@domain.suffix made of lower-case letters is accepted |
| Email.LettersMatch | src/static/app.js:229 | local@domain.suffix made of lower-case letters matches the pattern |
| Email.ValidateEmailExample | src/static/app.js:228-230 | carol@mergington.edu is accepted |
| Email.ValidateEmailRejectsWhitespace | src/static/app.js:228-230 | an email with whitespace anywhere is rejected |
| Email.ValidateEmailRejectsTwoAts | src/static/app.js:228-230 | an email with two `@` is rejected |
| Email.ValidateEmailRejectsNoDot | src/static/app.js:228-230 | an email without a `.` is rejected |
| Escape.Entity | src/static/app.js:234-235 | each of the five special characters becomes an entity starting with `&`, any other character is kept, and no replacement holds `<`, `>`, `"` or `'` |
| Escape.IsSpecial | src/static/app.js:234 | the class `[&<>"']` of characters that `esc` replaces |
| Escape.Esc | src/static/app.js:234-236 | `esc` on a string: Escape.UnescapeEsc proves it can be undone, Escape.EscHasNoMarkup that no markup character survives |
| Escape.EscValue | src/static/app.js:232-237 | a missing or empty value escapes to the empty string, and any other string to its escaped form |
| Escape.EscConcat | src/static/app.js:234-236 | escaping works character by character: escaping a concatenation is concatenating the escapes |
| Escape.EscHasNoMarkup | src/static/app.js:232-237 | an escaped string contains no `<`, `>`, `"` or `'` |
| Escape.EscPlain | src/static/app.js:232-237 | a string with no special character is unchanged by escaping |
| Escape.DecodeEntity | src/static/app.js:235 | a decoded entity is the replacement of a special character and starts with `&` |
| Escape.DecodeEntityOf | src/static/app.js:235 | the decoder reads back exactly the entity one special character was replaced by |
| Escape.UnescapeEntity | src/static/app.js:235 | decoding a replacement followed by anything gives back the character followed by the decoding of the rest |
| Escape.UnescapeEsc | src/static/app.js:232-237 | decoding the escaped string gives back the original, so escaping loses nothing |
| Escape.EscChar | src/static/app.js:234-235 | escaping one character gives its replacement |
| Escape.EscTag | src/static/app.js:234-235 | a tag around plain text is escaped to `&lt;`…`&gt;` |
| Escape.EscScriptTag | src/static/app.js:234-235 | `<script>` is escaped to `&lt;script&gt;` |
| Availability.SpotsLeft | src/static/app.js:72 | the spots left are capacity minus participants, clamped at zero, and zero exactly when the activity is full |
| Availability.DigitChar | src/static/app.js:82 | the digit character of a number below ten has that value |
| Availability.DecimalString | src/static/app.js:82 | a number's decimal text is a non-empty run of digits with no leading zero |
| Availability.DecimalRoundTrip | src/static/app.js:82 | reading the decimal text back as a number gives the number |
| Availability.BadgeClass | src/static/app.js:81 | the badge is styled full exactly when no spot is left |
| Availability.SpotsUnit | src/static/app.js:82 | the words after the number: " spots left" when more than one spot is left, " spot left" otherwise; Availability.BadgePlural and Availability.BadgeSingular state the badge's forms |
| Availability.BadgeText | src/static/app.js:82 | the badge reads "Full" exactly when no spot is left |
| Availability.BadgePlural | src/static/app.js:82 | the badge ends in " spots left" exactly when more than one spot is left |
| Availability.BadgeSingular | src/static/app.js:82 | one spot left reads "1 spot left" |
| Availability.BadgeShowsSpots | src/static/app.js:82 | an open badge starts with the number of spots left, which reads back exactly |
| Availability.BadgeOfDigit | src/static/app.js:82 | two to nine spots read as that digit followed by " spots left" |
| Availability.ChessBadges | src/static/app.js:72-82 | capacity 8 reads "6 spots left" with 2 participants, "5 spots left" with 3 and "Full" with 9 |
| Roster.FirstIndex | src/static/app.js:196 | the position found is the first holding the value, and none is found exactly when the value is absent |
| Roster.FindById | src/static/app.js:119 | the activity found is the first with that id, and none is found exactly when no activity has that id |
| Roster.Fixture | src/static/app.js:4-29 | the three sample activities; Roster.FixtureWellFormed proves their ids unique and their lists duplicate-free and within capacity |
| Roster.FixtureWellFormed | src/static/app.js:4-29 | the sample data has unique ids and duplicate-free lists within capacity |
| Roster.FindInUnique | src/static/app.js:119 | with unique ids, looking up an activity's id finds that activity |
| Roster.SameIds | src/static/app.js:123 | replacing a record by one with the same id keeps the ids |
| Roster.Without | src/static/app.js:123 | filtering removes every occurrence of the email and keeps every other email with its multiplicity |
| Roster.WithoutConcat | src/static/app.js:123 | the filter keeps the order of what stays, piece by piece |
| Roster.WithoutAbsent | src/static/app.js:123 | filtering out an absent email changes nothing |
| Roster.WithoutOnce | src/static/app.js:123 | removing an email that occurs once leaves the emails before and after it, in order |
| Roster.WithoutNoDuplicates | src/static/app.js:123 | filtering keeps a list duplicate-free |
| Roster.WithoutMember | src/static/app.js:123 | in a duplicate-free list, removing a member shortens it by exactly one |
| Roster.WithoutShorter | src/static/app.js:123 | filtering never lengthens a list |
| Roster.AppendNoDuplicates | src/static/app.js:185 | pushing an absent email keeps a list duplicate-free |
| Render.Participants | src/static/app.js:98-109 | the section shows the empty-state message exactly for an empty list, and otherwise one row per participant |
| Render.ParticipantsHtml | src/static/app.js:98-109 | the markup is the empty-state message exactly for an empty list |
| Render.SectionHtml | src/static/app.js:99-108 | the markup of a section: the empty-state `<div>`, or the rows wrapped in the `<ul class="participants-list">` element; Render.ListIsNotEmptyState proves the two never coincide |
| Render.JoinItems | src/static/app.js:102-107 | `.join("")` of the rows' markup, in list order |
| Render.ListIsNotEmptyState | src/static/app.js:100-108 | a participant list's markup is never the empty-state message |
| Render.ItemsCarryIdentity | src/static/app.js:102-107 | each row's `data-email` and `data-activity-id` decode to exactly its participant and the activity id, in list order |
| Render.ItemsAreInert | src/static/app.js:102-107 | no value filled into a row holds `<`, `>`, `"` or `'` |
| Render.ItemsAppend | src/static/app.js:102-107 | appending a participant appends one row after the old ones |
| Render.ItemFor | src/static/app.js:104-105 | one row's values: the escaped participant and the escaped activity id; Render.ItemsCarryIdentity proves they decode back |
| Render.Items | src/static/app.js:102-107 | `list.map(...)`: one row per participant, in list order; Render.ItemsCarryIdentity, Render.ItemsAreInert and Render.ItemsAppend describe it |
| Render.ItemHtml | src/static/app.js:102-107 | the markup of one row, filled from a Render.Item whose values Render.ItemsCarryIdentity and Render.ItemsAreInert describe |
| Render.Card | src/static/app.js:68-93 | a card carries the activity's id and participant count, reads "Full" and is styled full exactly when the activity is at or over capacity, and shows the empty-state message exactly when nobody is signed up |
| Render.CardIsInert | src/static/app.js:76-80 | a card's title, description and schedule hold no raw markup character |
| Render.RenderAll | src/static/app.js:64-96 | there is one card per activity |
| Render.RenderAllSnoc | src/static/app.js:68-95 | rendering one more activity appends its card |
| Render.CardIdsAreIds | src/static/app.js:68-71 | each card carries its activity's id as `data-activity-id`, so the cards' ids are the store's ids in store order |
| Render.UpdateCard | src/static/app.js:195-216 | refreshing a card keeps the number of cards |
| Render.Refresh | src/static/app.js:198-215 | the badge, count and participant section `updateActivityCard` rewrites; Render.RefreshIsCard proves the result is the card rendered anew |
| Render.RefreshIsCard | src/static/app.js:198-215 | after a change of participants only, refreshing the old card gives the new activity's card |
| Render.UpdateCardInSync | src/static/app.js:195-216 | with unique ids, refreshing the card of an activity whose participants changed leaves the cards showing exactly the new store |
| Render.LastRemovalShowsEmptyState | src/static/app.js:98-101 | removing the only participant brings back the empty-state message |
| Render.ChessCard | src/static/app.js:68-93 | the chess card shows "6 spots left" and a count of 2 |
| Handlers.Validate | src/static/app.js:144-171 | an accepted signup names an activity in the store |
| Handlers.CheckText | src/static/app.js:148-169 | the five error messages of the checks; Handlers.CheckTextDistinct proves each check has its own |
| Handlers.CheckTextDistinct | src/static/app.js:148-169 | different failing checks show different messages |
| Handlers.ValidateFailsFast | src/static/app.js:147-171 | a check's message is the answer exactly when that check fails and every earlier check passes |
| Handlers.ValidateAccepts | src/static/app.js:147-171 | a signup goes through exactly when all five checks pass |
| Handlers.ValidateSound | src/static/app.js:144-171 | an accepted signup carries the normalised email, which passes validateEmail, and the first activity with the chosen id, which has room and does not list the email |
| Handlers.ValidateFor | src/static/app.js:144-171 | when every check passes for the activity found, the signup is accepted for it |
| Handlers.ServerErrorText | src/static/app.js:179 | the error shown for a refusal is a non-empty `detail`, otherwise a non-empty `message`, otherwise "Failed to sign up"; it is never empty |
| Handlers.AddParticipant | src/static/app.js:184-185 | the email is appended when absent, the list is unchanged when present, and nothing else about the activity changes |
| Handlers.Settle | src/static/app.js:174-192 | after the reply the store keeps its length and a message is always shown |
| Handlers.Signup | src/static/app.js:142-193 | every submission shows a message |
| Handlers.SignupRejected | src/static/app.js:147-171 | a rejected signup leaves the store alone and shows the failing check's error |
| Handlers.SignupNotConfirmed | src/static/app.js:178-181 | a refusal or a failure inside the request leaves the store alone and shows an error; once validation passed, the text is Handlers.ServerErrorText for a refusal and "Network error while signing up" otherwise |
| Handlers.SignupAppends | src/static/app.js:183-188 | a confirmed signup appends the normalised email to the chosen activity, touches no other activity and shows "Successfully signed up!" |
| Handlers.SignupStoresNormalised | src/static/app.js:144-185 | any email a signup adds is the normalised input, is in normal form and passes validateEmail |
| Handlers.SignupWellFormed | src/static/app.js:142-193 | a signup keeps participant lists duplicate-free and within capacity |
| Handlers.SettleNoDuplicates | src/static/app.js:183-185 | whatever changed while the request was in flight, a confirmation keeps participant lists duplicate-free |
| Handlers.InterleavedSignupsOverfill | src/static/app.js:162-185 | with one spot left, two different valid signups accepted against the same store and both confirmed leave the activity one over capacity |
| Handlers.Remove | src/static/app.js:112-126 | a removal keeps the number of activities |
| Handlers.TargetId | src/static/app.js:116 | the activity a button names: its own `data-activity-id` when truthy, otherwise its card's; the removal lemmas are stated over it |
| Handlers.RemoveIgnored | src/static/app.js:113-120 | a click off a button, without an email, without an activity id on the button or its card, or for an unknown activity, changes nothing and shows nothing |
| Handlers.RemoveDeletes | src/static/app.js:115-125 | for the activity the button or, failing that, its card names, a removal deletes every occurrence of the email, keeps its other participants, touches no other activity and shows "Removed … from …" |
| Handlers.RemoveWellFormed | src/static/app.js:112-126 | a removal keeps lists duplicate-free and within capacity, and shortens the named activity's list by one when the email was there, whether the id came from the button or its card |
| Handlers.ChessSignup | src/static/app.js:142-188 | confirming anything that normalises to carol's address for the chess club appends it last and the badge reads "5 spots left" |
| Handlers.ChessDuplicate | src/static/app.js:168-171 | anything that normalises to alice's address is refused for the chess club as a duplicate |
| Handlers.FixtureLookups | src/static/app.js:156 | looking up "chess" in the sample data finds the first record |
| Handlers.FixtureAddresses | src/static/app.js:147 | carol's and alice's addresses are valid, and carol is not yet in the chess club |
| Handlers.AliceAddress | src/static/app.js:147 | alice@mergington.edu is accepted |
| Handlers.CarolIsNew | src/static/app.js:168 | carol is not yet a chess club participant |
| Page.RenderActivities | src/static/app.js:64-96 | the cards built in the loop are one per activity, in store order |
| Page.FindCard | src/static/app.js:196-197 | the card found is the first showing the activity's id, and none exactly when no card shows it |
| Page.Page.constructor | src/static/app.js:4-29 | the page starts from the sample data, renders it, and shows no message |
| Page.Page.ShowMessage | src/static/app.js:218-226 | the message line shows the text with its kind |
| Page.Page.UpdateActivityCard | src/static/app.js:195-216 | the first card with the activity's id gets the new badge, count and participant section, and nothing else changes |
| Page.Page.Submit | src/static/app.js:143-171 | a rejected submission shows the failing check's error, and an accepted one returns the request to send with the message line untouched |
| Page.Page.Complete | src/static/app.js:174-192 | after the reply the store and the message are what `Handlers.Settle` gives, and the cards still show exactly the store |
| Page.Page.HandleSignup | src/static/app.js:142-193 | the store and the message after a submission are what `Handlers.Signup` gives, and the cards still show exactly the store |
| Page.Page.HandleParticipantRemove | src/static/app.js:112-126 | the store after a click is what `Handlers.Remove` gives; the message changes exactly when the click names a truthy email and a known activity, whether or not that email was listed; the cards still show exactly the store |

## Left out

- `init` and the missing-element guards: the model starts from a page whose elements all exist (src/static/app.js:34-62). A missing badge, count or section element inside `updateActivityCard` is not modelled either.
- `populateActivitySelect`: it only fills the `<select>` options from the ids and names. The selected id is an input of the signup.
- The request: `fetch`, JSON decoding and `encodeURIComponent` are not modelled. The reply is an input. `Pending.activityName` records that the request names the activity by its display name.
- Handlers.Reply: every exception inside the `try` of `handleSignup` is the one value `NetworkFailure`, which shows "Network error while signing up". Two such exceptions are not transport failures. A refusal whose body is JSON `null` throws when `detail` is read (src/static/app.js:179). A lone surrogate in the name or email makes `encodeURIComponent` throw (src/static/app.js:175-176). Which replies end there is not modelled. Only string or missing `detail` and `message` fields are modelled: a field of another type, such as an array or a number, is shown through `String(...)`, possibly as "", and is not covered by Handlers.ServerErrorText.
- Numbers: capacity is a JavaScript number, while the model uses an unbounded integer. Fractional capacities and counts of 10^21 or more, which JavaScript writes in exponent form, are not modelled.
- Strings: Dafny strings hold Unicode scalar values, while JavaScript strings hold UTF-16 code units. A lone surrogate cannot be represented.
- The hide timer of `showMessage`, `console.error`, `preventDefault` and the form reset: none of them changes the store, the cards or the message text.
- Markup layout: the card and participant section are modelled as the values they show (`Render.CardView`, `Render.Section`). The row markup string is `Render.ItemHtml`. Whitespace, the header markup and DOM node identity are not modelled.
- A missing participant list (`act.participants || []`) is not modelled: a record's list is always present, possibly empty.
- JsString.LowerChar: maps only the ASCII and Latin-1 capitals to small letters, and keeps every other character; this per-character step is where the restriction below lives.
- JsString.ToLower: lower-cases only ASCII and Latin-1 upper-case letters, because full Unicode case mapping (including characters whose lower case has a different length) is not within the model.
- JsString.IsWhitespace: lists the ECMAScript WhiteSpace and LineTerminator code points by hand, taking the space separators of the current Unicode version. It does not follow later Unicode versions.
- Escape.EscValue: only strings and missing values are modelled. `String(s)` of numbers and other values is not modelled.
- Concurrency is modelled only as `Handlers.Settle` applied to a store that changed after validation. No event loop is modelled.
- tests/test_app.py is not part of this model: it exercises the server, whose source is not part of this model.
- Render.ItemsCarryIdentity: the decoder is `Escape.Unescape`, which copies every character other than the five entities. The HTML parser also replaces U+0000 in an attribute value by U+FFFD. validateEmail accepts an address holding U+0000, since U+0000 is neither whitespace nor `@`, so such an address can be stored. Its button's `data-email` then reads back differently: the filter at src/static/app.js:123 removes nothing, yet the message at line 125 still says it was removed. The model does not capture this.
- Page.FindCard: `updateActivityCard` finds the card with a CSS selector built by pasting the id (src/static/app.js:196). An id holding `"` makes the selector invalid, and `\` starts a CSS escape. The model compares ids for equality, which agrees only for ids without those characters. Every id in the sample data is plain.
