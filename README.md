# Chat client text and selection logic, in Dafny

`public/chat.js` is the browser side of a chat room. Most of it moves data between a
socket, HTTP endpoints and the page. This project models the logic inside it that is
about text and state, and proves what that logic does:

- **Room routing**: the path `/server/<digits>` gives the room id. On load the page joins
  that room and fetches its history. Any other path does neither (`RoomRoute`).
- **Emoji trigger**: on every edit, the input handler decides from the value and the cursor
  whether the text before the cursor is a `:query` token (`EmojiTrigger`). It ignores the
  token when the character beside the cursor is an emoji. The emoji test on one character
  (the Unicode Emoji property or the zero-width joiner) is a parameter `isEmoji`.
- **Emoji picker**: the selection flag, whether the results box is displayed, the
  highlighted index, the results and the spans drawn for them, and the field's value.
  - `Navigator` gives each event as a function on these values and proves the picker's
    invariant and its navigation laws.
  - `Autocomplete.EmojiAutocomplete` is the same state as mutable fields. Its handlers are
    proved to update the fields exactly as those functions say. The loop that draws the
    results (`RenderResults`) is proved against its specification.
- **Emoji insertion**: the leftmost match of `/:[^\s]*$/` in the whole value is replaced by
  the glyph and a space. The cursor plays no part (`EmojiInsert`).
- **Message formatting**: `isImageUrl` and `formatTimestamp` (`MessageFormat`, `Decimal`),
  and `linkify` (`Linkify`). `linkify` is modelled as the global scan its regular
  expression performs. Each piece of the scan sits at its own offset: the pieces before it
  spell exactly the text before it. A plain character is kept only where no match starts
  (`Linkify.ScanPlainHasNoMatch`), so each match is the leftmost one. By the greedy
  repetition each match is also the longest one at its offset (`Linkify.ScanLinkIsMatch`).
  A URL with text before it keeps that text and wraps the URL (`Linkify.LinkifyWrapsUrl`).
- **Typing indicator**: the set of users currently typing, in a JavaScript `Set`'s
  insertion order, and the line shown for it (`Typing`).

Behaviour of the code that the proofs make explicit:
- The trigger rejects only a plain space (U+0020) between the `:` and the cursor. Insertion
  stops at any `\s` character.
- Insertion works on the end of the value, not at the cursor.
  - With the cursor after `:sm` at the start of `:sm hello`, the query is `sm`, but
    committing a glyph leaves the value unchanged (`Navigator.CommitInsertsAtEndNotAtCursor`).
  - In `a:b:c` the trigger query is `c` (`EmojiTrigger.LastColonQueryExample`), but the
    glyph replaces everything from the first `:` (`EmojiInsert.InsertFromFirstColonExample`).
- Results that arrive replace the current ones whatever query they answer. Stale results
  are not discarded.
- The keydown guard lists only ArrowDown, ArrowUp, Enter and Tab. So the ArrowLeft and
  ArrowRight branches that follow it never run, and those keys change nothing.
- `linkify` keeps all text outside the URLs as it is, markup characters included
  (`Linkify.LinkifyWithoutUrls`).

## Model

| member | source | states |
|---|---|---|
| `RoomRoute.ParseRoomId` | public/chat.js:13-22 | an id is found exactly when the whole path is `/server/` and one or more digits; the id is that digit string |
| `RoomRoute.RoomIdOfServerPath` | public/chat.js:13-22 | every non-empty digit string is recovered as the id of `/server/` followed by it |
| `RoomRoute.OnLoad` | public/chat.js:16-25 | a room path joins its room (lines 16-25) and loads that room's history (the fetch at lines 148-150); any other path does nothing |
| `RoomRoute.ExamplePaths` | public/chat.js:13 | `/server/42` gives `42`; `/server/`, `/server/42/`, `/server/4a` and `/servers/42` give no id |
| `JsText.LastIndexOf` | public/chat.js:404 | the result is -1 exactly when the character is absent; otherwise it is the position of its last occurrence |
| `JsText.SliceFrom` | public/chat.js:410-412 | `slice` with a start in range, beyond the end, or negative (counted from the end and clamped) |
| `JsText.LowerChar` | public/chat.js:245 | only ASCII capitals fold, each to its lower-case letter |
| `EmojiTrigger.InputOutcome` | public/chat.js:402-417 | the handler as written searches only when the value has a `:` and no emoji is beside the cursor; the query always ends at the cursor |
| `EmojiTrigger.TriggerQuery` | public/chat.js:402-412 | a query exists exactly when a `:` precedes the cursor, no emoji is beside the cursor, and no space lies between the last such `:` and the cursor; the query is the text strictly between them |
| `EmojiTrigger.LastColonIsUnique` | public/chat.js:404 | the last `:` before the cursor is the one `lastIndexOf` returns |
| `EmojiTrigger.InputOutcomeAgreesWithTrigger` | public/chat.js:402-417 | when a `:` precedes the cursor, the handler as written decides exactly what `TriggerQuery` says |
| `EmojiTrigger.ColonAfterCursorSearchesAllText` | public/chat.js:404-412 | value `a b:` with the cursor at 3: the handler searches for `a b`, while there is no trigger |
| `EmojiTrigger.ColonOnlyAfterCursorSearchesBefore` | public/chat.js:404-412 | for every value whose only `:`s follow the cursor, with no emoji beside the cursor, the handler searches for the whole text before the cursor unless it ends in a space, while there is no trigger |
| `EmojiTrigger.LastColonQueryExample` | public/chat.js:404-412 | in `a:b:c` with the cursor at the end the query is `c`, the text after the last `:` |
| `EmojiTrigger.CursorNextToEmoji` | public/chat.js:336-349 | true exactly when a character at the cursor or just before it exists and passes the emoji test |
| `EmojiInsert.TokenStart` | public/chat.js:394 | the first `:` of the value's longest whitespace-free suffix is the leftmost place the pattern matches; none means it matches nowhere |
| `EmojiInsert.InsertEmoji` | public/chat.js:391-395 | everything before the match's `:` is kept verbatim and the match becomes glyph + space; an unmatched value is unchanged |
| `EmojiInsert.InsertReplacesTokenAfterSpace` | public/chat.js:394 | a whitespace-free `:` token typed after whitespace, or at the start, is replaced whole and the text before it kept |
| `EmojiInsert.InsertAfterSpaceExample` | public/chat.js:394 | `hello :sm` becomes `hello ` + glyph + space |
| `EmojiInsert.InsertFromFirstColonExample` | public/chat.js:394 | `a:b:c` becomes `a` + glyph + space: the match starts at the first ':' of the trailing run |
| `EmojiInsert.NoTokenExample` | public/chat.js:394 | `a: b` has no trailing token and is unchanged |
| `Navigator.OtherKeyIsUnnamed` | public/chat.js:430-441 | a key outside the ones the handler names has none of their `key` values, so it never takes the Enter, Tab or arrow branches |
| `Navigator.IsSelectionKey` | public/chat.js:430 | ArrowLeft, ArrowRight and every other key are not among the selection keys |
| `Navigator.Forward` | public/chat.js:433-434 | Down keeps the index in range and moves to the next result, wrapping from the last to the first |
| `Navigator.Backward` | public/chat.js:435-437 | Up keeps the index in range and moves to the previous result, wrapping from the first to the last |
| `Navigator.BackwardUndoesForward` | public/chat.js:433-437 | a step down followed by a step up, or up then down, returns to the same index |
| `Navigator.ForwardSteps` | public/chat.js:434 | any number of steps down from the first result stays in range |
| `Navigator.ForwardStepsIsModulo` | public/chat.js:434 | after N steps down from the first of K results the index is N mod K |
| `Navigator.Initial` | public/chat.js:333-334 | on load the index is -1 and there are no results (lines 333-334), selection is off (line 27) and the box hidden; the invariant holds |
| `Navigator.ResultsArrived` | public/chat.js:358-387 | arriving results replace the old ones; a non-empty list shows with index 0 and selection on; an empty one hides the box and turns selection off; the invariant holds |
| `Navigator.Input` | public/chat.js:401-418 | a non-empty trigger query is searched and nothing else changes; no trigger or an empty query hides the box and turns selection off without searching; the invariant is kept |
| `Navigator.EmojiSearch` | public/chat.js:351-358 | an empty query hides the box, turns selection off and searches nothing; any other query is searched with the state unchanged; the picker's invariant is kept |
| `Navigator.Click` | public/chat.js:370-373 | clicking a result inserts its glyph, hides the box and turns selection off; the results and index stay; the invariant is kept |
| `Navigator.KeyDown` | public/chat.js:421-442 | while the box is shown, Down and Up step the index with wrap-around and Enter or Tab commit the highlighted glyph; every other key, and every key while hidden, changes nothing; the invariant is kept |
| `Navigator.DownThenUpRestores` | public/chat.js:433-437 | Down then Up, or Up then Down, over shown results gives back the state before |
| `Navigator.Presses` | public/chat.js:421-442 | repeated keydowns keep the invariant |
| `Navigator.DownPressesAfterArrival` | public/chat.js:364-383 | after results arrive, N presses of Down highlight the result at N mod K and change nothing else |
| `Navigator.DownPressesFromFirst` | public/chat.js:433-434 | from index 0, N presses of Down reach the same index as N wrap-around steps |
| `Navigator.CommitWithoutResultsIsNoOp` | public/chat.js:426-441 | Enter or Tab with no results, or with the box hidden, changes nothing |
| `Navigator.EnterAfterArrivalInsertsFirst` | public/chat.js:374-377 | Enter right after results arrive inserts the first result and turns selection off |
| `Navigator.CommitInsertsAtEndNotAtCursor` | public/chat.js:391-395 | `:sm hello` with the cursor at 3 searches for `sm`, yet committing leaves the value unchanged |
| `Navigator.QueryBeforeCursorExample` | public/chat.js:404-412 | with the cursor after `:sm` in `:sm hello` the trigger query is `sm` |
| `Navigator.NoTrailingTokenExample` | public/chat.js:394 | `:sm hello` ends in no ':'-token, so inserting any glyph leaves it unchanged |
| `Autocomplete.RenderResults` | public/chat.js:364-380 | the loop draws exactly one span per result, in order; the first is highlighted, or none when empty |
| `Autocomplete.EmojiAutocomplete.constructor` | public/chat.js:333-334 | the fields start in `Navigator.Initial`: index -1 and no results (lines 333-334), selection off (line 27) |
| `Autocomplete.EmojiAutocomplete.OnInput` | public/chat.js:401-418 | the fields and the returned query are those of `Navigator.Input`; the invariant is kept |
| `Autocomplete.EmojiAutocomplete.Search` | public/chat.js:351-358 | the fields and the returned query are those of `Navigator.EmojiSearch`, and the invariant is kept |
| `Autocomplete.EmojiAutocomplete.OnResults` | public/chat.js:358-387 | the fields become `Navigator.ResultsArrived` of the old ones |
| `Autocomplete.EmojiAutocomplete.OnClick` | public/chat.js:370-373 | the fields become `Navigator.Click` of the old ones |
| `Autocomplete.EmojiAutocomplete.OnKeyDown` | public/chat.js:421-442 | the fields become `Navigator.KeyDown` of the old ones; the invariant is kept |
| `MessageFormat.BeforeQuery` | public/chat.js:244 | the result is the longest prefix with no `?`, and a `?` follows it unless it is the whole URL |
| `MessageFormat.IsImageUrl` | public/chat.js:242-246 | true exactly when the part before the first `?` ends in a dot and gif, jpg, jpeg, tif, tiff, png, webp or bmp, in any case |
| `MessageFormat.ExtensionAlternatives` | public/chat.js:245 | the pattern's alternatives (gif, jpe?g, tiff?, png, webp, bmp) are exactly those eight extensions |
| `MessageFormat.QueryStringIgnored` | public/chat.js:244 | appending a query string to a path never changes whether it is an image |
| `MessageFormat.ImageUrlExample` | public/chat.js:242-246 | `a.JPG?w=2` is an image URL |
| `MessageFormat.QueryOnlyImageExample` | public/chat.js:244 | `p?a.png` is not an image URL: the extension is in the query |
| `MessageFormat.FormatTimestamp` | public/chat.js:195-204 | the length is that of its parts plus the four separators |
| `MessageFormat.Pad2` | public/chat.js:197-201 | a padded field has at least two characters, all digits; a field of ten or more is its plain decimal form |
| `MessageFormat.Pad2RoundTrip` | public/chat.js:197-201 | a field below 100 becomes two digits that read back as it |
| `MessageFormat.FormatTimestampLayout` | public/chat.js:195-204 | the layout is DD/MM/YYYY HH:mm with the year unpadded; each two-digit group reads back as its field, the month counted from one |
| `MessageFormat.Pad2OneDigit` | public/chat.js:197-201 | a one-digit field gets exactly one leading zero |
| `MessageFormat.YearExample` | public/chat.js:199 | the year 2024 renders as `2024`, unpadded |
| `MessageFormat.TimestampExample` | public/chat.js:195-204 | 5 January 2024, 09:07 gives `05/01/2024 09:07` |
| `Decimal.NatToString` | public/chat.js:197-201 | the result is a non-empty digit string with no leading zero |
| `Decimal.ValueOfNatToString` | public/chat.js:197-201 | the digits read back as the number |
| `Decimal.IntToString` | public/chat.js:199 | a negative year gets a minus sign before its digits |
| `Decimal.PadStart2` | public/chat.js:197 | a string shorter than two is zero-filled on the left to length two; a longer one is unchanged |
| `Decimal.ValueIgnoresLeadingZero` | public/chat.js:197 | a leading zero does not change the value read back |
| `Linkify.SchemeLength` | public/chat.js:262 | the result is 0 exactly when none of `https://`, `http://`, `ftp://`, `file://` is at the position, in any case; 8 means `https://`, 6 `ftp://`, 7 `http://` or `file://`, and the scheme fits in the text |
| `Linkify.BodyRunEnd` | public/chat.js:262 | the result is the end of the longest run of URL characters |
| `Linkify.LastEndBelow` | public/chat.js:262 | the result is the last position in the run after which a URL may end, or none |
| `Linkify.MatchUrlAt` | public/chat.js:261-262 | the match found at a position is a match of the pattern; that it is the longest one is proved in `MatchUrlAtIsLongest` |
| `Linkify.MatchUrlAtIsLongest` | public/chat.js:261-262 | no match at the position is longer than the one found, and none is found only when the pattern does not match there at all |
| `Linkify.Scan` | public/chat.js:265 | the global scan of `replace` with the `g` flag: at each offset the longest match there, else one character, then on from where it stops; it takes at most one piece per character, and its properties are proved in `ScanSpellsText`, `ScanPieceOffset`, `ScanLinkIsMatch`, `ScanPlainHasNoMatch` and `ScanPlainRun` |
| `Linkify.ScanSpellsText` | public/chat.js:265 | the scanned pieces put back together are exactly the text from where the scan began |
| `Linkify.ScanPieceOffset` | public/chat.js:265 | piece `k` of the scan sits at its own offset `s`: the pieces before it spell exactly the text up to `s`, and it is the first piece of the scan from `s`, where `replace` resumes |
| `Linkify.ScanLinksAreMatches` | public/chat.js:265 | every link the scan takes is a match of the pattern in the text |
| `Linkify.ScanLinkIsMatch` | public/chat.js:265 | the link at piece `k` is the longest match at its own offset `s`, and the pieces before it spell exactly the text from where the scan began up to `s` |
| `Linkify.ScanPlainHasNoMatch` | public/chat.js:265 | the plain piece `k` is the character at its own offset `s`, where no match starts, and the pieces before it spell exactly the text up to `s`: the scan skips no URL |
| `Linkify.ScanPlainRun` | public/chat.js:265 | where no match starts in a stretch of text, the scan keeps that stretch one character at a time and goes on after it |
| `Linkify.Plains` | public/chat.js:265 | one plain piece per character of the text, in order |
| `Linkify.ScanWithoutMatches` | public/chat.js:265 | text with no match scans to plain characters only |
| `Linkify.IsImageLink` | public/chat.js:263 | true exactly when the URL ends in a dot and jpeg, jpg, gif, png or svg, in any case |
| `Linkify.LinkExtensionAlternatives` | public/chat.js:263 | the pattern's five alternatives are exactly the extensions of the set, each after a dot |
| `Linkify.RenderPiece` | public/chat.js:266-279 | the callback keeps a piece's own text exactly when it is a plain character or an image link; any other link becomes its anchor, which is longer than the URL |
| `Linkify.Render` | public/chat.js:265-280 | a plain character stays; a link stays when it is an image link and otherwise becomes its anchor; the properties are proved in `RenderWithoutAnchors`, `RenderOneLink`, `RenderAppend`, `RenderPlains` and `RenderPlainsThenLink` |
| `Linkify.RenderAppend` | public/chat.js:265-280 | the replacement works piece by piece: rendering two lists of pieces one after the other is rendering each |
| `Linkify.RenderPlains` | public/chat.js:265 | text outside any URL renders as itself |
| `Linkify.RenderPlainsThenLink` | public/chat.js:265-280 | plain text, then a non-image link, then more pieces render as that text, the link's anchor and the rest |
| `Linkify.Linkify` | public/chat.js:260-281 | the scan from the start with each piece rendered; its properties are proved in `LinkifyWithoutUrls`, `LinkifyImagesOnly`, `LinkifyWholeUrl`, `LinkifyWrapsUrl`, `LinkifyUrlAtEnd` and `LinkifyAfterWordExample` |
| `Linkify.LinkifyWrapsUrl` | public/chat.js:260-281 | when no match starts before offset `a` and the longest match at `a` is no image link, the text before `a` is kept, the URL is wrapped in its anchor, and the rest is linkified after the URL |
| `Linkify.LinkifyUrlAtEnd` | public/chat.js:260-281 | a non-image URL that ends the text, with no match before it, is wrapped and the text before it is kept |
| `Linkify.LinkifyAfterWordExample` | public/chat.js:260-281 | `see http://x` becomes `see ` and the anchor around `http://x` |
| `Linkify.NoSchemeAt` | public/chat.js:262 | no match starts at a character other than `h` or `f`, in either case |
| `Linkify.NotImageAfterX` | public/chat.js:263 | a URL ending in `x` is no image link |
| `Linkify.RenderWithoutAnchors` | public/chat.js:267-269 | pieces whose links are all image links render as the text they spell |
| `Linkify.LinkifyWithoutUrls` | public/chat.js:260-281 | text in which the pattern matches nowhere is returned unchanged |
| `Linkify.LinkifyImagesOnly` | public/chat.js:263-269 | text whose every match ends in jpeg, jpg, gif, png or svg is returned unchanged |
| `Linkify.ScanWholeUrl` | public/chat.js:265 | a text that is one match scans to one link |
| `Linkify.RenderOneLink` | public/chat.js:270-278 | a non-image link renders as the anchor with target `_blank` and class `linkified` |
| `Linkify.LinkifyWholeUrl` | public/chat.js:260-281 | a message that is one non-image URL becomes one anchor around it |
| `Typing.Add` | public/chat.js:175-176 | the members are the old ones plus the name; the old order is a prefix; no duplicates |
| `Typing.Delete` | public/chat.js:177-178 | the members are the old ones minus the name, and the size drops by one when it was there; the name is taken out at its first (only) position and the others keep their order; an absent name changes nothing |
| `Typing.DeleteUndoesAdd` | public/chat.js:175-178 | adding an absent name and deleting it gives back the same set in the same order |
| `Typing.Join` | public/chat.js:183 | the names in order with `, ` between them; proved about in `JoinAppend` and `IndicatorText` |
| `Typing.JoinAppend` | public/chat.js:183 | a name added to a non-empty set appears after `, ` at the end of the joined names |
| `Typing.IndicatorText` | public/chat.js:181-191 | the indicator is hidden exactly when nobody types; one user gives `<name> is typing...`, several give the joined names and `are typing...` |
| `Typing.SecondTypist` | public/chat.js:175-185 | a second user turns `x is typing...` into `x, y are typing...` |
| `Typing.TypingIndicator.constructor` | public/chat.js:169 | the set starts empty |
| `Typing.TypingIndicator.OnTyping` | public/chat.js:171-192 | a typing event adds the name, a stop event deletes it; the text is `IndicatorText` of the new set; no duplicates arise |

## Findings

| source | as written | input that shows it | evidently intended | confidence | as-written member | corrected member |
|---|---|---|---|---|---|---|
| public/chat.js:404-412 | with no `:` before the cursor, `lastIndexOf` gives -1; `slice(-1)` then tests only the last character before the cursor for a space, and `slice(0)` makes the whole text before the cursor the query | value `a b:` with the cursor at 3 starts a search for `a b`, a query with a space in it | search only for the text after a `:` that precedes the cursor, and dismiss otherwise | not executed; high | `EmojiTrigger.InputOutcome`, `EmojiTrigger.ColonAfterCursorSearchesAllText`, `EmojiTrigger.ColonOnlyAfterCursorSearchesBefore` | `EmojiTrigger.TriggerQuery` |

The rest of the model (`Navigator.Input` and `Autocomplete.EmojiAutocomplete.OnInput`)
uses the corrected trigger. `EmojiTrigger.InputOutcomeAgreesWithTrigger` proves that the
two agree whenever a `:` precedes the cursor.

## Left out

- Navigator.Input: uses the corrected trigger. When the value's only `:` comes after the cursor, the model dismisses where the handler as written searches (see Findings).
- Autocomplete.EmojiAutocomplete.OnInput: the same deviation as `Navigator.Input`, which it follows.
- Socket.io transport: connecting, the `joinRoom`, `sendMessage`, `typing` and `sendImage` emits, and the `chatMessage`, `sendImage` and `typing` listeners. These are network I/O. The load-time join and history fetch appear only as `RoomRoute.Action` values, and a typing event only as the arguments of `OnTyping`.
- HTTP: the history fetch, image upload, user details and the emoji data download with the picker library's set-up. These are asynchronous I/O and a foreign library.
- The emoji search index: it is external. Its answer enters only as the glyph list given to `OnResults`. A result's `skins[0].native` is taken to be the glyph.
- Rendering: building the DOM, CSS classes and display styles, the highlight toggle loop, scrolling, the image overlay and focus. The box's display state appears only as the boolean `shown`.
- Timers: the two-second typing debounce on input and the delayed scroll.
- The message-send keydown handler and form submit (`sendMessage` after a `trim`), and paste-to-upload. They are I/O around the socket and are not part of this model.
- Date parsing, time zones and the `isNaN` check before `formatTimestamp`: the date's fields are integer inputs.
- The Unicode Emoji property: it is the parameter `isEmoji`. The client applies it to a single UTF-16 code unit, so for an emoji outside the Basic Multilingual Plane it sees a lone surrogate. A model character is a Unicode code point, never half of a surrogate pair. So the model does not capture the client's UTF-16 indices, nor its emoji test on half of a pair.
- EmojiInsert.InsertEmoji: inserts the glyph literally. A string replacement given to `replace` expands `$&`, `` $` ``, `$'` and `$$`, so glyphs are assumed to contain no `$`.
- A missing neighbour of the cursor: the client tests the string "undefined". The model treats it as "no emoji" because that string holds no emoji character.
- The unused `split(":").pop()` query on line 406: it has no effect.
- Usernames are strings. JavaScript `Set` identity for other values is not modelled.
