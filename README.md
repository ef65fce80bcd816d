# Meme bot polling core

A Dafny model of the core of `telegrambot.py`. This is a Telegram bot that polls the chat
platform for new messages. It answers `memelist` with the list of imgflip meme templates. It
answers `makememe <template id> “caption” “caption” …` by captioning the template on imgflip and
posting the picture back to the group.

The model covers:

- `text.dfy` (`Text`): Python's `str()` of integers, ASCII `lower()` and the substring test `in`.
  Each comes with the facts the rest of the model needs: a parse-back round trip for `str()`, and
  `in` characterised as "occurs at some position".
- `updates.dfy` (`Updates`): `get_latest_update_id` and `extract_update_text`. Both are loops
  over the batch of updates, modelled as methods proved against the specification functions
  `LatestId` and `TextOf`.
- `parser.dfy` (`Parser`): `parse_message`. The `re.search(r'\d+')` part is the leftmost maximal
  digit run. The `re.findall('“(.*?)”')` part has the scanner `Captions`. It is proved equal to
  the unique decomposition of the message into gaps and captions that the regular expression's
  leftmost, lazy, newline-excluding match produces.
- `catalog.dfy` (`Catalog`): `get_meme_list` as a loop proved against the fold `Render`, with
  its line structure.
- `payload.dfy` (`Payload`): the form that `create_meme` posts. The three fixed fields are
  followed by `boxes[i][text]` for each caption. The loop is proved to produce exactly those
  keys and values.
- `bot.dfy` (`Bot`): the offset decision of `get_updates` and one iteration of the `while True`
  loop of `main`. The pure function `Cycle` describes the iteration. The class `Poller` holds the
  cursor `latest_update_id`, and its method `Step` updates the cursor in place; it is proved to
  agree with `Cycle`. Every call to the chat platform, imgflip or the file system is an input
  instead: the record `Env` says whether each call raised and what it returned. The iteration
  reports the requests it made, in order.

Three details of the code that the model keeps:

- `get_updates` adds the offset under `if offset:` (telegrambot.py:111). A cursor of `0` therefore
  sends no offset, just like an absent one (`Bot.OffsetRoundTrip`). Its docstring
  (telegrambot.py:107-109) speaks only of "no offset provided".
- After a handled batch, the cursor becomes the batch's largest id plus one
  (telegrambot.py:39, 61), whatever the cursor was before.
- `extract_update_text` reassigns the text for every update carrying the id
  (telegrambot.py:132-134), so the last such update in the batch wins.

## Model

The specification functions `Updates.LatestId`, `Updates.TextOf`, `Parser.SearchDigits`,
`Parser.Captions`, `Parser.ParseMessage`, `Catalog.Render`, `Payload.Form`, `Bot.ListCommand`,
`Bot.MemeCommand`, `Bot.Dispatch` and `Bot.Cycle` carry no contract of their own. What they
promise is stated by the lemmas about them in the rows below:
- `LatestId` by `MaxOfIsGreatest` and `MaxOfUnique`;
- `TextOf` by `TextOfLastMatch` and `TextOfNoMatch`;
- `SearchDigits` by `SearchDigitsFindsLeftmostRun` and `LeftmostDigitRunIsFound`;
- `Captions` by `CaptionsSplit`, `SplitDeterminesCaptions`, `CaptionsCharacterised` and
  `NoCaptionsIffPairFree`;
- `ParseMessage` by `ParseMessageSpec` and `ParseCommand`;
- `Render` by `RenderAppend`, `RenderEnds` and `RenderLineCount`;
- `Form` by `FormContents` and `BoxKeyInjective`;
- `ListCommand` by `ListStopsAtFirstRaise`;
- `MemeCommand` by `MemeStopsAtFirstRaise`;
- `Dispatch` by `DispatchSucceedsUnlessRaised`;
- `Cycle` by the `Bot` lemmas from `EmptyBatchHoldsCursor` to `BothCommandsRun`.

| member | source | states |
|---|---|---|
| Text.ParseNatToString | telegrambot.py:184 | the decimal numeral `str(i)` of a box index reads back as the same number, so distinct indices give distinct numerals |
| Text.IntToStringRoundTrip | telegrambot.py:112 | `str()` of any integer, negative included, parses back to that integer |
| Text.ContainsIsOccurrence | telegrambot.py:44 | the substring test `in` holds exactly when the pattern occurs at some position of the text |
| Text.ContainsLower | telegrambot.py:49 | lower-casing the text keeps every occurrence of a pattern as an occurrence of the lower-cased pattern |
| Updates.MaxOfIsGreatest | telegrambot.py:125 | `max` of a non-empty list is one of its elements and no element exceeds it |
| Updates.MaxOfUnique | telegrambot.py:125 | any element that bounds all the others is the `max` |
| Updates.LatestUpdateId | telegrambot.py:117-125 | the loop collects the ids and returns the largest, which some update in the batch carries and no update exceeds |
| Updates.TextOfLastMatch | telegrambot.py:128-136 | when an update carries the id, the result is the text of the last such update in the batch |
| Updates.TextOfNoMatch | telegrambot.py:128-136 | when no update carries the id, the result is the empty string |
| Updates.ExtractUpdateText | telegrambot.py:128-136 | the loop's result is the text of the last update with the id, or `''` |
| Parser.DigitRun | telegrambot.py:143 | the result is the longest all-digit prefix: it is followed by a non-digit or the end |
| Parser.SearchDigitsFindsLeftmostRun | telegrambot.py:143 | the search fails exactly when the message has no digit; otherwise it yields a maximal digit run starting at the first digit |
| Parser.LeftmostDigitRunIsFound | telegrambot.py:143 | conversely, a maximal digit run starting at the first digit is what the search returns |
| Parser.CloseAt | telegrambot.py:145 | the lazy `(.*?)” ` finds the first closing quote when no newline comes before it, and fails exactly when every closing quote has a newline before it |
| Parser.CaptionsSplit | telegrambot.py:145 | the message is the captions interleaved with quoted gaps: captions hold no closing quote or newline, no gap holds a match, and each skipped opening quote has no reachable closing quote |
| Parser.SplitDeterminesCaptions | telegrambot.py:145 | that decomposition is unique: any split with those properties has exactly the scanner's captions |
| Parser.CaptionsCharacterised | telegrambot.py:145 | a list is the `findall` result if and only if some decomposition of the message has it as its captions |
| Parser.NoCaptionsIffPairFree | telegrambot.py:145 | `findall` returns no caption exactly when no opening quote is followed by a closing quote on the same line |
| Parser.ParseMessageSpec | telegrambot.py:139-147 | `parse_message` raises exactly when the message has no digit; otherwise it returns the leftmost maximal digit run and the `findall` captions |
| Parser.ParseCommand | telegrambot.py:139-147 | a command made of a head without digits or opening quotes, the template id, then each caption in quotes after a separator that starts with a non-digit and holds no opening quote, parses back to that id and those captions |
| Catalog.RenderAppend | telegrambot.py:164-167 | rendering two catalogues one after the other is the concatenation of their renderings |
| Catalog.RenderEnds | telegrambot.py:164-168 | the listing is empty exactly for an empty catalogue, and otherwise ends in a newline |
| Catalog.RenderLineCount | telegrambot.py:164-168 | when names and ids hold no newline, the listing has exactly one line per template |
| Catalog.GetMemeList | telegrambot.py:160-168 | the loop produces `name: id, box_count` lines for the templates, in catalogue order |
| Payload.BoxKeyInjective | telegrambot.py:184 | distinct caption indices give distinct form keys |
| Payload.FormContents | telegrambot.py:175-184 | the form holds the username, password and template id under their keys, caption `i` under `boxes[i][text]`, and no other key |
| Payload.BuildForm | telegrambot.py:175-184 | the loop over `enumerate(args)` builds exactly that form |
| Bot.OffsetRoundTrip | telegrambot.py:110-112 | the request carries the cursor as offset exactly when the cursor is truthy; `None` and `0` send no offset |
| Bot.EmptyBatchHoldsCursor | telegrambot.py:35-37 | an empty batch keeps the cursor and makes no request beyond the fetch |
| Bot.CycleAdvancesOrResets | telegrambot.py:33-79 | an iteration always fetches first, then either moves the cursor one past the batch's largest id without apologising, or clears the cursor and sends the apology once, as its last request |
| Bot.CursorMovesForward | telegrambot.py:37-39 | for a cursor that is sent as the offset (non-zero), when the platform returns only updates at or above it, the cursor never moves backwards; on a non-empty batch it moves strictly forward unless reset |
| Bot.FirstRaise | telegrambot.py:33-63 | the number of calls that returned before the first one that raised: all the earlier outcomes are success and the one at that index is a failure |
| Bot.ListStopsAtFirstRaise | telegrambot.py:44-47 | without the trigger no request is made; with it, the catalogue request and the sending of the listing are made up to and including the first that raises, and the branch succeeds exactly when neither raises |
| Bot.MemeStopsAtFirstRaise | telegrambot.py:49-59 | without the trigger no request is made; a message without a digit raises before any request; otherwise the caption post, the download and the photo are made up to and including the first that raises, and the branch succeeds exactly when none raises |
| Bot.DispatchSucceedsUnlessRaised | telegrambot.py:44-59 | the two commands run to the end exactly when no call the message triggers raises |
| Bot.CycleOutcomeDecided | telegrambot.py:33-79 | a failed fetch resets the cursor; on a non-empty batch the cursor moves one past the largest id exactly when no triggered call raises, and is reset with one apology exactly when one does |
| Bot.ParseFailureResets | telegrambot.py:49-50 | a `makememe` message without a digit clears the cursor and posts no caption request |
| Bot.BothCommandsRun | telegrambot.py:44-61 | a message with both triggers gets the listing, then the caption, download and photo, and the cursor advances |
| Bot.TriggersIgnoreCase | telegrambot.py:44 | every spelling of the trigger word, in any letter case, fires the trigger |
| Bot.Poller.constructor | telegrambot.py:29 | the loop starts without a cursor |
| Bot.Poller.RunList | telegrambot.py:44-47 | the `memelist` branch, built on `GetMemeList`, makes exactly the requests and reaches exactly the success of `ListCommand`, whose stop-at-first-raise behaviour `Bot.ListStopsAtFirstRaise` states |
| Bot.Poller.RunMeme | telegrambot.py:49-59 | the `makememe` branch, built on `BuildForm`, makes exactly the requests and reaches exactly the success of `MemeCommand`, whose stop-at-first-raise behaviour `Bot.MemeStopsAtFirstRaise` states |
| Bot.Poller.Step | telegrambot.py:33-79 | one iteration in place: the new cursor and the requests made are those of `Cycle` from the old cursor |

## Left out

- HTTP requests, JSON decoding, files, logging, `print` and the clock are not modelled. Each
  call's outcome is a field of `Env`, and the model records which requests the iteration made.
- `while True`: the model covers one iteration, and `Poller.Step` is called once per iteration.
- Bot token, chat id, base URLs: requests are named by kind. The `getUpdates` URL is relative to
  the bot's base URL.
- Updates without `message.text`: the model's `Update` always has a text. Only the update with the
  largest id has its text read (telegrambot.py:133-134; `get_latest_update_id` reads only
  `update_id`), so only a text-less latest update raises. The model covers that as a failed fetch
  (`Env.updates == None`); the text of any other update is never read.
- Non-200 status codes: a non-200 reply is not logged and raises nothing by itself
  (telegrambot.py:89-91, 101-103, 154-156, 190-195). For `send_text` and `send_photo` it has no
  effect. For the catalogue and caption requests it matters only when the reply lacks
  `data.memes` or `data.url` (telegrambot.py:165, 197), which the model treats as a failed call.
  `save_edited_meme` still writes the reply's body to the file and returns on a non-200
  (telegrambot.py:201-211), so in the model it fails only where it raises.
- The outcome of sending the apology: the source swallows any failure there, so the model
  records the request only.
- `create_meme` returns the URL from imgflip's reply; the model takes that URL from `Env`.
- The imgflip credentials are constants of the `Poller`, not configuration read at start-up.
- `\d` and `lower()` are ASCII-only here: Python's Unicode digits and case mappings outside ASCII
  are not modelled.
- `str(meme['box_count'])` is modelled for integer box counts only.
