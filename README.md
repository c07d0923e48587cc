# Incremental course dispatcher of udemy-coupons, modelled in Dafny

The bot in `scraper/telegram_bot.py` posts the courses of a catalog file to a
Telegram channel, one course per run. A scheduler starts it again and again.
Between runs the only state is a cursor file. The cursor is "how many
courses have been posted". Each run does these steps:

1. It reads the channel file, strips it, and stops if the result is absent or empty.
2. It reads the cursor (0 when there is no file) and the catalog (empty when there is no file).
3. It stops with "No new courses." when the cursor is at or past the end of the catalog.
4. It builds one Markdown announcement for `courses[last]`.
5. It sends the announcement as a photo caption when the course has an image, and as a text message otherwise.
6. Only after the send returns, it writes `last + 1` back.

The project has four files:

- `wrappers.dfy`: the `Option` type.
- `py_strings.dfy`: Python's `str.strip()`, with Python's whitespace set written out.
- `telegram_bot.dfy`: the data model, the three loaders, selection with Python's indexing, the announcement and a parser that reads it back, and the request that is sent. It also holds `Cycle`, one run as a pure function, and `CursorStore`, a class whose `file` field is the cursor file. `CursorStore.Dispatch` runs one cycle against that field, step by step as in `main`.
- `dispatch_runs.dfy`: what consecutive runs do. A failed send is retried. A successful send moves to the next course. The cursor never goes down. The lemmas about `Run` show that, with a channel set and from a missing or non-negative cursor, any series of runs over an unchanged catalog file posts the courses in catalog order, each at most once.

A few things are inputs to the model. The channel file is an `Option<string>` holding its text; `LoadChannel` strips it, and `Cycle` and `Dispatch` take the channel `load_channel()` returned (line 34), also an `Option<string>`, and apply the `if not channel` test to it. The catalog file is an `Option<seq<Course>>`, already parsed. The chat service's answer is a `Delivery`: it either returns or raises. A run reports an `Outcome`: `NoChannel`, `CursorUnreadable`, `NothingNew`, `IndexError`, `Sent(index, request)` or `SendFailed(index, request)`. `Sent` and `SendFailed` each carry the one request the run built, so a run can never make two sends.

Some behaviours of the code worth spelling out:

- A cursor file that `int(...)` cannot parse makes the script raise at line 20. The model gives `CursorUnreadable` and no send, not 0, and the file stays as it was.
- The caption is the single f-string of line 49: no price lines, no markup stripping, no truncation. `Caption` and `Announcement` model it.
- An exception from the send ends the process before line 59. The model reports `SendFailed`, with the cursor unchanged.
- A negative cursor (only possible if someone edits the file by hand) indexes from the end, as Python does. The run then writes `last + 1`, so the cursor climbs back through 0 and courses from the end of the catalog are posted again; `NegativeCursorWraps` shows the effect. The catalog-order and at-most-once lemmas therefore assume a missing or non-negative cursor.

## Model

| member | source | states |
|---|---|---|
| PyStrings.LStrip | scraper/telegram_bot.py:14 | the result is a suffix of the input, everything dropped is whitespace, and it does not start with whitespace |
| PyStrings.RStrip | scraper/telegram_bot.py:14 | the result is a prefix of the input, everything dropped is whitespace, and it does not end with whitespace |
| PyStrings.Strip | scraper/telegram_bot.py:14 | the stripped text is no longer than the input and neither starts nor ends with whitespace |
| PyStrings.StripEmptyIffBlank | scraper/telegram_bot.py:14 | the stripped text is empty exactly when every character of the input is whitespace |
| PyStrings.StripIsSlice | scraper/telegram_bot.py:14 | the stripped text is the contiguous slice of the input that starts right after its leading whitespace |
| PyStrings.StripDropsOnlySpace | scraper/telegram_bot.py:14 | every character before and after that slice is whitespace |
| PyStrings.StripIdempotent | scraper/telegram_bot.py:14 | stripping twice gives the same as stripping once |
| TelegramBot.LoadChannelSet | scraper/telegram_bot.py:11-14 | about `LoadChannel` (which models `load_channel`) and `HasChannel`, the `if not channel` test; with the `if not channel` test of line 35: a channel is set exactly when the file exists and is not all whitespace, and it then has no whitespace at either end and is the file's text after its leading whitespace, cut short |
| TelegramBot.LoadLastSent | scraper/telegram_bot.py:17-20 | a missing file gives 0, a number file gives its number, and an unparsable file raises (None) rather than giving 0 |
| TelegramBot.LoadCourses | scraper/telegram_bot.py:28-31 | a missing catalog file gives the empty catalog, otherwise its contents |
| TelegramBot.Select | scraper/telegram_bot.py:42-46 | nothing new exactly when last >= len; IndexError exactly when last < -len; otherwise an in-range index congruent to last modulo len, equal to last when last >= 0 |
| TelegramBot.AnnouncementLayout | scraper/telegram_bot.py:49 | about `Announcement`, and `Caption` for a course, which model the f-string: the text is the header, the name, `*` and two newlines, the description, the Enroll Here opener, the url and `)`, each at fixed offsets and in that order |
| TelegramBot.ParseAnnouncementRoundTrip | scraper/telegram_bot.py:49 | the name, the description and the url can be recovered from the text when the name has no `*` and the url has no `(` |
| TelegramBot.ParseAnnouncementSound | scraper/telegram_bot.py:49 | any text the parser accepts is exactly the announcement of the fields it returns, so the announcement is one-to-one on such fields |
| TelegramBot.RequestFor | scraper/telegram_bot.py:50-55 | exactly one send to the channel: a photo with the announcement as caption iff the image is present and non-empty, otherwise a text message with the announcement |
| TelegramBot.AttemptSpec | scraper/telegram_bot.py:42-59 | about `Attempt`, which models lines 42-59; once channel and cursor are known: nothing new iff last >= len, IndexError iff last < -len; a send concerns an in-range course, courses[last] for last >= 0, with the request built from it; it is Sent iff the send returned, and only then is the file rewritten, to last + 1 |
| TelegramBot.CycleSpec | scraper/telegram_bot.py:33-59 | about `Cycle`, which models `main`; a whole run: no channel iff the loaded channel is absent or empty; unreadable cursor iff a channel is set and the file is unparsable; the Attempt facts otherwise; the cursor file changes only on a send that returned, and a raised send leaves it unchanged |
| TelegramBot.CursorStore.constructor | scraper/telegram_bot.py:17-19 | the store starts with the given cursor file, nothing posted, and the loaded cursor as its base |
| TelegramBot.CursorStore.SaveLastSent | scraper/telegram_bot.py:23-25 | writes `i`, and reading the file back gives `i` |
| TelegramBot.CursorStore.Dispatch | scraper/telegram_bot.py:33-59 | performs one run in place, with the outcome and new file Cycle gives; keeps the store's invariant that the cursor is its base plus the number posted; the file and the posted log change only on a returned send, which rewrites the file to the old cursor + 1 and logs the position sent |
| TelegramBot.CursorStore.PostedIncreasing | scraper/telegram_bot.py:39-59 | the positions posted through a store that started from a non-negative cursor are strictly increasing, so none is posted twice |
| DispatchRuns.NoChannelNoWrite | scraper/telegram_bot.py:34-37 | an absent or blank channel file gives NoChannel and leaves the cursor file unchanged |
| DispatchRuns.NothingNewNoWrite | scraper/telegram_bot.py:42-44 | a cursor at or past the end of the catalog (the empty catalog included) gives NothingNew and leaves the cursor unchanged |
| DispatchRuns.CorruptCursorStops | scraper/telegram_bot.py:20 | an unparsable cursor file stops the run before any send and is not taken as 0 |
| DispatchRuns.RetryAfterFailure | scraper/telegram_bot.py:52-59 | after a raised send the cursor is unchanged, and the next run whose send returns posts the same course with the same request |
| DispatchRuns.ProgressAfterSuccess | scraper/telegram_bot.py:46-59 | from a missing or non-negative cursor, after a returned send of course i the next run attempts course i + 1, or finds nothing new when i was the last |
| DispatchRuns.CursorMonotone | scraper/telegram_bot.py:39-59 | a run leaves the cursor as it was, or one higher exactly when the send returned |
| DispatchRuns.ReachablePreserved | scraper/telegram_bot.py:59 | a run never turns a missing or non-negative cursor into a negative one |
| DispatchRuns.StepFromReachable | scraper/telegram_bot.py:42-59 | from a missing or non-negative cursor k (missing reads as 0), a run finds nothing new when k >= len, fails keeping the file when the send raises, and otherwise sends course k and writes k + 1; the new file is again missing or non-negative |
| DispatchRuns.CycleFollowsCursor | scraper/telegram_bot.py:39-59 | with a channel set, every run from a missing or non-negative cursor behaves as StepFromReachable says |
| DispatchRuns.StepsPostInOrder | scraper/telegram_bot.py:39-59 | for any run that behaves so, a series of runs from cursor k posts exactly k, k+1, … : one course per returned send until the courses run out |
| DispatchRuns.RunPostsInCatalogOrder | scraper/telegram_bot.py:39-59 | with a channel set, any series of runs from a missing or non-negative cursor k posts courses k, k+1, … in order; their number is the lesser of the courses remaining and the sends that returned |
| DispatchRuns.CursorCountsPosts | scraper/telegram_bot.py:39-59 | over any series of runs from a readable cursor, the final cursor is the first plus the number of courses posted |
| DispatchRuns.RunFinalCursor | scraper/telegram_bot.py:39-59 | with a channel set and from a missing or non-negative cursor, the cursor a series of runs leaves is the first cursor plus the lesser of the courses remaining and the sends that returned, just past the last course posted |
| DispatchRuns.PostedAtMostOnce | scraper/telegram_bot.py:39-59 | with a channel set, over any series of runs from a missing or non-negative cursor the posted positions are strictly increasing, so no course is posted twice |
| DispatchRuns.RunSendsCatalogEntries | scraper/telegram_bot.py:46-55 | every send attempted over a series of runs concerns an in-range catalog entry and is the request built from that entry |
| DispatchRuns.NegativeCursorWraps | scraper/telegram_bot.py:42-46 | a hand-written cursor of -1 posts the last course, writes 0, and then the next run starts over from the first course |

## Left out

- `scraper/fetch_udemy_coupons.py`, the crawler that builds the catalog, is out of scope. It consists of HTTP paging, sleeps, swallowed fetch errors and a JSON dump, and its output is an input here.
- The aiogram `Bot` client and the asyncio event loop are not modelled. A send is modelled only as returning or raising. `Bot(token=...)` failing on a missing token is counted as a raised send, because both end the run before line 59.
- The `print` logging is not modelled, and neither is how Telegram renders the Markdown.
- File-system mechanics are not modelled: existence checks, opening and reading, I/O errors, and non-atomic writes. The three files are given as already-read values.
- The parsing inside `int(...)` is not modelled, for example `"+5"` or `"1_000"`. A cursor file is either a parsed number or unparsable.
- Malformed catalog JSON is not modelled; it raises in `json.load` at line 31. Nor is a top-level JSON value that is not a list of objects. A `null`, a number or a boolean raises `TypeError` at `len(courses)` on line 42. A string or an object with more entries than the cursor raises at `courses[last]` on line 46 (`KeyError` for an object) or at `course.get` on line 49 (for a string). An object or a string whose length is at most the cursor takes the "No new courses." exit and raises nothing. A list entry that is not an object raises at `course.get` on line 49.
- Course fields are modelled as strings. A JSON number in `name` is shown by Python through `str()`, which is not modelled. A missing field is shown as `AbsentField`, and no proof depends on that text.
- The chat service's answer is modelled as independent of the request. Telegram refuses some requests every time: a caption with unbalanced legacy-Markdown `*` or `_`, or a photo caption over 1024 characters. Such a course then fails on every run and holds back every course after it. Every lemma is stated for all sequences of answers, so it covers this case, but no lemma singles it out.
- Changes to the catalog file between runs are not modelled: `Run` gives every run the same `catalogFile`. The crawler rewrites `website/coupons.json` wholesale (scraper/fetch_udemy_coupons.py:85-86). The cursor counts positions, not courses, so a re-crawl that inserts or reorders entries can make a later run post a course again or skip one. The catalog-order and at-most-once lemmas hold only over an unchanged catalog file.
- A crash after the send but before line 59 is not modelled. The same course is then posted twice, which is at-least-once delivery. The model has no step between a returned send and the write.
- Two runs overlapping on the same cursor file are not modelled, because the script assumes one run at a time.
