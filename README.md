# Slack changelog update: a verified model

`scripts/fetch-slack-updates.py` fetches recent messages from one Slack channel.
It turns the messages that read as changelog updates into entries and puts the
new entries in front of those stored in `changelog-data.json`. This project
models the script's decision logic and proves what that logic guarantees:

- **Classifier** (`Classifier`). A message is a candidate only if its own text
  contains `TL;DR:` or `TLDR:`, spelled exactly so. It is kept only if the
  lower-cased context does three things in this order:
  - it mentions "sprout";
  - it does not mention "spam";
  - it contains none of nine help-seeking phrases.

  The context is the message, followed by its thread replies under a
  "Thread context:" label when there are any. The first check that fails
  decides the verdict.
- **Field extractor** (`Extractor`). The pattern `(?:M1|M2)\s*(.+?)(?:\n|$)` is
  searched with IGNORECASE and DOTALL. `Search` writes that search out
  by hand. Three fields come from it:
  - the summary (the stripped line after the leftmost TL;DR marker, or the
    first 200 characters when no marker matches);
  - the bracketed note from the first reply that contains a correction keyword;
  - the action item, from the message or else from the first reply that matches
    the action pattern.
- **Record builder** (`Records`). The permalink is built from the channel and
  the timestamp with its dots removed. `parse_message_to_entry` combines the
  pieces into an entry, a skipped message, or the exception that a
  non-numeric timestamp raises.
- **Deduplication and merge** (`Dedup`). The message loop of `main` keeps an
  entry when its permalink is not already stored. The `Changelog` class puts the
  kept entries in front of the stored ones, and saves only when there are some.

`Strings` holds the text primitives: ASCII lower-casing, substring search, the
`str.isspace` whitespace set, `strip`, `'\n'.join` and slicing.

Three behaviours of the script that the model keeps as they are:

- There are ten correction keywords, including "should note".
- A timestamp that is not a number, on a message that passes the filters,
  raises an exception nobody catches, so the whole run ends with nothing saved
  (EntryOutcome, AbortedIff).
- The message's own action is used only when its stripped capture is not empty;
  otherwise the thread is searched.

The methods (`AddThreadNote`, `ExtractAction`, `ParseMessageToEntry`,
`CollectNewEntries`, `Changelog.Update`) follow the script's loops and early
exits. Each is proved equal to a specification function. The lemmas prove what
those functions guarantee.

## Model

| member | source | states |
|---|---|---|
| Strings.Contains | scripts/fetch-slack-updates.py:72 | The substring test is true exactly when the key occurs at some index of the text. |
| Strings.Lower | scripts/fetch-slack-updates.py:103 | `str.lower()` on ASCII letters: each character of the input lower-cased in place, the length kept. Used on the full context (lines 82, 87, 103) and on each reply (line 120). |
| Strings.IsSpace | scripts/fetch-slack-updates.py:109 | `\s` and the characters `str.strip` removes: the `str.isspace` set. It holds the controls 9 to 13 and 28 to 31, the space, the C1 control U+0085 (next line), and the Unicode separators. |
| Strings.ContainsAny | scripts/fetch-slack-updates.py:104 | `any(k in s for k in keys)` holds exactly when some key of the list occurs in the text. |
| Strings.Strip | scripts/fetch-slack-updates.py:110 | `strip` returns a slice of the input. Everything cut from either end is whitespace. The result is empty or neither starts nor ends with whitespace. |
| Strings.StripKeepsNoNewline | scripts/fetch-slack-updates.py:110 | Stripping a line without a newline leaves no newline. |
| Strings.StripAllSpace | scripts/fetch-slack-updates.py:110 | Stripping a string made only of whitespace gives "". |
| Strings.Take | scripts/fetch-slack-updates.py:110 | `s[:200]` is the prefix of length min(200, len(s)). |
| Strings.OccursAcross | scripts/fetch-slack-updates.py:76-78 | A key without a newline occurs in text + separator + replies exactly when it occurs on one side, provided the separator starts and ends with a newline and does not contain the key. |
| Strings.Join | scripts/fetch-slack-updates.py:78 | `'\n'.join(parts)`: the parts in order with one newline between neighbours. JoinOccurs proves what a search in it finds. |
| Classifier.JoinOccurs | scripts/fetch-slack-updates.py:78 | A key without a newline occurs in the lower-cased `'\n'.join(replies)` exactly when it occurs in one lower-cased reply. |
| Classifier.ContextMentions | scripts/fetch-slack-updates.py:76-79 | A filter word occurs in the lower-cased full context exactly when it occurs in the message or in some reply. No match can come from the label or from the joins. |
| Classifier.FilterWordAvoidsLabel | scripts/fetch-slack-updates.py:78-104 | None of "sprout", "spam" or the help phrases contains a newline or occurs in the lower-cased "Thread context:" label. |
| Classifier.Context | scripts/fetch-slack-updates.py:76-79 | The text the filters read: the message alone when there are no replies, otherwise message + "\n\nThread context:\n" + the joined replies. ContextMentions proves what a search in it finds. |
| Classifier.Classify | scripts/fetch-slack-updates.py:72-106 | The ordered chain. First, neither exact marker in the message gives NoMarker. Then, on the ASCII-lower-cased context: no "sprout" gives NoProductMention, "spam" gives SpamMarker, and a help phrase gives HelpRequest. Otherwise it gives Pass. ClassifyVerdicts proves each verdict holds exactly when its condition does. |
| Classifier.ClassifyVerdicts | scripts/fetch-slack-updates.py:70-106 | Each verdict holds if and only if the following is true. NoMarker: neither exact marker is in the text. NoProductMention: a marker is present but no part mentions "sprout". SpamMarker: "sprout" is mentioned and some part mentions "spam". HelpRequest: the earlier checks pass and some part has a help phrase. Pass: all four checks pass. |
| Extractor.LineAfterUnique | scripts/fetch-slack-updates.py:109 | The captured line (whitespace skipped, cut at the next newline) is determined by its start. |
| Extractor.Capture | scripts/fetch-slack-updates.py:109 | The rest of the pattern after a marker fails only at the end of the text. Its stripped capture never holds a newline. |
| Extractor.LineAfterExists | scripts/fetch-slack-updates.py:109 | Skipping whitespace and then running to the next newline delimits the captured line. |
| Extractor.CaptureIsLine | scripts/fetch-slack-updates.py:109-110 | Where the captured line is text[w..e], the stripped capture equals the stripped text[w..e]. When the whitespace runs to the end, both are "". |
| Extractor.MatchAt | scripts/fetch-slack-updates.py:109 | The pattern tried at one position, alternatives in order from the j-th. It gives the index just past the marker, where `\s*(.+?)(?:\n|$)` is matched; `Capture` takes group 1 from there. That index lies before the end of the text. |
| Extractor.SearchFrom | scripts/fetch-slack-updates.py:109 | The scan from a position onward. At the first matching position it gives the index just past the marker, where `Capture` takes group 1 from. That index lies before the end of the text. |
| Extractor.MatchAtNone | scripts/fetch-slack-updates.py:109 | A match at a position, from the j-th alternative on, fails exactly when none of those alternatives is a usable marker there (present, ignoring case, and not ending the text). |
| Extractor.MatchAtFirst | scripts/fetch-slack-updates.py:109 | At a position, the first usable alternative decides the match: the index just past that marker, where `\s*(.+?)(?:\n|$)` is matched. |
| Extractor.SearchFromNone | scripts/fetch-slack-updates.py:109 | A search from a position fails exactly when no usable marker starts at or after it. |
| Extractor.SearchFromFirst | scripts/fetch-slack-updates.py:109 | A search gives the index just past the leftmost usable marker, taking the first usable alternative at that position; `Capture` takes group 1 from there. |
| Extractor.Search | scripts/fetch-slack-updates.py:109 | `re.search` of the marker pattern, written out by hand: it scans the positions from the left and tries the alternatives in order at each, giving group 1 or None. The stripped group never holds a newline. The same search runs at lines 129 and 135 with the action markers. SearchNoneIff and SearchFindsFirstUsable characterize it. |
| Extractor.SearchNoneIff | scripts/fetch-slack-updates.py:109-110 | `re.search` returns None exactly when the text has no usable marker. |
| Extractor.SearchFindsFirstUsable | scripts/fetch-slack-updates.py:109 | `re.search` captures after the leftmost usable marker and its first matching alternative. |
| Extractor.TldrSpellingsExclusive | scripts/fetch-slack-updates.py:109 | "TL;DR:" and "TLDR:" never both start at one position, whatever the case. |
| Extractor.Summary | scripts/fetch-slack-updates.py:109-110 | The stripped group 1 of the TL;DR search, or `text[:200]` when the search finds nothing. SummaryAfterLeftmostMarker and SummaryFallback characterize it. |
| Extractor.SummaryAfterLeftmostMarker | scripts/fetch-slack-updates.py:109-110 | Take the leftmost TL;DR marker in either spelling and any case, where the marker does not end the text. The summary is the stripped line that follows it, and it holds no newline. |
| Extractor.SearchAfterLeftmostMarker | scripts/fetch-slack-updates.py:109 | The TL;DR search captures from just past the leftmost marker in either spelling and any case, when that marker does not end the text. |
| Extractor.SummaryIsLine | scripts/fetch-slack-updates.py:109-110 | When the search captures from a position, the summary is the stripped line after that position, and it holds no newline. |
| Extractor.SummaryFallback | scripts/fetch-slack-updates.py:110 | The summary is `text[:200]` when no marker can match. Otherwise it holds no newline. |
| Extractor.IsCorrection | scripts/fetch-slack-updates.py:120-121 | A reply is a correction when its lower-cased text contains one of the ten correction keywords. |
| Extractor.Note | scripts/fetch-slack-updates.py:123-124 | The note a correction adds: " [Note from thread: ", the reply's first 200 characters, and "]". |
| Extractor.WithNote | scripts/fetch-slack-updates.py:113-126 | The summary with the note of the first correcting reply appended, or unchanged when no reply is a correction. NoteFromFirstCorrection and NoNoteWithoutCorrection characterize it. |
| Extractor.NoteFromFirstCorrection | scripts/fetch-slack-updates.py:113-126 | If reply i is the first with a correction keyword (lower-cased), the tldr is the summary plus " [Note from thread: " + its first 200 characters + "]". Later corrections add nothing. |
| Extractor.NoNoteWithoutCorrection | scripts/fetch-slack-updates.py:113-126 | Without a correcting reply, the tldr is the summary unchanged. |
| Extractor.AddThreadNote | scripts/fetch-slack-updates.py:113-126 | The loop that appends the first correction's note and breaks computes `WithNote`. |
| Extractor.ActionIn | scripts/fetch-slack-updates.py:129-130 | The stripped group 1 of the action search on one text, or "" when the search finds nothing. |
| Extractor.ReplyAction | scripts/fetch-slack-updates.py:133-139 | The stripped capture of the first reply the action search matches, even when that capture is "". It is "" when no reply matches. |
| Extractor.ActionOf | scripts/fetch-slack-updates.py:129-139 | The message's own action when it is not "", otherwise the thread's action. ActionFromFirstMarkedReply, ActionEmptyWithoutMarker and ActionIsOneLine characterize it. |
| Extractor.ActionFromFirstMarkedReply | scripts/fetch-slack-updates.py:129-139 | When the message yields "", the first reply that matches the action pattern gives the action, even when its capture strips to "". |
| Extractor.ActionEmptyWithoutMarker | scripts/fetch-slack-updates.py:129-139 | With no action in the message and no matching reply, the action is "". |
| Extractor.ReplyActionIsOneLine | scripts/fetch-slack-updates.py:133-139 | An action taken from the thread holds no newline. |
| Extractor.ActionIsOneLine | scripts/fetch-slack-updates.py:129-139 | The action holds no newline, wherever it comes from. |
| Extractor.ExtractAction | scripts/fetch-slack-updates.py:129-139 | The action code, with its loop over the replies and its break, computes `ActionOf`. |
| Records.DropDots | scripts/fetch-slack-updates.py:146 | `ts.replace('.', '')` has no dot, is no longer than ts, and leaves a dot-free ts as it is. |
| Records.DropDotsConcat | scripts/fetch-slack-updates.py:146 | Removing dots distributes over concatenation. |
| Records.DropDotsAroundDot | scripts/fetch-slack-updates.py:146 | Removing the dots of seconds "." fraction gives the seconds followed by the fraction. |
| Records.Permalink | scripts/fetch-slack-updates.py:146-147 | The URL begins with the archive URL, the channel and "/p", and has no dot after that prefix. |
| Records.PermalinkOfTimestamp | scripts/fetch-slack-updates.py:146-147 | For ts = seconds "." fraction, the URL is the prefix followed by the seconds and then the fraction. |
| Records.PermalinkForgetsDotPosition | scripts/fetch-slack-updates.py:146-147 | Timestamps whose digits agree but whose dot stands elsewhere get the same URL. |
| Records.EntryOf | scripts/fetch-slack-updates.py:65-163 | `parse_message_to_entry` as a function. A message that fails a check is Skipped with its verdict. Otherwise, a timestamp that does not convert gives BadTimestamp. Otherwise the entry has the calendar fields, WithNote of the summary, ActionOf, and the permalink. NoMarkerNoEntry, FilteredNoEntry and EntryOutcome characterize it. |
| Records.NoMarkerNoEntry | scripts/fetch-slack-updates.py:72-73 | A message without an exact marker gives no entry, whatever its replies say. |
| Records.FilteredNoEntry | scripts/fetch-slack-updates.py:80-106 | A message is skipped when: no part mentions "sprout", some part mentions "spam", or some part asks for help. |
| Records.EntryOutcome | scripts/fetch-slack-updates.py:70-163 | An entry is built exactly when the filters pass and the timestamp converts. The exception is raised exactly when the filters pass and it does not. The entry's key is the permalink. |
| Records.ParseMessageToEntry | scripts/fetch-slack-updates.py:65-163 | The body of `parse_message_to_entry` computes `EntryOf`: verdict, then tldr, action, date fields and URL. |
| Dedup.EntryExists | scripts/fetch-slack-updates.py:180-182 | True exactly when some stored entry has this permalink. |
| Dedup.RepliesFor | scripts/fetch-slack-updates.py:207-212 | The replies passed to the parser: the thread when `reply_count > 0`, and none otherwise (None and [] behave alike). |
| Dedup.RunParser | scripts/fetch-slack-updates.py:207-215 | How `main` parses each message: `parse_message_to_entry` with the configured channel and the replies RepliesFor gives. |
| Dedup.Admit | scripts/fetch-slack-updates.py:215-218 | One step of the loop. A bad timestamp aborts. A skipped message adds nothing. A built entry is appended unless its permalink is among the stored entries. |
| Dedup.NewEntries | scripts/fetch-slack-updates.py:204-219 | The message loop as a function: Admit applied to each message in order, checked against the stored entries only. AddedAreNew, AddedKeepMessageOrder, AddedIsComplete and AbortedSticks characterize it. |
| Dedup.StoreAfter | scripts/fetch-slack-updates.py:221-223 | The stored entries after a run: the kept entries followed by the old ones, or the old ones unchanged when the run aborts. RerunAddsNothing and MergeKeepsUrlsUnique characterize it. |
| Dedup.AbortedSticks | scripts/fetch-slack-updates.py:205-219 | Once the loop over a prefix of the batch has raised, the run over the whole batch has raised too: later messages cannot undo the exception. |
| Dedup.AbortedIff | scripts/fetch-slack-updates.py:205-219 | The run raises exactly when some message of the batch parses to the exception of a non-numeric timestamp. A batch without one always yields its kept entries. |
| Dedup.NextMessage | scripts/fetch-slack-updates.py:215-218 | One more parsed message extends the loop's result by one admission step. |
| Dedup.CollectNewEntries | scripts/fetch-slack-updates.py:204-219 | The message loop (thread fetched only when reply_count > 0, parse, check against the stored entries, append) computes `NewEntries`. |
| Dedup.AddedAreNew | scripts/fetch-slack-updates.py:217-218 | Every kept entry's permalink is absent from the stored entries. |
| Dedup.AddedKeepMessageOrder | scripts/fetch-slack-updates.py:205-218 | The kept entries are exactly the entries of the admitted messages, in message order. A message is admitted when it builds an entry whose permalink is not stored. The lemma gives the list of admitted message indices, in increasing order, with the k-th kept entry built by the k-th of them. This pins the loop result down completely, duplicates within the batch included. |
| Dedup.AddedIsComplete | scripts/fetch-slack-updates.py:205-218 | Every message that builds an entry with a new permalink has that entry kept. |
| Dedup.CoveredAddsNothing | scripts/fetch-slack-updates.py:217 | Another run over the same messages keeps nothing if its store covers every permalink of the first run. |
| Dedup.RerunAddsNothing | scripts/fetch-slack-updates.py:204-224 | Running the same batch again on the store a run produced leaves that store unchanged. |
| Dedup.MergeKeepsUrlsUnique | scripts/fetch-slack-updates.py:217-223 | Suppose the stored permalinks are unique and no two messages of the batch build entries with the same permalink. Then the merged store's permalinks are unique. The uniqueness of the kept entries is derived, not assumed. |
| Dedup.RepeatInBatchKeptTwice | scripts/fetch-slack-updates.py:217-218 | Two messages of one batch, at any positions, that build the same entry new to the store both get it kept, at two positions of the kept list. The loop checks against the stored entries only. |
| Dedup.Changelog.constructor | scripts/fetch-slack-updates.py:200-201 | The document starts with the loaded entries and no saves. |
| Dedup.Changelog.Update | scripts/fetch-slack-updates.py:204-227 | After a run, the store is the kept entries followed by the old entries. The run crashes exactly when the batch aborts and saves nothing exactly when no entry is kept. On a save, the old entries are unchanged at the tail. The save count goes up by one only on a save. |

## Left out

- Slack API calls (`get_slack_messages`, `get_thread_context`): messages and
  their replies are parameters. The model assumes the thread fetch returns the
  replies without the parent. A failed fetch returns the same empty list that a
  message without replies has.
- Reading and writing `changelog-data.json`, the environment configuration
  (token, channel, lookback window) and every `print`: the store is the
  `Changelog` object's `entries`, and a write is counted in `saves`.
- The conversion of the timestamp to month, year and date
  (`float`, `datetime.fromtimestamp`, `strftime`, the local time zone): it is the
  `calendar` parameter. A `None` result stands for the exception `float(ts)`
  raises. The script does not catch that exception, so the whole run ends with
  nothing saved.
- Classifier.Classify, Extractor.Summary, Extractor.ActionOf: lower-casing and
  IGNORECASE are modelled for ASCII letters only. Python also folds non-ASCII
  letters (for example "İ" lowers to two characters). Those cases are not
  captured.
- Regular expressions in general: only the one pattern shape the script uses is
  modelled, and it is written out by hand.
- Messages, replies or stored entries missing a key (`.get` defaults): every
  message has text, ts and reply count, and every stored entry has a permalink.
- Dedup.Changelog.Update: the early return of `main` when the token is unset or
  the fetch returns nothing is not a separate case. An empty batch leads to the
  same outcome, with nothing saved.
- `scripts/test-local.py`: it is a local driver, not part of this model.
