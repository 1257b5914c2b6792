# SimpleFBChatParser in Dafny

A model of the core of `parser.py`, a statistics extractor for exported chat archives.
`FbChatHTMLParser` consumes the tag, end-tag and text events of an HTML tokenizer and tracks where it is in the
document: inside the thread, a message, its header, the user or meta label, a reaction list, a reaction or a
paragraph. It builds one `FbMessage` per message container. When the next message opens, it finalizes the
pending one into these statistics:

- an aggregate `FbChatParticipantData` (`__ALL__`);
- one accumulator per author, created on the author's first message;
- the list of messages that got reactions.

`main` then ranks the reacted messages by reaction count and the participants by message count.

The model is functional. Each handler is a pure step function from a parser state to
`Result<State, Failure>`, and a run is a fold over a sequence of events. `Err` stands for a Python
exception, which ends the run.

| file | module | what it holds |
|---|---|---|
| `wrappers.dfy` | `Wrappers` | `Option`, `Result` |
| `text.dfy` | `Text` | the character classes `\w`, `\d` and whitespace; maximal runs; `str.split()` and the word count |
| `timestamp.dfy` | `Timestamp` | `weekday_to_idx`; the timestamp pattern, decided directly rather than through a regex engine; `int()` on digits; `get_msg_time_info` |
| `accumulator.dfy` | `Accumulator` | `FbChatParticipantData` with its fixed-length histograms; the author registry `user_data`; get-or-create and the paired increments |
| `parser.dfy` | `Parser` | the parser state; `handle_starttag`, `handle_endtag`, `handle_data`, `finalize_last_message`; the state invariant |
| `runs.dfy` | `Runs` | runs over event sequences; what a run counts; the document as `main` feeds it; the same document with its last message finalized |
| `ranking.dfy` | `Ranking` | the stable descending sort with a key (`list.sort(key=..., reverse=True)`); the two rankings of the report |

Modelling choices:

- **Flags.** The eight boolean flags are the set `open` of contexts that are set.
- **Registry.** `user_data` is a sequence of accumulators with distinct names, in first-insertion order. That
  is the iteration order of a Python dict, so it fixes the tie order of the participant ranking.
- **Histograms.** They are sequences whose lengths (7 and 24) are part of their types.
- **Failures.** Finalizing a message fails in the order the source fails:
  1. the pattern does not match, or its hour group is empty (line 119);
  2. an hour of 24 or more indexes past the hour histogram (line 123);
  3. the weekday sentinel is used as an index (line 124).

  A reaction closed, or text routed, before any message opened dereferences `None` (lines 83, 89, 91, 93).
- **Partial updates.** Increments the source makes before it raises are not modelled, because the run ends
  at that point.

## Model

| member | source | states |
|---|---|---|
| Text.Take | parser.py:107 | the run is a prefix of the input whose characters are all in the class, and the character after it (if any) is not |
| Text.TakeOf | parser.py:107 | the maximal run is unique: any run of the class followed by an outside character, or by nothing, is the one found |
| Text.Split | parser.py:111-112 | every token of `str.split()` is a non-empty run without whitespace, and there are never more tokens than characters |
| Text.SplitNone | parser.py:111-112 | a string splits into no words exactly when it is all whitespace |
| Text.CountWords | parser.py:111-112 | a body counts zero words exactly when it is all whitespace, and never more words than characters |
| Text.SplitJoin | parser.py:111-112 | splitting words joined by single spaces gives back the words |
| Text.SplitAppend | parser.py:111-112 | two strings that meet at whitespace split into the words of the first followed by the words of the second |
| Text.CountWordsAppendLine | parser.py:111-112 | appending a paragraph and a newline to a body that is empty or ends in whitespace adds exactly the paragraph's word count |
| Timestamp.WeekdayToIdx | parser.py:95-104 | a name gets an index exactly when it is one of Monday to Sunday; the index is below 7 and the table holds the name there |
| Timestamp.WeekdayRoundTrip | parser.py:95-104 | each weekday name is found at its own index, so the lookup is injective |
| Timestamp.Expect | parser.py:107 | a literal is consumed exactly when the text starts with it, leaving the remainder |
| Timestamp.Scan | parser.py:107 | a scanned run is all of one class and is followed by the literal in the input |
| Timestamp.Match | parser.py:107-108 | a match's groups are well formed and reassemble into a prefix of the input that no further digit extends |
| Timestamp.MatchOf | parser.py:107-108 | every well-formed match followed by a non-digit, or by nothing, is found with exactly those groups |
| Timestamp.NatToDigits | parser.py:109 | the decimal rendering of a number is a non-empty run of digits |
| Timestamp.DigitsValue | parser.py:109 | `int()` of k digits is below 10^k |
| Timestamp.LeadingZero | parser.py:109 | a leading zero does not change the value `int()` reads |
| Timestamp.DigitsRoundTrip | parser.py:109 | `int()` of the decimal rendering of a number is that number |
| Timestamp.GetMsgTimeInfo | parser.py:106-109 | decoding succeeds exactly when the pattern matches with a non-empty hour group, and then returns the date group, the weekday table's lookup of the weekday group and `int()` of the hour group; any weekday index is below 7 |
| Timestamp.DecodeStamp | parser.py:95-109 | a timestamp built from a weekday, three date words and an hour decodes back to that date phrase, weekday index and hour |
| Timestamp.CommaAfterSecond | parser.py:107-109 | a date phrase with a comma after its second word never matches, which rules out the month-first layout |
| Accumulator.Zeros | parser.py:19-22 | a histogram of the given length with every bucket at zero |
| Accumulator.NewAcc | parser.py:13-22 | a fresh accumulator has the given name, zero totals and every bucket of its four histograms at zero |
| Accumulator.NewAccConsistent | parser.py:13-22 | a fresh accumulator is consistent: each histogram sums to its zero total |
| Accumulator.SumBumped | parser.py:123-127 | raising one bucket by d raises the histogram's sum by d |
| Accumulator.Bump | parser.py:123-127 | exactly one bucket rises by the amount, the length is kept, and the sum rises by the amount |
| Accumulator.Record | parser.py:122-139 | one message counted: both totals rise, exactly the weekday and hour buckets of each histogram rise by 1 or by the word count, and consistency is kept |
| Accumulator.Names | parser.py:39 | the registry's names, one per entry, in order |
| Accumulator.Lookup | parser.py:129 | an entry found under a name carries that name |
| Accumulator.LookupMissing | parser.py:129-130 | a name is missing from the registry exactly when it is not among its names |
| Accumulator.LookupConsistent | parser.py:129 | an entry found in a consistent registry is consistent |
| Accumulator.Store | parser.py:132 | the stored entry is found under its name; every other name keeps its entry; the name is appended only when new |
| Accumulator.StoreTotals | parser.py:132-139 | storing an entry trades the entry it replaces for it in the registry's totals, and keeps consistency |
| Accumulator.Credit | parser.py:129-139 | the author's entry (created if missing) has counted the message, others are unchanged, registry totals rise by 1 and the word count, and distinct names and consistency are kept |
| Accumulator.ConsNames | parser.py:39 | the names of an entry put in front of a registry |
| Accumulator.ConsLookup | parser.py:129 | lookup in a registry with an entry put in front |
| Accumulator.ConsTotals | parser.py:122-139 | totals and consistency of a registry with an entry put in front |
| Accumulator.DistinctAppend | parser.py:132 | registering a name not yet present keeps the names distinct |
| Parser.Init | parser.py:26-42 | no context, no pending message, no author, no reacted message, and an aggregate named `__ALL__` with zero totals |
| Parser.FirstOpen | parser.py:66-85 | the first open context of a closing order: at most one, open, and every context before it is closed |
| Parser.DivCloses | parser.py:67-73 | a closing div leaves the header if open, else the message, else the conversation |
| Parser.SpanCloses | parser.py:74-78 | a closing span leaves the user label if open, else the meta label |
| Parser.SingleCloses | parser.py:79-85 | a closing ul, li or p leaves its own context when open, and any other tag leaves nothing |
| Parser.Decode | parser.py:119-124 | each outcome exactly when its condition holds, in the source's order: no match or empty hour, else an hour of 24 or more, else an unknown weekday, else success with the timestamp's weekday (below 7) and hour (below 24) |
| Parser.DecodeStampSlot | parser.py:106-124 | a timestamp built from a weekday, three date words and an hour below 24 decodes to that weekday and hour |
| Parser.DecodeUnknownWeekday | parser.py:95-124 | a timestamp that fits the pattern with an hour below 24 but names no weekday fails as an unknown weekday |
| Parser.CountMessage | parser.py:116-139 | the aggregate and the author's entry each count the message under its slot, other authors are untouched, a new author is registered last, and the message joins the reaction list exactly when it has reactions |
| Parser.CountKeepsInvariant | parser.py:122-139 | counting a message keeps the state invariant |
| Parser.TotalsKept | parser.py:122-139 | equal increments to the aggregate and to the registry keep the state invariant |
| Parser.Finalize | parser.py:114-139 | no pending message: no change; otherwise it fails exactly when the timestamp does not decode, with that failure, and else counts the message; the invariant is kept |
| Parser.Entered | parser.py:44-64 | the flags a start tag sets, one by one: thread div, message-header div inside a message (unless the div opens a message), user and meta spans in the header, ul and p in the conversation, li in a reaction list |
| Parser.HandleStartTag | parser.py:44-64 | a message open finalizes the pending message and then installs an empty one; for each flag, it is set afterwards exactly when it was set or the tag sets it, in the source's order of tests; nothing but the flags changes otherwise; the invariant is kept |
| Parser.StartTagShape | parser.py:44-64 | a start tag never clears a flag, sets only flags of its own tag, and sets each only inside its parent context |
| Parser.HandleEndTag | parser.py:66-85 | fails only on a reaction closing with no message; leaves exactly the first open context of its tag's order; a closing reaction adds one reaction and nothing else; statistics are untouched |
| Parser.HandleData | parser.py:87-93 | fails only when text is routed with no message; routing priority is user label, meta label, paragraph, which append a line; nothing but the pending message changes |
| Parser.ParagraphWords | parser.py:93 | a paragraph's text adds exactly its own word count to the pending body's |
| Parser.Step | parser.py:44-93 | only a message open over a pending message changes the statistics; only a message open fails on a timestamp, with the finalization's failure; any other failure is a missing message; a pending message stays pending |
| Parser.StepInvariant | parser.py:44-93 | every event keeps the invariant, and once a message is pending one stays pending |
| Runs.TalliesAppend | parser.py:114-139 | word, reaction and author tallies are additive over concatenation |
| Runs.Run | parser.py:151 | over a run a pending message stays pending, and a run along which no message is ever pending counts nothing |
| Runs.StepAccounting | parser.py:44-139 | one event counts exactly the message it finalizes, once in the aggregate, once for its author and on the reaction list if reacted; a message is pending afterwards exactly when one was or the event opened one |
| Runs.CountedTallies | parser.py:122-139 | a counted message raises the message total by 1, the word total by its words and its author's count by 1 |
| Runs.FinalizeCounted | parser.py:114-139 | finalizing the pending message raises the totals and its author's count by one message |
| Runs.QuietStep | parser.py:44-93 | an event that does not finalize leaves the statistics alone and installs a message only by opening one |
| Runs.RunAccounting | parser.py:122-127 | after a run the invariant holds and the aggregate has counted exactly the messages finalized along it |
| Runs.RunReacted | parser.py:116-117 | after a run the reaction list has gained exactly the finalized messages with reactions, in order |
| Runs.RunCredits | parser.py:129-139 | after a run each author has been credited with exactly the finalized messages they wrote |
| Runs.RunOpens | parser.py:48-51 | after a run a message is pending exactly when one opened; every open but the first finalizes one |
| Runs.InitInvariant | parser.py:26-42 | the initial state satisfies the invariant |
| Runs.Parse | parser.py:148-151 | a document in which no message opened leaves the statistics `main` reads after `feed` empty |
| Runs.ParseInvariant | parser.py:148-151 | the state `main` reads after `feed` satisfies the invariant |
| Runs.ParseAll | parser.py:148-151 | adding the final finalization keeps the invariant, changes only the statistics, and changes nothing when no message is pending |
| Runs.LastMessageDropped | parser.py:148-151 | as written, when any message opened, the last is still pending and the count is one less than the opens and the messages |
| Runs.ThreadEnters | parser.py:45-47 | a thread div enters the conversation, changes nothing else and opens no message |
| Runs.OpenInstalls | parser.py:48-51 | a message div in the conversation with none pending installs an empty message |
| Runs.RunTwo | parser.py:151 | a run of two events is the two steps |
| Runs.OneMessageDropped | parser.py:148-151 | a thread holding a single message: the run succeeds, one message opened, none is counted |
| Runs.FinishAccounting | parser.py:114-139 | the final finalization counts the pending message, if any, once, and keeps the invariant |
| Runs.ParseAllCounts | parser.py:114-139 | with the last message finalized, the message count equals the number of opens and of messages |
| Runs.ParseAllWords | parser.py:120-125 | with the last message finalized, the word count is the word count of all messages |
| Runs.ParseAllReacted | parser.py:116-117 | with the last message finalized, the reaction list is exactly the messages with reactions, in document order |
| Runs.ParseAllCredits | parser.py:129-139 | with the last message finalized, every author's count is the number of messages they wrote |
| Runs.AuthorsInOrder | parser.py:129-132 | the distinct authors of some messages are exactly the names that wrote one, ordered by the position of their first message |
| Runs.AuthorsRegistered | parser.py:129-132 | counting messages into an empty registry registers exactly their distinct authors, in order of first message |
| Runs.FinishNames | parser.py:129-132 | the final finalization registers the pending message's author last, if new |
| Runs.StepNames | parser.py:129-132 | an event registers the author of the message it finalizes last, if new, and no other name |
| Runs.RunNames | parser.py:129-132 | after a run the registry's names are the former ones followed by the new authors of the finalized messages, in order |
| Runs.ParseAllAuthors | parser.py:129-132 | with the last message finalized, the registry lists the document's authors in order of first message, and a name is registered exactly when it wrote a message |
| Runs.CreditedFromEmpty | parser.py:39 | counts credited to an empty registry are the counts themselves |
| Runs.ParseAllFails | parser.py:114-119 | if the run succeeds and the final finalization fails, that is the last message's timestamp failing to decode |
| Ranking.Insert | parser.py:154 | inserting adds exactly one element and keeps the others |
| Ranking.SortDesc | parser.py:154 | the sort is a permutation of its input |
| Ranking.InsertOrdered | parser.py:154 | inserting into a non-increasing sequence keeps it non-increasing |
| Ranking.SortOrdered | parser.py:154 | the sort is non-increasing in the key |
| Ranking.InsertWithKey | parser.py:154 | the inserted element goes in front of every element with the same key |
| Ranking.SortStable | parser.py:154 | elements with the same key keep their relative order |
| Ranking.MostReacted | parser.py:154 | the ranked messages are a permutation of the document's reacted messages, most reactions first, ties in document order |
| Ranking.RankedReactions | parser.py:154 | the ranked reaction list is a permutation of the parser's reaction list, most reactions first, ties in finalization order |
| Ranking.Participants | parser.py:175-178 | the ranked participants are a permutation of the registry, most messages first, ties in registry order |
| Ranking.ParticipantOrder | parser.py:175-178 | for a document, the ranked participants are a permutation of the registry, most messages first, ties in registry order, and the registry lists the authors in order of first message |
| Ranking.Rank | parser.py:154-178 | the report keeps the aggregate and reorders the reaction list and the registry without adding or losing an entry |
| Ranking.Analyze | parser.py:148-178 | a report exists exactly when the document parses and its last message finalizes, and its totals count every message and word of the document |

## Left out

- `HTMLParser` itself: tokenizing, `feed` and entity handling. The model takes the events it delivers as
  input. A self-closing tag arrives as a start event followed by an end event, as `handle_startendtag` does
  by default.
- The `re` engine. The pattern `(\w*), (\w* \w* \w*) at (\d*)` is decided directly. Each `\w*` is followed by
  a character `\w` excludes, so a match, when there is one, takes every run maximal.
- Unicode in `\w`, `\d` and `int()`. In the model, `\w` and `\d` are the ASCII classes, and `int()` reads
  ASCII digits.
- `argparse`, reading the input file, and writing the two report files (lines 141-153, 156-173, 180-191).
  These are I/O and text layout. `Ranking.Analyze` returns what the report is written from, built on the
  corrected `Runs.ParseAll` rather than on the state `main` writes from, which lacks the last message.
- Aliasing of the mutable `FbMessage` shared by `cur_msg` and `most_reacted_msgs`. Messages are values. A
  message is never changed after it is replaced, so the snapshot taken at finalization is what the list
  holds.
- The date group that `get_msg_time_info` returns and `finalize_last_message` ignores. `Timestamp.GetMsgTimeInfo`
  returns it; `Parser.Decode` drops it.
- Side effects made before an exception (lines 117, 122-123). The model ends the run with `Err`.
- `if self.cur_msg:` is modelled as "a message is pending". An `FbMessage` instance is always truthy.
- Runs.ParseAllCredits: states each author's message count over the document, not their word count or
  histograms. Those are stated per finalized message by `Parser.Finalize` and per step by `Runs.StepAccounting`.
- Runs.RunCredits: states message counts per author only, for the same reason.
- Parser.Decode: reads an hour of any number of digits. Python versions with the integer string conversion
  limit (3.11 and later, and the security releases of earlier ones) refuse to convert more than 4300 digits
  by default, so for such an hour group `int()` raises `ValueError` at line 119 where the model reports
  `HourOutOfRange`. Both end the run.

## Findings

| source | as written | input that shows it | evidently intended | confidence | as-written member | corrected member |
|---|---|---|---|---|---|---|
| parser.py:148-151 | a message is finalized only when the next message opens, and nothing finalizes after `feed`, so the last message of every document is never counted | the events of a thread div then a message div: one message opens, and the statistics count none | finalize the pending message once the document ends, so every message is counted | high, not executed | Runs.LastMessageDropped | Runs.ParseAllCounts |

`Runs.Parse` is the run as `main` performs it. `Runs.ParseAll` adds the final finalization, and the report
(`Ranking.Analyze`) is built from it. `Runs.OneMessageDropped` is the concrete instance of the finding.

Timestamps follow the code's pattern. That pattern accepts day-first dates such as
"Monday, 1 January 2024 at 10". It rejects the month-first layout "Monday, January 1, 2024 at 10"
(`Timestamp.CommaAfterSecond`), so a document with that layout fails with `MalformedTimestamp` at its first
finalization.
