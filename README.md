# maubot-poll: the poll store, the tally and the command decisions

This Dafny project models the core of maubot-poll, a chat-bot plugin for
polls in Matrix rooms. A room member creates a poll with a question and
several options. Each voter keeps at most one vote per poll, and a new vote
replaces the old one. The creator can close the poll, view the tallied
result and ping the voters of one option.

The model has three parts.

- **The store** (`PollDatabase`, `database.dfy`, module `Database`). A class
  holds the `polls`, `choices` and `votes` tables as sequences of rows. One
  counter per table stands for its autoincremented id.
  - `create_poll` appends an open poll row, then loops over the options and
    appends one choice row each, numbered 1..n.
  - `close_poll` is an UPDATE, `set_vote` a DELETE followed by an INSERT, and
    the SELECTs are filters over the tables.
  - `get_poll_choices_ids` fills its dict in a loop.
  - The invariant `PollDatabase.Valid` keeps all of the following:
    - every id stays below its counter;
    - poll ids and choice ids ascend in row order;
    - every poll's choices are numbered 1..n;
    - there is at most one vote per (poll, voter).
- **The tally** (`_sort_choices`, `tally.dfy`, module `Tallying`). Functions
  follow the method step by step: the dict after the first loop, the dict
  after the second loop, `list(data.values())`, the sort by number, and the
  sort of each voter list. The lemmas say what the result means: totals,
  entries, ordering, the voters of each choice, and the `KeyError` case.
- **The command handlers** (`pollplugin.dfy`, module `Plugin`). `PollPlugin`
  is a class over the store. It has one method per command: `create`,
  `close`, `vote`, `result`, `ping`, plus `_sort_choices`, which is written
  with its loops.
  - Each handler returns either the value its reply is built from or a
    `Rejection`. Most rejections name the reply the handler sends instead.
    `UnknownChoice` is different: it stands for the `KeyError` of
    `_sort_choices`, which escapes the handler, so no reply is sent.
  - Each handler's contract ties that outcome to a pure decision function
    of the looked-up poll and the tables.
  - Lemmas about those decision functions state the check order and what a
    successful answer contains.

The Python string builtins the core relies on are in `text.dfy`:
`strip()`, `split("|")`, `"sep".join`, `int()`, `str()` and the code-point
order of strings. Python's `list.sort` is an insertion sort in
`sorting.dfy`. Option and Result are in `wrappers.dfy`.

Parameters stand in for inputs the core does not control:
- The random code generator gets `draw: nat -> nat`, which gives the index
  the random source picks for each of the six characters.
- `get_poll` uses `fetchone()` and so returns *some* matching row. The
  model picks it with `:|`. Contracts and handler postconditions therefore
  say only that the answer is a possible lookup (`Database.IsLookup`).

Two points of the code's behaviour are worth stating:
- `create_poll` in the store accepts any number of options; only the plugin counts parts.
- The plugin counts `|`-separated parts, not non-empty parts. So
  `!poll create Q | | x` creates a poll with an empty first option.

## Model

| member | source | states |
|---|---|---|
| Database.GenerateRandomString | polls/database.py:10-12 | every code has length 6 and only characters from A-Z and 0-9 |
| Database.EveryCodePossible | polls/database.py:10-12 | every 6-character code over that alphabet is produced by some choice of random draws |
| Database.PollDatabase.constructor | polls/database.py:21-48 | a new store has three empty tables and all id counters at 1, and satisfies the store invariant |
| Database.PollDatabase.CreatePoll | polls/database.py:50-63 | appends exactly one open poll row with the given question, creator, room and the drawn code; appends one choice row per option, pointing at the new poll id, numbered index + 1 in input order; leaves votes and other polls' choices unchanged; keeps the invariant |
| Database.InsertedChoices | polls/database.py:58-62 | appending a new poll's choice rows keeps ids ascending and every poll numbered 1..n; the new poll's choices are exactly the new rows and other polls' choices are unchanged |
| Database.NewChoicesIdMap | polls/database.py:58-62 | a poll created with n options has choice numbers 1..n, and the number-to-id dict has exactly the keys 1..n, key k giving the k-th new row id |
| Database.PollDatabase.ClosePoll | polls/database.py:65-68 | the polls table becomes the table with still_open turned off for that id; choices, votes and counters are unchanged; keeps the invariant |
| Database.ClosedIn | polls/database.py:65-68 | the UPDATE keeps every row but its still_open, which becomes false for the rows with that id and stays as it was for the others |
| Database.CloseProperties | polls/database.py:65-68 | closing keeps the table length, closes every row with that id, changes no other field or row, never reopens a poll, and closing again changes nothing |
| Database.PollDatabase.GetPoll | polls/database.py:70-77 | returns the fields of some row whose room and code both match, or the empty Poll when no row matches both |
| Database.IsLookup | polls/database.py:70-77 | a lookup finds a poll exactly when some row matches both room and code, and a found poll carries the id of such a row |
| Database.ChoicesOf | polls/database.py:87-89 | a row is in the result exactly when it is in the table and belongs to the poll |
| Database.PollDatabase.GetPollChoices | polls/database.py:87-89 | returns exactly the poll's choice rows, in table order |
| Database.ChoicesOfAscending | polls/database.py:87-89 | a poll's choice rows keep the table's ascending ids, so no two share an id |
| Database.ChoiceIdMap | polls/database.py:82-84 | every value of the number-to-id dict is the id of one of the rows, and every row's number is a key |
| Database.NumberedIdMap | polls/database.py:79-85 | for choices numbered 1..n the dict has exactly the keys 1..n, and key k maps to the id of the row numbered k |
| Database.PollDatabase.GetPollChoicesIds | polls/database.py:79-85 | returns the dict built from the poll's choice rows; for a numbered poll its keys are exactly 1..n and key k gives the k-th choice's id |
| Database.Ballots | polls/database.py:92-95 | a vote is listed exactly when it is in the table with that poll id and voter |
| Database.Retained | polls/database.py:92-95 | the DELETE keeps a vote exactly when it is not this voter's vote in this poll |
| Database.NoBallotsLeft | polls/database.py:92-95 | after the DELETE the voter has no vote left in the poll |
| Database.RetainedKeepsOthers | polls/database.py:92-95 | the DELETE leaves every other (poll, voter) pair's votes unchanged |
| Database.SetVoteOutcome | polls/database.py:91-97 | after delete-then-insert the voter has exactly one vote in the poll, the new one, and every other (poll, voter) pair's votes are unchanged |
| Database.SetVoteKeepsOneVoteEach | polls/database.py:91-97 | delete-then-insert keeps at most one vote per (poll, voter) |
| Database.RetainedOneVoteEach | polls/database.py:92-95 | deleting votes keeps at most one vote per (poll, voter) |
| Database.PollDatabase.SetVote | polls/database.py:91-97 | the votes table becomes the retained votes plus one new row for (poll, choice, voter) under the next id; polls and choices are unchanged; keeps the invariant |
| Database.VotesOf | polls/database.py:99-101 | a vote is in the result exactly when it is in the table and belongs to the poll |
| Database.PollDatabase.GetVotes | polls/database.py:99-101 | returns exactly the vote rows whose poll id is the given id |
| Database.NoChoicesOf | polls/database.py:58-62 | a poll id no row carries has no choices, as for a poll id not yet issued |
| Database.ChoicesOfConcat | polls/database.py:87-89 | filtering the concatenation of two tables is the concatenation of the filtered tables |
| Database.ChoicesOfNew | polls/database.py:58-62 | the rows inserted for a new poll belong to that poll only |
| Tallying.Seeded | polls/pollplugin.py:81-83 | after the first loop every choice id is a key, and no other id is; every entry starts with no voters |
| Tallying.KeyOrder | polls/pollplugin.py:81-83 | the dict's key order lists exactly its keys |
| Tallying.KeyOrderDistinct | polls/pollplugin.py:81-83 | the dict's key order lists each key once, so there is one entry per distinct choice id |
| Tallying.Values | polls/pollplugin.py:88 | list(data.values()) has one entry per key, and every entry is a value of the dict |
| Tallying.SortVoters | polls/pollplugin.py:91-92 | every entry keeps its number and content, and its voter list becomes a sorted permutation of the old one |
| Tallying.Tally | polls/pollplugin.py:76-94 | a successful tally counts every vote row in total_votes and has one entry per key of the dict, that is per distinct choice id |
| Tallying.SeededRows | polls/pollplugin.py:82-83 | with distinct ids every choice row has its own entry with its number and content, and the keys come in row order |
| Tallying.Cast | polls/pollplugin.py:84-86 | a successful second loop keeps the dict's keys |
| Tallying.CastSpec | polls/pollplugin.py:84-86 | the second loop succeeds exactly when every vote names a key; then each entry's voters are its old voters followed by the voters of the votes naming it, in vote order; a failure names an id that is not a key and that some vote names |
| Tallying.CastFailureStays | polls/pollplugin.py:84-86 | once a vote raises KeyError the later votes do not change the outcome |
| Tallying.TallyOfNumberedChoices | polls/pollplugin.py:76-94 | for a poll's rows (distinct ids, numbered 1..n, every vote naming one of its choices) the tally succeeds; total_votes is the number of vote rows and the sum of the voter-list lengths; there is one entry per choice; entry k is choice k+1 with its content and exactly the voters whose vote names it, sorted |
| Tallying.TallyRejectsUnknownChoice | polls/pollplugin.py:86 | the tally fails exactly when some vote names no choice of the poll, and then reports such an id; the vote is not silently dropped |
| Tallying.TallyWithoutVotes | polls/pollplugin.py:80-94 | with no votes the total is 0, there is one entry per distinct choice id, and every voter list is empty |
| Tallying.TallyOrdered | polls/pollplugin.py:88-89 | every successful tally lists its entries in ascending choice number |
| Sorting.SortBy | polls/pollplugin.py:89 | sorting keeps exactly the same elements, with multiplicity |
| Sorting.SortBySorted | polls/pollplugin.py:89 | for a total preorder the sorted list is ordered |
| Sorting.SortByKeepsSorted | polls/pollplugin.py:89 | a list that is already in order is left unchanged |
| Text.LexLeTotal | polls/pollplugin.py:92 | any two strings are comparable in Python's code-point order |
| Text.LexLeTransitive | polls/pollplugin.py:92 | Python's code-point order on strings is transitive |
| Text.Strip | polls/pollplugin.py:115 | the result is a slice of the input; only whitespace is removed around it, and it neither starts nor ends with whitespace |
| Text.StripIdempotent | polls/pollplugin.py:115 | stripping twice is stripping once |
| Text.Split | polls/pollplugin.py:112 | there is one more part than separators, and no part contains the separator |
| Text.JoinSplit | polls/pollplugin.py:112 | joining the parts of a split with the separator gives back the input |
| Text.SplitJoin | polls/pollplugin.py:112 | splitting separator-free parts joined by the separator gives back the parts |
| Text.ParseDecimal | polls/pollplugin.py:180 | int() reads back the decimal text str() writes, for every integer of at most 4300 digits (beyond that str() itself raises ValueError) |
| Text.ParseInt | polls/pollplugin.py:180 | int() accepts a text only when it holds at least one and at most 4300 digits, so a longer numeral is a ValueError; a text holding one of U+001C..U+001F is a ValueError too |
| Text.Decimal | polls/pollplugin.py:247 | str(n) starts with '-' exactly for a negative n, and every other character is a digit |
| Plugin.RemoveSuffix | polls/pollplugin.py:11-14 | a non-empty suffix the string ends with is removed, so that result + suffix is the input; otherwise the input comes back unchanged |
| Plugin.RemoveAppendedSuffix | polls/pollplugin.py:11-14 | removing a non-empty suffix just appended gives back the string |
| Plugin.ParsePollContent | polls/pollplugin.py:110-131 | rejected as missing content exactly for the empty string; rejected as too few options exactly when the content has fewer than two '\|'; otherwise there is one option per '\|' |
| Plugin.StripAll | polls/pollplugin.py:113-115 | one part per raw part, none longer than its raw part, and none starting or ending with whitespace |
| Plugin.ParsePollContentParts | polls/pollplugin.py:112-122 | the question and every option of an accepted content are stripped and contain no '\|' |
| Plugin.ParsePollContentJoin | polls/pollplugin.py:112-122 | a stripped, '\|'-free question with at least two such options comes back unchanged, in order, from its '\|'-joined text |
| Plugin.PollPlugin.CreatePoll | polls/pollplugin.py:110-131 | the handler rejects exactly the contents the parse rejects and then leaves the store unchanged; otherwise it stores one open poll by the sender in the room, with the first part as question and the remaining parts as options in order, advancing the poll id by one and the choice id by the number of options |
| Plugin.CloseDecision | polls/pollplugin.py:139-157 | rejects a missing poll first, then a sender whose stripped id differs from the stripped creator, then an already-closed poll; succeeds exactly for an open poll closed by its creator |
| Plugin.SameUser | polls/pollplugin.py:146 | the creator test compares stripped ids, so an id with surrounding whitespace matches its stripped form either way round |
| Plugin.CloseThenClosed | polls/pollplugin.py:151-157 | after a successful close, when the room's code is unique, the same code finds the same poll closed and a second close is refused as already closed |
| Plugin.PollPlugin.Close | polls/pollplugin.py:139-162 | the outcome is the close decision for a possible lookup of the code; close_poll runs only on success, and only on that poll id; choices, votes and all id counters are unchanged |
| Plugin.VoteDecision | polls/pollplugin.py:170-192 | rejects a missing poll, then a closed one; a choice that int() rejects (including a numeral of more than 4300 digits) gives "valid option", an integer that is not a choice number gives "no such option"; otherwise the chosen id is the poll's choice row for that number |
| Plugin.VoteForNumber | polls/pollplugin.py:178-181 | in an open numbered poll, voting any text int() reads as n (str(n), ' 2', '+2', '02', '0_2') succeeds exactly for 1 <= n <= count and then picks the choice numbered n; any other n gives "no such option" |
| Plugin.PollPlugin.VotePoll | polls/pollplugin.py:170-192 | the outcome is the vote decision for a possible lookup; only success changes the votes, replacing the sender's vote in that poll with one for the chosen id under the next vote id, which then advances by one; polls, choices and the other counters are unchanged; keeps the store and referential invariants |
| Plugin.ResultDecision | polls/pollplugin.py:199-222 | rejects a missing poll, then a non-creator; a successful result comes only for the creator of an existing poll |
| Plugin.Status | polls/pollplugin.py:216 | the status is "open" exactly for an open poll and "closed" exactly for a closed one |
| Plugin.ResultOfConsistentStore | polls/pollplugin.py:199-222 | for the creator of a poll in a consistent store the result is shown: question, "open" or "closed", one entry per choice, the total counting every listed vote, each share between 0 and 1, and the shares adding up to 1 once someone voted |
| Plugin.PollPlugin.PollResult | polls/pollplugin.py:199-222 | the outcome is the result decision for a possible lookup of the code |
| Plugin.FirstWithNumber | polls/pollplugin.py:245-246 | the index of the first entry with the option number, or the length when no entry has it |
| Plugin.PingHeader | polls/pollplugin.py:247 | the header starts with "**Option " and does not end in ", ", so removing the suffix never cuts into it |
| Plugin.Accumulated | polls/pollplugin.py:248-249 | the loop leaves the message empty exactly when there is no voter, and otherwise ending in ", " |
| Plugin.PingReply | polls/pollplugin.py:247-250 | without voters the reply is the header alone; otherwise it is the accumulated message with its last ", " removed |
| Plugin.PingDecision | polls/pollplugin.py:231-255 | rejects a missing poll, then a non-creator; an option int() rejects gives "valid option"; success needs an integer option |
| Plugin.PingReplyJoins | polls/pollplugin.py:245-250 | the reply is the header followed by the voters joined by ", ", with no trailing separator |
| Plugin.PingOfConsistentStore | polls/pollplugin.py:231-255 | for the creator of a poll in a consistent store, pinging any text int() reads as n answers with choice n's header and its sorted voters joined by ", " exactly when 1 <= n <= count; any other number gives "valid option", not an empty list |
| Plugin.PollPlugin.PingPoll | polls/pollplugin.py:231-255 | the outcome is the ping decision for a possible lookup of the code |
| Plugin.PollPlugin.SortChoices | polls/pollplugin.py:76-94 | the imperative _sort_choices computes the tally of the poll's choice and vote rows, including the KeyError case |
| Plugin.SeedChoices | polls/pollplugin.py:81-83 | the first loop builds the dict after the first loop, with its keys in insertion order |
| Plugin.CastVotes | polls/pollplugin.py:84-86 | the second loop counts every vote and appends its voter, or stops with the id of the first vote the dict has no key for |
| Plugin.SortVoterLists | polls/pollplugin.py:91-92 | the third loop sorts every entry's voter list and changes nothing else |
| Plugin.FindNumber | polls/pollplugin.py:245-246 | the loop over the tallied choices stops at the first one with the option number |
| Plugin.PingMessage | polls/pollplugin.py:247-250 | once ", " is removed, the message built in the loop is the header followed by the voters joined by ", " |
| Plugin.ConsistentTally | polls/pollplugin.py:76-86 | in a store whose votes name choices of their own polls, a poll's rows have distinct ids and every vote names one of its choices, so the tally's KeyError cannot occur |
| Plugin.PollPlugin.constructor | polls/pollplugin.py:61-62 | a plugin starts over an empty store that satisfies the invariants |
| Plugin.UnvotedResultFails | polls/pollplugin.py:43 | a poll with a choice and no votes tallies to total 0, and the share computation as written fails for it |
| Plugin.SharesAsWritten | polls/pollplugin.py:43 | the written division fails exactly when there is a choice and the total is 0; otherwise each share times the total is that choice's vote count |
| Plugin.Shares | polls/pollplugin.py:43 | one share per entry: 0 when nobody voted, otherwise the entry's vote count divided by the total |
| Plugin.SharesAgree | polls/pollplugin.py:54 | wherever the written division does not fail, the corrected shares equal it |
| Plugin.SharesBounded | polls/pollplugin.py:54 | when the total counts every listed vote, each share lies between 0 and 1 |
| Plugin.SharesSumToOne | polls/pollplugin.py:54 | when the total counts every listed vote and is not 0, the shares add up to 1 |

## Left out

- Matrix transport: `evt.respond`, `client.send_text` and `_send_temporary_response` with its sleep, power-level lookup and redactions. A handler returns its outcome instead of sending a reply.
- The HTML and plain-text message builders are not modelled, and neither is their `'{:.0%}'` float rounding. The ratio `len(choice.votes) / total_votes` they format is modelled twice: as written, by `SharesAsWritten`, and corrected, by `Shares` (see "## Findings").
- Plugin.ResultDecision: its result uses the corrected `Shares`. For a poll without votes it returns `Success`, while the source raises ZeroDivisionError at polls/pollplugin.py:54 (line 219 evaluates that builder first) and shows nothing. This is the first row of "## Findings".
- Plugin.PollPlugin.PollResult: follows `ResultDecision`, so it shows a poll without votes where the source raises ZeroDivisionError.
- Plugin.ResultOfConsistentStore: its result for a poll without votes is the corrected one, not the ZeroDivisionError of the source.
- Plain-text poll messages number options from 0, while votes address them from 1. That is presentation and is not modelled.
- `create_poll`'s rejection reply at polls/pollplugin.py:117 is never awaited, so it is never sent. The model only records the rejection.
- Schema creation and engine binding (polls/database.py:21-48) become the constructor of three empty tables. String column widths are not enforced, as in SQLite.
- SELECTs whose order the SQL leaves open return rows in table order. Autoincrement ids are counters that are never reused. SQLite may reuse the highest rowid after that row is deleted.
- `random.SystemRandom` becomes the `draw` parameter. The index is reduced modulo 36; uniformity is not modelled.
- No uniqueness check for codes exists in the source, and none is modelled. `Plugin.CloseThenClosed` assumes the room's code is unique.
- Concurrency: set_vote's delete-then-insert is modelled as one sequential step.
- Storage errors: the `try`/`except` around `close_poll` (polls/pollplugin.py:156-162) catches failures of the database engine, which is not modelled. In the model `close_poll` always succeeds.
- `int()` is modelled for ASCII digits, with an optional sign, surrounding whitespace and single underscores between digits. The surrounding whitespace is every `str.isspace()` character except the information separators U+001C..U+001F, which `int()` rejects. Non-ASCII decimal digits, which Python also accepts, are not modelled.
- Text.ParseInt: applies CPython's default limit of 4300 digits (Python 3.11 and later, and the 3.7.14, 3.8.14, 3.9.14 and 3.10.7 releases). Older Python has no limit, and a limit changed with `sys.set_int_max_str_digits` is not modelled.
- Text.Decimal: does not model the ValueError `str()` raises for more than 4300 digits. The only number it formats is an option `int()` has read, and that has at most 4300 digits.
- Whitespace for `strip()` is the set `str.isspace()` accepts. The characters are listed explicitly, so no Unicode database is involved.
- polls/types.py is not part of this model. `Poll` and the tally `Entry` are defined from their uses. `choice.number[0]` (polls/pollplugin.py:52, 246) is read as the choice number. `poll.code`, which is read at polls/pollplugin.py:153 but never set by get_poll, is not modelled.
- maubot's command decorators and argument parsing are not modelled. Each handler receives its argument strings directly.
- Plugin.PingDecision: its own ensures do not say which reply an integer option gets. Plugin.PingOfConsistentStore states that reply for consistent stores, for every option text `int()` reads as the number.

## Findings

| source | as written | input that shows it | evidently intended | confidence | as-written member | corrected member |
|---|---|---|---|---|---|---|
| polls/pollplugin.py:43 | each choice's share is `len(choice.votes) / total_votes`, computed for every choice even when `total_votes` is 0 | `!poll result <code>` by the creator of a freshly created poll with two options and no votes: the division raises ZeroDivisionError, so no result is shown | a poll nobody has voted in shows every share as 0 | not executed | Plugin.UnvotedResultFails | Plugin.Shares |
| polls/pollplugin.py:54 | the plain-text result builder makes the same division by `total_votes` | the same unvoted poll | every share is 0 when the total is 0 | not executed | Plugin.UnvotedResultFails | Plugin.Shares |
