# mcp-schedule crontab manager: a Dafny model

`mcp-schedule` is a small server and command-line tool that manages the user's crontab.
It adds jobs tagged with the comment `mcp`, lists jobs (all of them, or only the `mcp` ones),
and deletes jobs by command or by comment, with a preview mode. A schedule expression is
accepted when it already has the five-field cron shape. Otherwise it goes through a
one-entry phrase table (`"every day at 5pm"` becomes `0 17 * * *`).

The model holds the crontab as a sequence of jobs `Job(schedule, command, comment)` in a
`CronTable` object. Writing the crontab back is modelled as replacing that sequence. The modules are:

- `Wrappers` (wrappers.dfy): `Option`, `Result` and the error kinds. It also defines `Given`,
  Python's truthiness of an optional string filter (`None` and `""` both count as absent).
- `Text` (text.dfy): longest-prefix spans, `" ".join`, the substring test `sub in s`, and ASCII
  lower-casing with a case-insensitive comparison to check it against.
- `CronExpr` (cron_expr.dfy): the cron-shape regex `^([\d*/,-]+\s+){4}[\d*/,-]+$` under
  `re.match`, `parse_human_to_cron`, and the normaliser (regex first, then the phrase table).
  The recognizer `MatchGroups` takes the longest run at each step. That is exact, because the
  field class and `\s` share no character. `VerbatimIff` proves that it accepts exactly five
  field runs separated by whitespace runs, optionally followed by one final newline (Python's `$`
  also matches before a trailing newline).
- `Entry` (entry.dfy): `ScheduleEntry`, `to_crontab` and `from_crontab_line`. The tokenizer is
  the whitespace splitting of `shlex.split`.
- `Seqs` (seqs.dfy): order-preserving filtering, and the removal loop `for x in xs: s.remove(x)`.
- `Repository` (repository.dfy): `add_schedule`, `get_schedules`, `delete_schedules` and the
  `POST /schedule` flow, as methods of `CronTable`, with the functions that specify them.

Properties proved include:
- `0 17 * * *` is itself cron-shaped, so every accepted schedule has the cron shape.
- Normalising twice gives the same result as normalising once.
- Listing keeps table order.
- Delete matches by command OR comment.
- Preview reports a count of 0 and leaves the table as it was.
- A real delete leaves exactly the unmatched jobs, in order, and reports how many it matched.

The file `mcp-schedule/chat_gpt/mcp_schedule_server.py` is the same program without delete.
Its lines 1-85 are the main file's lines 1-85. Its lines 87-134 are the main file's lines
105-130, 143-160 and 177-178. The one model covers both files (for the copy, leave out
`DeleteSchedules` and `MatchJobs`). Some rows below cite the copy's lines. The CLI `add`
command (main file 149-160) runs the same flow as the route, so `ScheduleJob` models both.

The system's design notes state a few behaviours that the code does not have. The model follows the code:
- The design notes say the cron fields are separated by single spaces and the last field is
  "unanchored". The regex takes any run of `\s` characters and is anchored by `$`.
- The design notes say an entry survives a round trip through its crontab line, managed flag
  included. It does not:
  - `to_crontab` never writes the marker, so `RoundTripDropsManagedFlag` shows that decoding the
    line gives an unmanaged entry.
  - A stored managed job's line ends in ` # mcp`. `MarkedLineKeepsMarkerInCommand` shows that
    decoding that line sets the flag but also appends `# mcp` to the command.
- The design notes say preview returns the count. The code returns 0 as the count in preview.

## Model

| member | source | states |
|---|---|---|
| `CronExpr.IsCronExpression` | mcp-schedule/mcp_schedule_server.py:109 | the regex `^([\d*/,-]+\s+){4}[\d*/,-]+$` under `re.match`: the recognizer accepts the string, or the string minus one final newline; an accepted expression starts with a digit or one of `* / , -` |
| `CronExpr.VerbatimIff` | mcp-schedule/mcp_schedule_server.py:109-110 | an expression is used verbatim iff it is five non-empty runs of `0-9 * / , -` separated by four non-empty whitespace runs, with nothing before or after except possibly one final newline |
| `CronExpr.FullMatchIff` | mcp-schedule/chat_gpt/mcp_schedule_server.py:91-92 | the greedy recognizer of `([\d*/,-]+\s+){4}[\d*/,-]+` accepts exactly the strings that split into five field runs and four whitespace runs |
| `CronExpr.SplitGroups` | mcp-schedule/mcp_schedule_server.py:152-153 | every string the recognizer accepts comes apart into field runs and whitespace runs that interleave back to it |
| `CronExpr.SplittingMatches` | mcp-schedule/chat_gpt/mcp_schedule_server.py:123-124 | every interleaving of field runs with whitespace runs is accepted by the recognizer |
| `CronExpr.ParseHumanToCron` | mcp-schedule/mcp_schedule_server.py:53-58 | succeeds iff the expression is `every day at 5pm` up to letter case, then returns `0 17 * * *`; otherwise fails with InvalidExpression |
| `Text.Lower` | mcp-schedule/mcp_schedule_server.py:56 | `expression.lower()` on ASCII letters: the result has no capital letter and the input is the result with some letters capitalised |
| `Text.LowerIffIgnoringCase` | mcp-schedule/chat_gpt/mcp_schedule_server.py:56 | lower-casing a string gives a given lower-case text iff the string is that text with some letters capitalised |
| `CronExpr.DailyAt5pmCronIsCron` | mcp-schedule/chat_gpt/mcp_schedule_server.py:57 | the schedule the phrase table returns has the cron shape itself |
| `CronExpr.Normalize` | mcp-schedule/mcp_schedule_server.py:109-112 | a cron-shaped expression is returned unchanged; otherwise the known phrase (any case) gives `0 17 * * *` and anything else InvalidExpression; every result is cron-shaped |
| `CronExpr.NormalizeIdempotent` | mcp-schedule/chat_gpt/mcp_schedule_server.py:91-94 | normalising an accepted schedule again returns it unchanged |
| `Entry.ToCrontabTokens` | mcp-schedule/mcp_schedule_server.py:39-40 | `to_crontab` writes the schedule, one space and the command, and no marker: the line's tokens are the schedule's tokens followed by the command's |
| `Text.Join` | mcp-schedule/mcp_schedule_server.py:47-48 | `" ".join(parts)`: empty for no parts, the part itself for one, and it always starts with the first part |
| `Entry.Tokenize` | mcp-schedule/mcp_schedule_server.py:44 | tokens are non-empty and whitespace-free, and together hold exactly the line's non-whitespace characters in order |
| `Entry.TokenizeIff` | mcp-schedule/mcp_schedule_server.py:44 | the tokens are exactly the maximal whitespace-free runs: `Tokenize(s) == ts` iff `s` is the words `ts` separated by whitespace gaps, possibly empty before the first and after the last word and non-empty between words |
| `Entry.Gaps` | mcp-schedule/chat_gpt/mcp_schedule_server.py:44 | every line is its tokens woven with whitespace gaps, non-empty between tokens |
| `Entry.LayoutTokenizes` | mcp-schedule/chat_gpt/mcp_schedule_server.py:44 | words laid out with whitespace gaps tokenise back to exactly those words, whatever the whitespace (tabs, repeated spaces, leading or trailing) |
| `Entry.TokenizeJoin` | mcp-schedule/chat_gpt/mcp_schedule_server.py:44 | tokenising words joined by single spaces gives back the same words |
| `Entry.FromCrontabLine` | mcp-schedule/mcp_schedule_server.py:43-50 | fails with InvalidLine iff the line has fewer than 6 tokens; otherwise the schedule is the first 5 tokens and the command the rest, each joined by single spaces (re-tokenising gives those tokens back); managed iff the line contains `# mcp` |
| `Text.Contains` | mcp-schedule/chat_gpt/mcp_schedule_server.py:49 | `sub in s` holds iff `sub` occurs in `s` at some index |
| `Entry.DecodeJoined` | mcp-schedule/chat_gpt/mcp_schedule_server.py:43-50 | a line of five schedule words and at least one command word decodes to exactly those schedule and command texts, managed iff the line contains the marker |
| `Entry.RoundTrip` | mcp-schedule/mcp_schedule_server.py:39-50 | for a schedule and command made of plain tokens, decoding `to_crontab(e)` gives back `e.schedule` and `e.command`; the managed flag is whether that text contains `# mcp` |
| `Entry.RoundTripDropsManagedFlag` | mcp-schedule/mcp_schedule_server.py:39-49 | `to_crontab` never emits the marker: for a `#`-free entry of plain tokens, decoding its line gives the same entry but unmanaged |
| `Entry.MarkedLineKeepsMarkerInCommand` | mcp-schedule/chat_gpt/mcp_schedule_server.py:44-49 | decoding `to_crontab(e) + " # mcp"` gives a managed entry whose command has `# mcp` appended |
| `Wrappers.Given` | mcp-schedule/mcp_schedule_server.py:88 | Python truthiness of an optional filter: absent exactly when it is None or the empty string |
| `Repository.ToEntry` | mcp-schedule/mcp_schedule_server.py:72 | the entry built from a job carries its schedule and command and is managed iff the job's comment is `mcp` |
| `Repository.Selects` | mcp-schedule/mcp_schedule_server.py:94 | with neither filter given no job is selected; a given command filter equal to the job's command, or a given comment filter equal to its comment, selects it; a selected job equals one of the filters |
| `Repository.CronTable.constructor` | mcp-schedule/mcp_schedule_server.py:61 | the table holds the loaded jobs |
| `Repository.CronTable.AddSchedule` | mcp-schedule/mcp_schedule_server.py:60-64 | the table becomes the old table plus one job at the end carrying the entry's schedule and command and comment `mcp`; earlier jobs are unchanged |
| `Repository.CronTable.GetSchedules` | mcp-schedule/mcp_schedule_server.py:66-73 | the entries returned are the listing of the table for the `mcp_only` setting; the table is not changed |
| `Repository.ListingAppend` | mcp-schedule/mcp_schedule_server.py:69-73 | listing keeps table order: the listing of a concatenation is the concatenation of the listings |
| `Repository.ListingAllJobs` | mcp-schedule/chat_gpt/mcp_schedule_server.py:69-72 | without `mcp_only` there is one entry per job, in order, with the job's schedule and command, managed iff its comment is `mcp` |
| `Repository.ListingManagedOnly` | mcp-schedule/mcp_schedule_server.py:70-72 | with `mcp_only` the listing is that of exactly the jobs whose comment is `mcp`, in order, all marked managed |
| `Repository.ListingAfterAdd` | mcp-schedule/chat_gpt/mcp_schedule_server.py:60-73 | after adding an entry, every listing is the old listing followed by that entry marked managed |
| `Repository.CronTable.MatchJobs` | mcp-schedule/mcp_schedule_server.py:91-95 | returns the table's jobs, in order, whose command equals the command filter or whose comment equals the comment filter |
| `Repository.MatchedMembership` | mcp-schedule/mcp_schedule_server.py:93-95 | a job is matched iff it is in the table and its command equals a given non-empty command or its comment a given non-empty comment (a union); a job remains iff it is in the table and not matched |
| `Repository.MatchedSplitsTable` | mcp-schedule/mcp_schedule_server.py:92-95 | matched and remaining jobs keep table order and together are the table, job for job |
| `Seqs.RemoveFirst` | mcp-schedule/mcp_schedule_server.py:101 | `cron.remove(job)` on values: the table is unchanged when the job is absent, otherwise one element shorter, and its multiset loses exactly one copy of the job |
| `Seqs.RemoveEach` | mcp-schedule/mcp_schedule_server.py:100-101 | removing each element of `xs` in turn takes away the multiset of `xs` from the table's multiset |
| `Seqs.RemoveEachFiltered` | mcp-schedule/mcp_schedule_server.py:100-101 | removing, one by one, the first occurrence of each element a filter selected leaves exactly the others, in order |
| `Repository.RemoveMatchedLeavesRemaining` | mcp-schedule/mcp_schedule_server.py:100-103 | calling remove for each matched job leaves the table minus the matched jobs, order kept |
| `Repository.CronTable.DeleteSchedules` | mcp-schedule/mcp_schedule_server.py:87-103 | with neither filter given (None or empty) fails with InvalidArgument and leaves the table; otherwise returns the match set; in preview the count is 0 and the table is unchanged, else the table becomes the unmatched jobs in order and the count is the number matched |
| `Repository.ListingAfterDeletingManaged` | mcp-schedule/mcp_schedule_server.py:94-103 | after deleting by the comment `mcp`, the managed-only listing is empty |
| `Repository.CronTable.ScheduleJob` | mcp-schedule/mcp_schedule_server.py:106-117 | fails with InvalidExpression, adding nothing, iff the expression is neither cron-shaped nor the known phrase; on success appends one `mcp` job with the normalised schedule and returns `schedule + " " + command`, which for a cron-shaped expression is the expression itself |

## Left out

- Crontab I/O: `CronTab(user=True)` loading and `cron.write()` are the constructor and the replacement of `jobs`. File and permission failures are not modelled, and neither are the errors the routes report for them.
- python-crontab internals:
  - The library's slice parsing and validation in `job.setall` is not modelled. Every cron-shaped schedule is stored, including out-of-range ones such as `99 * * * *` and malformed fields the regex admits such as `,`, `-` or `*/*`, where the library may raise.
  - `str(job.slices)` is taken to give back the stored schedule verbatim.
  - `cron.remove(job)` is modelled as removing the first job equal to it.
  - Whole-line rendering of a job is not modelled.
- `shlex.split` quoting, escapes and its "No closing quotation" error: the tokenizer splits on shlex's whitespace (space, tab, CR, LF) only.
- Entry.RoundTrip: stated only for schedules and commands made of plain tokens (no whitespace, quotes or backslashes), because quoting is not modelled. Entry.RoundTripDropsManagedFlag and Entry.MarkedLineKeepsMarkerInCommand carry the same restriction.
- `\d` in the regex: only ASCII digits are modelled. Python also accepts other Unicode decimal digits. `\s` is modelled in full, as the characters for which `str.isspace()` holds.
- `str.lower()`: only ASCII letters are lower-cased. For this phrase the outcome is the same as Python's. The only non-ASCII characters whose lower case contains an ASCII letter are U+0130, which lower-cases to the two code points `i` U+0307, and U+212A, which lower-cases to `k`. The phrase contains neither `i` nor `k`.
- Error messages: only the error kind is kept. `str(e)` texts are not.
- `MCPSettings` loading from the environment or `.env`: `mcp_only` is a parameter of `GetSchedules`. `transport` only selects rendering.
- Presentation glue:
  - the `GET /schedules` route with its plain-text stream and server-sent events;
  - `display_schedules` and the CLI `list`;
  - the `DELETE /schedule` route, which returns the count and the matched jobs converted with `ToEntry` (the conversion `get_schedules` uses);
  - the CLI `delete`, which prints each matched job as python-crontab renders it (`str(job)`), and in preview prints the number of matched jobs (`len(matched)`) instead of the returned count;
  - FastAPI, typer and async.
- Concurrent access to the crontab: each operation is modelled as one atomic step on the table.
