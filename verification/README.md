# BreakoutAI mailer — a Dafny model

BreakoutAI is a Streamlit page (`main.py`) that sends a personalised email
to each row of a recipient table, plus a small Flask service (`track.py`)
that records which recipients opened their email. This project models the
core of that program in Dafny and proves properties of the model:

- **Text** (`text.dfy`): Python's `str.replace` for a non-empty needle. It
  scans left to right and replaces non-overlapping occurrences. `find` serves
  as its leftmost-occurrence reference.
- **Template** (`template.dfy`): personalising one message. The tracking
  beacon `<img src='http://127.0.0.1:5001/track/<email>' …>` is appended to
  the body. Then, for each table column in order, `{{column}}` is replaced by
  the row's cell in both the subject and the body.
- **Schedule** (`schedule.dfy`): the optional `HH:MM` send time.
  - The regular expression `^(2[0-3]|[01]?[0-9]):([0-5]?[0-9])$` is modelled
    both as written (with `re.match`) and as a whole-string match.
  - `strptime(…, "%H:%M")` is modelled.
  - So is the wait before the first send: the later of the scheduled moment
    and now.
- **Throttle** (`throttle.dfy`): the per-email pause `60 / emails_per_minute`.
  Its zero-rate division error is modelled.
- **Ledger** (`ledger.dfy`): the session's status records
  `[company, email, status, delivery, opened]`, and the settling of the last
  record from the transport's answer.
- **Dispatch** (`dispatch.dfy`):
  - The per-row loop that both send buttons share. A row lacking
    `company_name` or `email` raises, and the remaining rows are abandoned.
    A failed or raising send marks its own row Failed/Bounced and the loop
    carries on.
  - "Send Emails": checks the time as written, then the credentials, then
    parses the time, waits, and runs the loop.
  - "Send with Throttling": computes the delay first, then checks the
    credentials, then runs the loop with a pause after every row.
- **Analytics** (`analytics.dfy`): the totals, the response rate (as written
  and as intended), and the dashboard refresh. The refresh merges the tracker's opened-address map into
  the ledger.
- **Tracking** (`track.py` → `tracking.dfy`): the opened-address store, seen
  as a request handler. A beacon fetch marks an address "Yes". A status query
  returns the store. A reset sets every known address to "No" and keeps the
  keys.

Inputs that the program reads from the outside world are parameters of the
model:

- the transport's answer for each row, as a sequence of `Outcome`s;
- whether a Mailjet client was built;
- the current instant, as whole seconds;
- the chosen day, as a day number;
- the tracker's snapshot.

Where the code and its evident intent disagree, the model follows the code:

- The dashboard refresh marks a record opened when its address is a *key* of
  the tracker's map (`main.py:356`). A reset keeps the keys, so it does not
  revert opens on the next refresh (`Analytics.MergeIgnoresReset`).
- The response rate counts opened records of any status over Sent records
  (`main.py:328-336`), and the metrics table uses it (`Analytics.Summarize`).
  It can exceed 100 once records of other statuses are marked opened (see
  Findings). As written that never happens yet: `opened_emails` is never
  bound, so the refresh at `main.py:356` raises `NameError` at the first
  record and no record is ever marked opened (an empty ledger shows an empty
  table). The excess stays latent until the refresh reads the
  tracker's map.
- The time check is `re.match` with `$`, which also accepts a time followed
  by one newline. With credentials, such a time then fails in `strptime`
  inside the outer `try`, and the generic error is shown before any row is
  handled (`Dispatch.NewlineTimeAborts`). Whether the page's single-line
  text input can deliver such a newline at all is outside the model.
- The throttled button ignores the scheduled time entirely.
- With no Mailjet API key or secret, `mailjet` is never bound. Every send
  then raises `NameError` inside the per-row `try`, so every row is recorded
  Failed/Bounced.
- A zero per-minute rate raises `ZeroDivisionError` at `main.py:245`, outside
  any `try`, while the page is drawn. The throttled button is never drawn, so
  nothing is sent by it. "Send Emails" is drawn and handled earlier
  (`main.py:143-223`), so it is unaffected and still sends and records. The
  analytics and dashboard (`main.py:319-369`) are never drawn while the rate is
  zero.

## Model

| member | source | states |
|---|---|---|
| `Text.Replace` | main.py:174-175 | Python's `str.replace` for a non-empty needle: a left-to-right scan that replaces non-overlapping occurrences and never rescans a replacement; its behaviour is stated by the `Text` lemmas below |
| `Text.ReplaceAtFind` | main.py:174-175 | `replace` keeps the text before the leftmost occurrence, puts the replacement in its place, and carries on with the text after the needle |
| `Text.ReplaceWithoutFind` | main.py:174-175 | when `find` reports no occurrence, `replace` returns the text unchanged |
| `Text.ReplaceAbsent` | main.py:174-175 | text in which the needle does not occur at all comes back from `replace` unchanged |
| `Text.ReplaceBySelf` | main.py:174-175 | replacing a needle by itself is the identity |
| `Text.ReplaceSkip` | main.py:174-175 | a lead-in that never contains the needle's first character passes through `replace` untouched, and the rest is replaced independently |
| `Text.ReplaceKeepsPrefix` | main.py:174-175 | a lead-in at none of whose positions an occurrence of the needle starts passes through `replace` untouched, and the scan resumes right after it |
| `Text.ReplaceWhole` | main.py:174-175 | a text that is exactly the needle becomes exactly the replacement |
| `Template.Placeholder` | main.py:172 | fixes the placeholder of a column as the column name between `{{` and `}}`; no contract of its own, its shape is used by the placeholder lemmas below |
| `Template.Cell` | main.py:173 | fixes `row.get(column, '')`: the row's cell for a column it has, the empty string for one it lacks; no contract of its own |
| `Template.TrackingUrl` | main.py:164 | fixes the beacon address as `http://127.0.0.1:5001/track/` followed by the recipient's email; no contract of its own |
| `Template.WithBeacon` | main.py:164-169 | the beaconed body starts with the body, followed by `<br><img src='`, followed by the recipient's tracking address |
| `Template.Render` | main.py:171-175 | the left fold over the columns, in table order, of replacing `{{column}}` by the row's cell (empty for a missing column); its behaviour is stated by the `Template` lemmas below |
| `Template.Compose` | main.py:164-175 | the message is addressed to the given email; a subject without `{{` is sent as written, and so is a beaconed body without `{{` |
| `Template.ComposeUntouched` | main.py:164-175 | a subject and beaconed body that contain no column's placeholder are sent verbatim, addressed to the row's email |
| `Template.RenderFold` | main.py:171-175 | substituting over a concatenation of column lists is substituting over the first list, then over the second |
| `Template.RenderUntouched` | main.py:171-175 | if no column's placeholder occurs in the text, personalisation leaves it unchanged |
| `Template.RenderPlainText` | main.py:171-175 | text without `{{` is unchanged, whatever the columns and the row |
| `Template.PlaceholderDistinct` | main.py:172 | for two different column names without braces, one's placeholder never occurs inside the other's |
| `Template.UnknownPlaceholderAlone` | main.py:171-175 | a text that is just a placeholder naming no column comes back unchanged, when the column names are brace-free |
| `Template.PlaceholderStartsApart` | main.py:172 | an occurrence of one brace-free placeholder cannot start strictly inside an occurrence of another |
| `Template.PlaceholdersApart` | main.py:172 | occurrences of the placeholders of two different brace-free columns never overlap, in any text |
| `Template.ReplaceKeepsPlaceholder` | main.py:172-175 | replacing one column's placeholder keeps every occurrence of another brace-free column's placeholder |
| `Template.UnknownPlaceholderKept` | main.py:171-175 | wherever it stands in the text, a placeholder that names no column still occurs after personalisation, when the column names are brace-free |
| `Template.PlaceholderFilled` | main.py:171-175 | the placeholder of a table column renders as the row's cell for that column, when the column names are brace-free and the cell holds no `{{` |
| `Template.RenderGreeting` | main.py:171-175 | `Hi {{company_name}}` with columns `email, company_name` and company `Acme` renders as `Hi Acme` |
| `Schedule.ValidTime` | main.py:138 | the whole-string match of the time pattern; a matching string is three to five characters long |
| `Schedule.MatchesTimePattern` | main.py:138-139 | the check as written accepts every whole-string match, and nothing longer than six characters or shorter than three |
| `Schedule.HourGroupMeaning` | main.py:138 | the hour group, `2[0-3]` or `[01]?[0-9]`, accepts exactly the one- or two-digit strings of value 0-23 |
| `Schedule.MinuteGroupMeaning` | main.py:138 | the minute group `[0-5]?[0-9]` accepts exactly the one- or two-digit strings of value 0-59 |
| `Schedule.ValidTimeMeaning` | main.py:138-139 | a string fully matches the time pattern if and only if it is an hour 0-23, a colon and a minute 0-59 |
| `Schedule.ParseTime` | main.py:148 | on every string the time check at main.py:139 lets through, `strptime` succeeds exactly on the fully matching ones; its hour is at most 23 and its minute at most 59, read from the digits either side of the colon |
| `Schedule.ParseFormat` | main.py:148 | every clock written `H:M` passes the check and parses back to the same clock |
| `Schedule.TimeExamples` | main.py:138-140 | `24:00`, `29:00` and `7:60` are rejected; `7:5` and `23:59` are accepted and parse as 7:05 and 23:59 |
| `Schedule.TrailingNewlineSlipsThrough` | main.py:138-148 | `7:05` followed by a newline passes the check as written, fails the full match, and does not parse |
| `Schedule.PatternBeyondValid` | main.py:138-148 | the only strings that pass the check as written but do not parse are a parseable time followed by one newline |
| `Schedule.Wait` | main.py:152-157 | sending starts at the later of the target and now; the wait is positive exactly when the target is in the future |
| `Schedule.Moment` | main.py:148 | `datetime.combine(day, clock)` as whole seconds: the day number times 86400 plus the clock's seconds, so a clock of at most 23:59 falls within its own day |
| `Schedule.ScheduleWait` | main.py:146-157 | with no time there is no wait; otherwise, on every string the time check lets through, the wait succeeds exactly on a fully matching time and ends at that time on the chosen day, or at once if that moment has passed |
| `Throttle.Delay` | main.py:243-245 | a zero per-minute rate is a division error; otherwise the delay times the rate is 60 seconds, between 1 and 60 seconds |
| `Throttle.TotalPauseOfUniform` | main.py:305-306 | `n` equal pauses of `d` seconds add up to `n*d`, which is at least the `(n-1)*d` needed between `n` sends |
| `Throttle.RepeatedIsProduct` | main.py:305-306 | `n` pauses of `d` seconds, one after another, take `n*d` seconds |
| `Throttle.TotalPauseRepeated` | main.py:305-306 | a run of equal pauses adds up to that pause repeated once per element |
| `Ledger.Pending` | main.py:199 | fixes the record appended for a row before its send: company, email, Scheduled, N/A and not opened; no contract of its own |
| `Ledger.Settle` | main.py:204-212 | settling keeps the length and every earlier record; the last record keeps company, email and opened flag, and becomes Sent/Delivered exactly on a 200 answer, Failed/Bounced otherwise |
| `Dispatch.Reachable` | main.py:160-162 | the loop handles rows up to, not including, the first row lacking `company_name` or `email`; every row before it has both |
| `Dispatch.UniformAllOrNothing` | main.py:160-162 | when every row has the same columns, as `df.iterrows()` gives them, the loop handles either no row or every row |
| `Dispatch.Attempt` | main.py:203-212 | the transport's answer counts as a 200 exactly when a client exists and the transport answered 200; with no client the send raises |
| `Dispatch.Settled` | main.py:199-212 | a handled row's record holds its company and email, is Sent/Delivered exactly on a 200 answer and Failed/Bounced otherwise, and is not marked opened |
| `Dispatch.Book` | main.py:199-212 | appending a Scheduled record and then settling it is the same as appending the settled record |
| `Dispatch.MessageFor` | main.py:164-196 | the payload's To, Subject and HTMLPart for a handled row: the composed message, addressed to that row's email |
| `Dispatch.Records` | main.py:160-212 | one record per handled row, in table order |
| `Dispatch.RecordsAt` | main.py:199-212 | record `k` holds row `k`'s company and address, settled from the `k`-th answer |
| `Dispatch.BookThenRecords` | main.py:160-212 | booking the first row, then the rest, appends the records of all rows |
| `Dispatch.Run` | main.py:159-221 | the loop runs to the end exactly when every row is addressable; the ledger becomes the old ledger followed by the handled rows' records; one message composed per handled row |
| `Dispatch.RunRecords` | main.py:199-212 | after the loop, earlier records are untouched and record `|ledger|+k` is row `k`'s settled record |
| `Dispatch.RunMessages` | main.py:160-196 | composed message `k` is personalised from row `k` and addressed to that row's email |
| `Dispatch.RunPaced` | main.py:251-306 | the throttled loop does exactly what the plain loop does, and pauses `delay` seconds once per handled row |
| `Dispatch.HasCredentials` | main.py:144 | fixes the credentials test, repeated at main.py:249, as both the sender address and the app password being non-empty; no contract of its own |
| `Dispatch.TimeAccepted` | main.py:139 | fixes when the send button is shown: the time is empty or passes the check as written (`re.match`, which also lets a final newline through); no contract of its own |
| `Dispatch.SendNow` | main.py:137-223 | a time failing the check as written shows an error and sends nothing; missing credentials send nothing; a time that passes the check but does not parse aborts before any row; otherwise the ledger and the messages composed are the loop's, the wait is the scheduled one, and the notice is success exactly when every row was handled and the error otherwise |
| `Dispatch.NewlineTimeAborts` | main.py:138-148 | `7:05` followed by a newline leaves the ledger untouched: with credentials the send aborts with the generic error, without them the operator is asked for credentials |
| `Dispatch.SendThrottled` | main.py:243-316 | a zero rate sends nothing; missing credentials send nothing; otherwise the ledger and the messages composed are the loop's, with one pause of `60/rate` seconds per handled row, no wait, and success exactly when every row was handled |
| `Dispatch.ThrottledPauseTotal` | main.py:243-306 | the throttled send spends one `60/rate`-second pause per handled row, in total the number of handled rows times `60/rate` |
| `Dispatch.HourlyLimitUnused` | main.py:244 | the per-hour limit has no effect on the throttled send |
| `Dispatch.ButtonsAgree` | main.py:252-303 | for a time that parses, both buttons leave the same ledger and compose the same messages |
| `Dispatch.AllReachable` | main.py:160-162 | when every row has both fields, every row is handled |
| `Dispatch.FailuresDoNotStop` | main.py:201-212 | a failed or raising send does not stop the loop; row `k` is Sent exactly when a client exists and the answer was 200, and Failed otherwise |
| `Analytics.CountStatus` | main.py:323-325 | the number of records in a status is at most the number of records |
| `Analytics.CountOpened` | main.py:328 | the number of records marked opened is at most the number of records |
| `Analytics.CountOpenedSent` | main.py:328-331 | the number of opened Sent records is at most the number of records |
| `Analytics.StatusPartition` | main.py:322-325 | Scheduled, Sent and Failed records add up to the total, so the pending count is the Scheduled count |
| `Analytics.OpenedSentBounds` | main.py:323-331 | opened Sent records number no more than the Sent records or the opened records |
| `Analytics.Percent` | main.py:334-336 | the percentage is 0 for a zero denominator, otherwise `part*100/whole`, non-negative, and at most 100 when the part is within the whole |
| `Analytics.ResponseRateAsWritten` | main.py:328-336 | the rate as written: opened records of any status, times 100, over Sent records; 0 when nothing was sent |
| `Analytics.RateAsWrittenExceedsHundred` | main.py:328-336 | a rerun that leaves one Sent and one Failed record for an opened address reads a 200% response rate |
| `Analytics.ResponseRate` | main.py:333-336 | the intended rate: opened Sent records over Sent records, always between 0 and 100 |
| `Analytics.RatesAgreeWhenOnlySentOpened` | main.py:328-336 | where only Sent records are marked opened, the two rates coincide |
| `Analytics.OpenedOnlySent` | main.py:328-331 | where only Sent records are marked opened, opened Sent records are all the opened records |
| `Analytics.Summarize` | main.py:322-336 | total is the ledger length; sent and failed are the Sent and Failed counts, and with pending they add up to it; pending is the Scheduled count; the open count is the opened records of any status; the rate is that count as a percentage of the Sent records (0 when nothing was sent) |
| `Analytics.SummarizeIntended` | main.py:322-336 | the same counts (total, Sent, Failed, pending, opened) with the rate taken over opened Sent records only, so it is always between 0 and 100 |
| `Analytics.SummariesAgree` | main.py:328-336 | where only Sent records are marked opened, the table as written and as intended coincide |
| `Analytics.Merge` | main.py:355-359 | the refresh keeps every record and changes only the opened flag, which becomes Yes exactly when the address is a key of the tracker's map |
| `Analytics.MergeByKeys` | main.py:356 | two tracker maps with the same keys give the same refresh, whatever their values |
| `Analytics.MergeIdempotent` | main.py:355-359 | refreshing twice from the same snapshot is refreshing once |
| `Analytics.MergeIgnoresReset` | main.py:356 | a reset tracker map refreshes the ledger exactly as the map before the reset did |
| `Analytics.MergeKeepsStatusCounts` | main.py:355-359 | the refresh leaves every status count unchanged |
| `Tracking.Track` | track.py:10-14 | a beacon fetch adds the address with value "Yes" and leaves every other address and value as it was |
| `Tracking.Reset` | track.py:21-26 | a reset keeps exactly the known addresses and sets each of them to "No" |
| `Tracking.Handle` | track.py:9-26 | only a beacon fetch adds a key; a query returns the store and changes nothing; stores holding only "Yes"/"No" stay that way |
| `Tracking.Serve` | track.py:7-26 | serving a request sequence answers once per request and never forgets an address |
| `Tracking.ServeInvariant` | track.py:7-26 | after any request sequence, the known addresses are the starting ones plus every address fetched; values stay "Yes"/"No"; one response per request |
| `Tracking.TrackIdempotent` | track.py:12 | fetching the beacon twice leaves the same store as fetching it once |
| `Tracking.ResetThenTrack` | track.py:12-25 | after a reset and one fetch, that address is "Yes" and every other known address is "No" |
| `Tracking.TrackThenQuery` | track.py:10-19 | on a fresh service, a fetch for `bob@x.com` then a query answers the pixel, then `{bob@x.com: Yes}` |

## Left out

- The Streamlit page layout, widgets, messages and tables are left out. So are
  the CSV/Excel loading (pandas), and the OpenAI and clipboard helpers. They
  are presentation or I/O around the core.
- The check for an `email` column (`main.py:57-58`) only shows a message and
  the page carries on. A table without the column then stops at its first row
  in the loop, which `Dispatch.Reachable` covers.
- `Dispatch.Reachable`: the model allows ragged tables, where rows have
  different columns, so a later row can lack a field an earlier one has. A
  table from `df.iterrows()` has the same columns in every row, so the source
  only ever handles no row or every row (`Dispatch.UniformAllOrNothing`). The
  model is more general than the source there, never different on a uniform
  table.
- `Schedule.ParseTime`: `strptime` also reads non-ASCII decimal digits,
  because its `%H` and `%M` patterns use `\d` without the ASCII flag. The time
  check before it admits only ASCII digits, so that case never reaches it and
  is not modelled.
- The Mailjet payload (sender name, `TrackOpens`, attachments) is left out.
  The transport is modelled as a given sequence of answers, one per row.
- `time.sleep` and `datetime.now()` are left out. Each becomes a number: the
  wait and the pauses are returned, and one `now` stands for both reads of the
  clock at `main.py:150` and `main.py:153`.
- Sub-second precision, dates as calendar dates, and time zones are left out.
  Instants are whole seconds, and a day is a day number times 86400.
- Floating point is left out. The delay and the rate are exact reals, and the
  `:.2f` display formatting is not modelled.
- `str(value)` of a pandas cell is left out. A row maps column names to
  strings already.
- `opened_emails` is never bound in `main.py`, so as written the refresh raises
  `NameError` at the first record and shows its error message. The model instead takes the
  tracker's map as a parameter of `Analytics.Merge`, which is what the loop at
  `main.py:355-359` evidently reads.
- `Text.ReplaceAtFind`: `str.replace` with an empty needle (which inserts
  between every character) is not modelled, because every needle used is a
  placeholder `{{column}}` of at least four characters.
- The Flask transport, the `pixel.png` file and JSON encoding are left out.
  The tracker is modelled as a pure request handler over its map.
- Concurrent requests to the tracker are left out. Requests are handled one at
  a time, in order.
- `st.session_state["email_statuses"].extend(email_statuses)` is left out,
  because it always extends by the empty list defined at `main.py:125`.

## Findings

| source | as written | input that shows it | evidently intended | confidence | as-written member | corrected member |
|---|---|---|---|---|---|---|
| main.py:138-148 | `re.match` with `$` accepts a time followed by one newline; `strptime` then raises and the generic error is shown | `"7:05\n"` | reject anything but `H:M`/`HH:MM` at the time check | not executed | `Dispatch.NewlineTimeAborts` | `Schedule.ValidTimeMeaning` |
| main.py:328-336 | the response rate divides opened records of any status by Sent records, so it can exceed 100%; latent as written, because the refresh at main.py:356 raises `NameError` at the first record and never marks a record opened | once the refresh reads the tracker's map: one Sent and one Failed record for the same opened address give a rate of 200% | opened Sent records over Sent records, within 0-100% | not executed | `Analytics.RateAsWrittenExceedsHundred` | `Analytics.SummarizeIntended` |
