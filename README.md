# Email open tracker — Dafny model

This project models the sequential core of a small web-beacon tracker. The
tracker serves a 1×1 image that is embedded in outgoing mail. Each fetch of the
image counts as an "open". The model covers five pieces of `tracker.py`:

- **Sender directory** (`load_senders`). The senders file holds one
  `email|name|pass` record per line. Each line is stripped and split on every
  `|`. Only a line with exactly three pieces makes an entry, and a later line
  for the same email overwrites an earlier one. A blank line strips to `""`,
  which splits into one piece, so this test also skips it. The file is its sequence of
  lines; a missing file is the empty sequence.
- **Dedup cache** (`OPEN_CACHE` and the `with lock:` block). This is a table
  from (sender, message id, subject, client IP) to last-seen time. A fetch is a
  duplicate when its key is present and was seen less than five minutes
  earlier. A duplicate leaves the table untouched; any other fetch writes `now`
  into its key's entry. Nothing is evicted. Times are whole microseconds, the
  resolution of the clock readings the source compares, so the window is
  300 000 000.
- **Tracking step** (`track_open`). A duplicate returns the image and does
  nothing else. Any other fetch appends one formatted line to the open log. It
  then re-reads the sender directory and, if the sender is listed, makes one
  notification call with that sender's name and password.
- **Notification message** (`send_open_notification`). Before its guarded SMTP
  block, the call sets the `Subject`, `From` and `To` headers. The mail
  library rejects any header value that `str.splitlines()` splits into more
  than one line, and raises `ValueError`. That exception is outside the `try`,
  so it escapes `track_open`, and the request ends with a server error. This
  happens after the cache was marked and the entry logged. An unlisted sender
  always gets the image. The answer therefore shows whether the sender is
  listed whenever the message id, the listed name or the sender's address
  holds a line boundary, or the subject holds one that more text follows
  (`RejectedExactly`, `AnswerRevealsListing`). A subject that merely ends in
  `\n` or `\r\n` is accepted.
- **Log viewer** (`view_logs`). It returns the last 100 log lines in order,
  each stripped, and nothing when the log is empty or absent.

Modules: `Wrappers` (`Option`); `PyText` (Python's `str.strip()`,
`str.split('|')` and `str.splitlines()`, with the exact character sets of
`str.isspace()` and of line boundaries); `Senders`; `Dedup`; `Notify`;
`LogView`; `Tracking`. The cache is a class with a `map` field. The
tracker is a class that owns the cache and the log. `LoadSenders` keeps the
source's loop.

Beyond single calls, `Dedup` proves what the cache is for, over any run of
fetches from process start. Two recorded fetches of the same key are always
at least one window apart. This holds even when the clock goes backwards,
because every recorded fetch stores a time later than the one it replaces.
Conversely, a fetch that comes at least a window after every earlier fetch of
its key is recorded. `Tracker` keeps the fetches seen in a ghost sequence so
that these theorems apply to its state. Its invariant says that the log is the
log the process found, followed by the entry of each recorded fetch in order.
So two log lines written for one key are a window apart
(`RecordedOncePerWindow`).

A logged entry reads back through `/logs` as its text unchanged only when the
sender is non-empty and does not end in whitespace (`EntryReadBack`). Otherwise
the strip also removes the whitespace at the end of the text
(`SenderWhitespaceLost`). For example, a sender `"alice "` is shown as
`Sender: alice`.

## Model

| member | source | states |
|---|---|---|
| `PyText.StripShape` | tracker.py:23 | `strip()` removes a whitespace-only prefix and suffix and nothing else, and the result has no whitespace at either end |
| `PyText.StripUnique` | tracker.py:23 | text with no whitespace at its ends, surrounded only by whitespace, strips to exactly that text |
| `PyText.StripIdempotent` | tracker.py:92 | stripping an already stripped line changes nothing |
| `PyText.TrimStartShape` | tracker.py:23 | the leading-whitespace pass removes exactly a whitespace prefix and stops at the first other character |
| `PyText.TrimEndShape` | tracker.py:23 | the trailing-whitespace pass removes exactly a whitespace suffix and stops at the last other character |
| `PyText.SeveralLines` | tracker.py:32-34 | `str.splitlines()` gives more than one line exactly when some line terminator (`\r\n` counting as one) is followed by more text |
| `PyText.SplitLinesEmpty` | tracker.py:32-34 | only the empty string has no lines |
| `PyText.InnerBreakAfterPlain` | tracker.py:32 | text free of line boundaries in front of a value adds no second line |
| `PyText.InnerBreakAroundField` | tracker.py:32-33 | a field followed by fixed text free of line boundaries breaks the header exactly when the field holds any line boundary or the rest breaks |
| `PyText.Split` | tracker.py:23 | `split` on the pipe character yields one more piece than there are separators; empty pieces are kept, no piece contains the separator, and re-joining the pieces gives the input |
| `PyText.SplitJoin` | tracker.py:23 | splitting undoes joining whenever no piece holds the separator, so the pieces are uniquely determined |
| `Senders.ParseLine` | tracker.py:23-26 | a line yields an entry iff its stripped text contains exactly two pipe characters |
| `Senders.ParseLineExact` | tracker.py:23-26 | a line yields (email, name, pass) iff its stripped text is email, pipe, name, pipe, pass with no pipe inside any of the three |
| `Senders.DirectoryContents` | tracker.py:18-27 | an email is in the directory iff some well-formed line declares it, and its record then comes from the last line that declares it |
| `Senders.FoldLastWins` | tracker.py:22-26 | the last entry naming an email decides its record, whatever came before |
| `Senders.FoldOnlyNamed` | tracker.py:22-26 | no email enters the dictionary unless some entry names it |
| `Senders.MalformedLineIgnored` | tracker.py:24 | a line whose stripped text does not split into three pieces, an empty line included, leaves the directory as it was |
| `Senders.EmptyFileEmptyDirectory` | tracker.py:19-20 | a missing or empty file gives the empty directory |
| `Senders.DirectoryStep` | tracker.py:22-26 | reading one more line inserts or overwrites that line's entry and changes nothing else |
| `Senders.LoadSenders` | tracker.py:17-27 | the loop returns exactly the directory the file's lines define |
| `Dedup.MarkEffect` | tracker.py:65-69 | a duplicate leaves the whole table unchanged; any other fetch sets the key's entry to `now`, leaves every other entry alone, and drops no key |
| `Dedup.SuppressedWithinWindow` | tracker.py:67-69 | after a recorded fetch at `t`, the same key is a duplicate at every `t'` with `t <= t' < t + window` |
| `Dedup.OpenCache.CheckAndMark` | tracker.py:65-69 | the atomic check-and-mark: it reports a duplicate iff the key is present and `now - last < window`, and leaves the table in the state `Mark` describes |
| `Dedup.OpenCache.constructor` | tracker.py:12 | the cache starts empty |
| `Dedup.ReplayKeepsKeys` | tracker.py:66-69 | over any run of fetches the cache's key set never shrinks, because nothing is evicted |
| `Dedup.StoredNotBefore` | tracker.py:67-69 | once a fetch is recorded, the stored time for its key never drops below that fetch's time |
| `Dedup.StoredFromSomeHit` | tracker.py:69 | every stored time is the time of an earlier fetch of that key |
| `Dedup.AtMostOncePerWindow` | tracker.py:66-69 | two recorded fetches of the same key are at least one window apart, for any clock readings |
| `Dedup.NewAfterWindow` | tracker.py:67-69 | a fetch that comes at least a window after every earlier fetch of its key, a first fetch included, is recorded |
| `Dedup.RecordedIndices` | tracker.py:66-75 | the positions of the recorded fetches of a run, each recorded, in increasing order, missing none |
| `Dedup.RecordedIndicesExtend` | tracker.py:66-69 | later fetches do not change which earlier fetches were recorded |
| `Dedup.RecordedOncePerWindow` | tracker.py:66-75 | of the recorded fetches, taken in log order, two with the same key are at least one window apart |
| `LogView.SliceFrom` | tracker.py:91 | Python's `s[start:]`: a negative start keeps the last `min(-start, len(s))` elements |
| `LogView.Tail` | tracker.py:88-93 | the view has `min(100, n)` lines; they are the stripped last lines of the log in their original order; the view is empty iff the log is |
| `LogView.TailAfterAppend` | tracker.py:91-92 | after one more line is appended, the view is the previous view (minus its oldest line when full) followed by that line stripped |
| `Tracking.ClientIp` | tracker.py:60 | the `X-Forwarded-For` value when that header is present, even if empty, and otherwise the connection address |
| `Tracking.UserAgent` | tracker.py:61 | the `User-Agent` value when that header is present, and otherwise the empty string |
| `Tracking.KeyOf` | tracker.py:65 | the cache key is the decoded sender, message id and subject with the client IP |
| `Tracking.LogEntry` | tracker.py:71 | the log entry ends in a line break, and everything before it is the entry's text |
| `Tracking.LogEntryFieldsInOrder` | tracker.py:71 | the entry contains the message id, subject, IP, user agent and sender, in that order and without overlap |
| `Tracking.LogEntrySingleLine` | tracker.py:71-91 | when no field holds `\n` or `\r`, the entry holds no `\r` and its only `\n` is its last character, so reading the log in text mode gives it back as one line |
| `Tracking.EntryReadBack` | tracker.py:92 | stripping a logged entry removes only its line break, provided the sender is non-empty and does not end in whitespace |
| `Tracking.SenderWhitespaceLost` | tracker.py:71-92 | an empty sender, or one ending in whitespace, is not shown verbatim: the view differs from the entry's text |
| `Tracking.TrackedOpenVisible` | tracker.py:74-92 | an open that has just been logged appears verbatim as the last line of the next `/logs` view, provided no field holds `\n` or `\r` (so the entry reads back as one line) and the sender is non-empty and does not end in whitespace |
| `Notify.RejectedExactly` | tracker.py:30-34 | building the message raises exactly when the message id, the sender's name or the sender's address holds a line boundary, or the subject holds one that more text follows |
| `Tracking.NoticeFor` | tracker.py:77-81 | one notification call iff the sender is a directory key, with that record's name and pass and the fetch's id, subject, IP and user agent, and no call otherwise |
| `Tracking.Answer` | tracker.py:79-83 | a server error when a call was made and its message is rejected, and the beacon otherwise |
| `Tracking.AnswerExactly` | tracker.py:77-83 | a recorded fetch gets the beacon or a server error; the error happens exactly when the sender is listed and its message is rejected, so an unlisted sender always gets the beacon |
| `Tracking.LoggedStep` | tracker.py:66-75 | one more fetch adds its entry to the logged entries exactly when it is recorded |
| `Tracking.Tracker.constructor` | tracker.py:12 | a new process starts with an empty cache and keeps whatever log already exists |
| `Tracking.Tracker.Track` | tracker.py:56-83 | a duplicate returns the beacon and changes no log and makes no notification call. Otherwise it appends exactly the formatted entry, and it makes the call iff the sender is in the directory, using that entry's name and pass and the fetch's id, subject, IP and user agent. The answer is a server error when that call's message is rejected, and the beacon otherwise. The cache moves as `Mark` says. The log stays the initial log followed by the entries of the recorded fetches |
| `Tracking.SampleDirectory` | tracker.py:17-27 | a file whose one line holds alice@example.com, Alice and secret123 separated by pipes gives the directory with that one record |
| `Tracking.SampleOpenAnswered` | tracker.py:77-83 | the sample open with the sample directory makes the call to alice@example.com with Alice and secret123 and gets the beacon |
| `Tracking.RepeatedOpen` | tracker.py:56-83 | the same open fetched twice 10 ms apart from one address: both fetches get the beacon, the first notifies alice@example.com with that sender's name and pass, the second does not, and the log holds exactly the first fetch's entry |
| `Tracking.AnswerRevealsListing` | tracker.py:32-83 | a subject with a vertical tab inside gives a server error when the sender is listed and the beacon when the directory is empty |

## Left out

- Flask routing, `request.headers`, `send_file` and `jsonify` are framework calls. A request is a value carrying the three path fields, the `X-Forwarded-For` and `User-Agent` headers as optional strings, and the connection address. The response is the file name with its mimetype, or Flask's server-error answer for an exception that escapes the view.
- `unquote` percent-decoding is a library call. The path fields are taken as already decoded.
- `send_open_notification` submits the message over SMTP inside a `try` that swallows every exception. The SMTP exchange and the message body are not modelled. `smtplib.SMTP_SSL` is opened with no timeout (tracker.py:47), so a request can hang and never answer; the model always answers. The model covers the call and its seven arguments (`Notification`), plus the header check that can raise before the `try`.
- `Notify.MessageRejected`: models only the mail library's one-line check on header values. Rare parser errors the library's header parsing might raise on malformed addresses are not modelled.
- `datetime.now()` and `str(now)` are the clock and library formatting. Each request receives the reading as integer microseconds plus the text the log line shows. The model does not relate that text to the number.
- `threading.Lock` is concurrency. The locked check-and-mark is one atomic method. The log append and directory read that follow it are not interleaved with other requests.
- Real file I/O and `os.path.exists` are replaced by sequences of lines. The log is one element per appended entry. An absent log and an empty log are both the empty sequence, and `view_logs` answers `[]` for both. A field holding `\n` or `\r` would make `readlines()` return that entry as several lines. The model keeps it as one, and `LogEntrySingleLine` states when the two agree. A failing log write (tracker.py:74-75) ends the request with a server error after the cache was marked. That open is then never logged, and repeats within the window are suppressed. A failing senders read (tracker.py:21-22) ends the request with a server error after the entry is logged. The model has no read or write errors. It also assumes the existing log ends in a line break: if an interrupted write left a partial last line, `readlines()` joins it to the next entry, and the view's last line is then not that entry's text alone.
- `request.remote_addr` being `None` is not modelled. The connection address is always a string.
- `print` console output is not modelled, nor are the PIL pixel generation and `app.run` at startup.
