/**
 * The tracking endpoint (`track_open`): one fetch of the beacon checks and
 * marks the dedup cache atomically; a fetch that is not a duplicate appends one
 * entry to the open log and, when the sender is in the sender directory,
 * makes one notification call for that sender. The answer is the image,
 * except when that call fails to build its message: then the request ends
 * with a server error, after the entry is logged.
 */
module Tracking {
  import opened Wrappers
  import opened PyText
  import opened Dedup
  import opened Senders
  import opened LogView
  import opened Notify

  /**
   * One request to `/track/<sender>/<email_id>/<subject>.png`: the three path
   * fields already percent-decoded, the `X-Forwarded-For` and `User-Agent`
   * headers when present, and the connection's address.
   */
  datatype Request = Request(
    sender: string,
    emailId: string,
    subject: string,
    forwardedFor: Option<string>,
    remoteAddr: string,
    userAgent: Option<string>)

  /** `request.headers.get('X-Forwarded-For', request.remote_addr)`. */
  function ClientIp(req: Request): string {
    req.forwardedFor.GetOr(req.remoteAddr)
  }

  /** `request.headers.get('User-Agent', '')`. */
  function UserAgent(req: Request): string {
    req.userAgent.GetOr("")
  }

  function KeyOf(req: Request): Key {
    Key(req.sender, req.emailId, req.subject, ClientIp(req))
  }

  /**
   * The HTTP answer: a file and its mimetype, or the framework's error page
   * for an exception that escapes the view.
   */
  datatype Response = SendFile(path: string, mimetype: string) | InternalServerError

  /** The beacon image. */
  const Beacon: Response := SendFile("pixel.png", "image/png")

  /** The notification call a recorded fetch makes: one, to a listed sender, with the listed name and pass. */
  function NoticeFor(req: Request, directory: map<string, SenderRecord>): Option<Notification> {
    if req.sender in directory then
      var rec := directory[req.sender];
      Some(Notification(req.sender, rec.name, rec.pass, req.emailId, req.subject, ClientIp(req), UserAgent(req)))
    else None
  }

  /** The answer once the notification call, if any, has been made: it raises when the message is refused. */
  function Answer(notice: Option<Notification>): Response {
    if notice.Some? && MessageRejected(notice.value) then InternalServerError else Beacon
  }

  /**
   * A recorded fetch gets the image or a server error, and the error happens
   * exactly when the sender is listed and the message id, the listed name or
   * the sender's address holds a line boundary, or the subject holds one that
   * more text follows. An unlisted sender always gets the image.
   */
  lemma AnswerExactly(req: Request, directory: map<string, SenderRecord>)
    ensures Answer(NoticeFor(req, directory)) == Beacon || Answer(NoticeFor(req, directory)) == InternalServerError
    ensures Answer(NoticeFor(req, directory)) == InternalServerError <==>
              && req.sender in directory
              && (|| HasLineBoundary(req.emailId) || InnerBreak(req.subject)
                  || HasLineBoundary(directory[req.sender].name) || HasLineBoundary(req.sender))
  {
    if req.sender in directory {
      RejectedExactly(NoticeFor(req, directory).value);
    }
  }

  /** The text of one log entry without its line break; `stamp` is `str(now)`. */
  function LogLine(stamp: string, req: Request): string {
    "[" + stamp + "] Opened by " + req.emailId + " | Subject: " + req.subject
      + " | IP: " + ClientIp(req) + " | UA: " + UserAgent(req) + " | Sender: " + req.sender
  }

  /** The `log_entry` f-string: the entry's text followed by one line break. */
  function LogEntry(stamp: string, req: Request): (r: string)
    ensures |r| > 0 && r[|r| - 1] == '\n'
    ensures r[..|r| - 1] == LogLine(stamp, req)
  {
    LogLine(stamp, req) + "\n"
  }

  /** `field` occurs in `text` at offset `k`. */
  ghost predicate FieldAt(text: string, field: string, k: int) {
    0 <= k <= |text| - |field| && text[k..k + |field|] == field
  }

  /** `fields` occur in `text` at `offsets`, one after another, without overlapping. */
  ghost predicate FieldsAt(text: string, fields: seq<string>, offsets: seq<int>) {
    && |offsets| == |fields|
    && (forall i :: 0 <= i < |fields| ==> FieldAt(text, fields[i], offsets[i]))
    && (forall i :: 0 <= i < |fields| - 1 ==> offsets[i] + |fields[i]| <= offsets[i + 1])
  }

  /** A field found in a prefix of `text` is found in `text` at the same offset. */
  lemma FieldAtPrefix(prefix: string, text: string, field: string, k: int)
    requires |prefix| <= |text| && text[..|prefix|] == prefix && FieldAt(prefix, field, k)
    ensures FieldAt(text, field, k)
  {
    assert text[k..k + |field|] == prefix[k..k + |field|];
  }

  /** The field just appended to `before` is found right after it. */
  lemma FieldAtEnd(before: string, field: string)
    ensures FieldAt(before + field, field, |before|)
  {
  }

  lemma FiveInOrder(text: string, a: string, b: string, c: string, d: string, e: string,
                    oa: int, ob: int, oc: int, od: int, oe: int)
    requires FieldAt(text, a, oa) && FieldAt(text, b, ob) && FieldAt(text, c, oc)
    requires FieldAt(text, d, od) && FieldAt(text, e, oe)
    requires oa + |a| <= ob && ob + |b| <= oc && oc + |c| <= od && od + |d| <= oe
    ensures FieldsAt(text, [a, b, c, d, e], [oa, ob, oc, od, oe])
  {
  }

  /** Five fields joined by arbitrary gaps, with arbitrary text before and after, occur in order. */
  lemma GappedFieldsInOrder(g1: string, a: string, g2: string, b: string, g3: string, c: string,
                            g4: string, d: string, g5: string, e: string, tail: string)
    ensures FieldsAt(g1 + a + g2 + b + g3 + c + g4 + d + g5 + e + tail, [a, b, c, d, e],
                     [|g1|, |g1 + a + g2|, |g1 + a + g2 + b + g3|, |g1 + a + g2 + b + g3 + c + g4|,
                      |g1 + a + g2 + b + g3 + c + g4 + d + g5|])
  {
    var p1 := g1;
    var x1 := p1 + a;
    var p2 := x1 + g2;
    var x2 := p2 + b;
    var p3 := x2 + g3;
    var x3 := p3 + c;
    var p4 := x3 + g4;
    var x4 := p4 + d;
    var p5 := x4 + g5;
    var x5 := p5 + e;
    var text := x5 + tail;
    FieldAtEnd(p1, a);
    FieldAtPrefix(x1, x2, a, |p1|);
    FieldAtPrefix(x2, x3, a, |p1|);
    FieldAtPrefix(x3, x4, a, |p1|);
    FieldAtPrefix(x4, x5, a, |p1|);
    FieldAtPrefix(x5, text, a, |p1|);
    FieldAtEnd(p2, b);
    FieldAtPrefix(x2, x3, b, |p2|);
    FieldAtPrefix(x3, x4, b, |p2|);
    FieldAtPrefix(x4, x5, b, |p2|);
    FieldAtPrefix(x5, text, b, |p2|);
    FieldAtEnd(p3, c);
    FieldAtPrefix(x3, x4, c, |p3|);
    FieldAtPrefix(x4, x5, c, |p3|);
    FieldAtPrefix(x5, text, c, |p3|);
    FieldAtEnd(p4, d);
    FieldAtPrefix(x4, x5, d, |p4|);
    FieldAtPrefix(x5, text, d, |p4|);
    FieldAtEnd(p5, e);
    FieldAtPrefix(x5, text, e, |p5|);
    FiveInOrder(text, a, b, c, d, e, |p1|, |p2|, |p3|, |p4|, |p5|);
  }

  /** The entry names the message id, subject, IP, user agent and sender, in that order. */
  lemma LogEntryFieldsInOrder(stamp: string, req: Request)
    ensures exists offsets :: FieldsAt(LogEntry(stamp, req),
                                       [req.emailId, req.subject, ClientIp(req), UserAgent(req), req.sender], offsets)
  {
    var g1, a, g2, b, g3, c := "[" + stamp + "] Opened by ", req.emailId, " | Subject: ", req.subject, " | IP: ", ClientIp(req);
    var g4, d, g5, e, tail := " | UA: ", UserAgent(req), " | Sender: ", req.sender, "\n";
    GappedFieldsInOrder(g1, a, g2, b, g3, c, g4, d, g5, e, tail);
    assert LogEntry(stamp, req) == g1 + a + g2 + b + g3 + c + g4 + d + g5 + e + tail;
    var offsets := [|g1|, |g1 + a + g2|, |g1 + a + g2 + b + g3|, |g1 + a + g2 + b + g3 + c + g4|,
                    |g1 + a + g2 + b + g3 + c + g4 + d + g5|];
    assert FieldsAt(LogEntry(stamp, req), [a, b, c, d, e], offsets);
  }

  /**
   * With no `\n` or `\r` in any field, the entry is exactly one line when the
   * log is read back in text mode: its only line end is its final `\n`.
   */
  lemma LogEntrySingleLine(stamp: string, req: Request)
    requires '\n' !in stamp && '\n' !in req.emailId && '\n' !in req.subject
    requires '\n' !in ClientIp(req) && '\n' !in UserAgent(req) && '\n' !in req.sender
    requires '\r' !in stamp && '\r' !in req.emailId && '\r' !in req.subject
    requires '\r' !in ClientIp(req) && '\r' !in UserAgent(req) && '\r' !in req.sender
    ensures '\n' !in LogEntry(stamp, req)[..|LogEntry(stamp, req)| - 1]
    ensures '\r' !in LogEntry(stamp, req)
  {
    LogLineWithout(stamp, req, '\n');
    LogLineWithout(stamp, req, '\r');
  }

  lemma LogLineWithout(stamp: string, req: Request, c: char)
    requires c == '\n' || c == '\r'
    requires c !in stamp && c !in req.emailId && c !in req.subject
    requires c !in ClientIp(req) && c !in UserAgent(req) && c !in req.sender
    ensures c !in LogLine(stamp, req)
  {
  }

  /**
   * Reading an entry back strips only its line break, provided the sender
   * does not end in whitespace (which the strip would also remove).
   */
  lemma EntryReadBack(stamp: string, req: Request)
    requires req.sender != [] && !IsSpace(req.sender[|req.sender| - 1])
    ensures Strip(LogEntry(stamp, req)) == LogLine(stamp, req)
  {
    var text := LogLine(stamp, req);
    assert text[0] == '[';
    assert text[|text| - 1] == req.sender[|req.sender| - 1];
    assert [] + text + "\n" == LogEntry(stamp, req);
    StripUnique([], text, "\n");
  }

  /**
   * A sender that is empty or ends in whitespace is not shown verbatim: the
   * strip also removes the whitespace at the end of the entry's text.
   */
  lemma SenderWhitespaceLost(stamp: string, req: Request)
    requires req.sender == [] || IsSpace(req.sender[|req.sender| - 1])
    ensures Strip(LogEntry(stamp, req)) != LogLine(stamp, req)
  {
    var text := LogLine(stamp, req);
    StripShape(LogEntry(stamp, req));
    assert IsSpace(text[|text| - 1]) by {
      if req.sender == [] {
        assert text[|text| - 1] == ' ';
      } else {
        assert text[|text| - 1] == req.sender[|req.sender| - 1];
      }
    }
  }

  /**
   * An open just logged is the last line of the next `/logs` answer, verbatim,
   * when no field holds `\n` or `\r` (so that reading the log back keeps the
   * entry whole) and the sender is non-empty and does not end in whitespace.
   */
  lemma TrackedOpenVisible(log: seq<string>, stamp: string, req: Request)
    requires '\n' !in stamp && '\n' !in req.emailId && '\n' !in req.subject
    requires '\n' !in ClientIp(req) && '\n' !in UserAgent(req) && '\n' !in req.sender
    requires '\r' !in stamp && '\r' !in req.emailId && '\r' !in req.subject
    requires '\r' !in ClientIp(req) && '\r' !in UserAgent(req) && '\r' !in req.sender
    requires req.sender != [] && !IsSpace(req.sender[|req.sender| - 1])
    ensures '\n' !in LogEntry(stamp, req)[..|LogEntry(stamp, req)| - 1] && '\r' !in LogEntry(stamp, req)
    ensures var view := Tail(log + [LogEntry(stamp, req)]);
            |view| > 0 && view[|view| - 1] == LogLine(stamp, req)
  {
    LogEntrySingleLine(stamp, req);
    TailAfterAppend(log, LogEntry(stamp, req));
    EntryReadBack(stamp, req);
  }

  /** One fetch as the tracker sees it: the request, the clock reading and its text. */
  datatype Fetch = Fetch(req: Request, now: int, stamp: string)

  function HitOf(f: Fetch): Hit {
    Hit(KeyOf(f.req), f.now)
  }

  function HitsOf(fetches: seq<Fetch>): (r: seq<Hit>)
    ensures |r| == |fetches|
  {
    seq(|fetches|, i requires 0 <= i < |fetches| => HitOf(fetches[i]))
  }

  /** The entries a run of fetches appends to the log: one per recorded fetch, in order. */
  function Logged(fetches: seq<Fetch>): (r: seq<string>)
  {
    var idx := RecordedIndices(HitsOf(fetches), |fetches|);
    seq(|idx|, p requires 0 <= p < |idx| => LogEntry(fetches[idx[p]].stamp, fetches[idx[p]].req))
  }

  /** One more fetch adds its entry to the logged ones exactly when it is recorded. */
  lemma LoggedStep(fetches: seq<Fetch>, f: Fetch)
    ensures HitsOf(fetches + [f]) == HitsOf(fetches) + [HitOf(f)]
    ensures Logged(fetches + [f]) ==
              Logged(fetches) + (if Recorded(HitsOf(fetches + [f]), |fetches|) then [LogEntry(f.stamp, f.req)] else [])
  {
    var fs := fetches + [f];
    var h0, h := HitsOf(fetches), HitsOf(fs);
    assert h == h0 + [HitOf(f)];
    RecordedIndicesExtend(h0, HitOf(f), |fetches|);
    var idx0, idx := RecordedIndices(h0, |fetches|), RecordedIndices(h, |fs|);
    var tail := if Recorded(h, |fetches|) then [LogEntry(f.stamp, f.req)] else [];
    assert idx == idx0 + (if Recorded(h, |fetches|) then [|fetches|] else []);
    assert |Logged(fs)| == |Logged(fetches) + tail|;
    forall p | 0 <= p < |Logged(fs)|
      ensures Logged(fs)[p] == (Logged(fetches) + tail)[p]
    {
      if p < |idx0| {
        assert idx[p] == idx0[p] && fs[idx0[p]] == fetches[idx0[p]];
      }
    }
  }

  /**
   * The running service: the in-memory dedup cache, the open log file, and
   * (as a proof device) the log as the process found it and the fetches seen
   * since it started.
   */
  class Tracker {
    const cache: OpenCache
    var log: seq<string>
    ghost var baseLog: seq<string>
    ghost var fetches: seq<Fetch>

    /** The cache is the run's replay, and the log gained one entry per recorded fetch. */
    ghost predicate Valid()
      reads this, cache
    {
      && cache.entries == Replay(map[], HitsOf(fetches))
      && log == baseLog + Logged(fetches)
    }

    /** A fresh process: an empty cache beside whatever log a previous run left. */
    constructor (existingLog: seq<string>)
      ensures Valid() && fresh(cache)
      ensures fetches == [] && log == existingLog
    {
      cache := new OpenCache();
      log := existingLog;
      baseLog := existingLog;
      fetches := [];
    }

    /**
     * `track_open`: `now` is the clock reading (microseconds), `stamp` its
     * `str()` rendering, `sendersFile` the senders file as read for this request.
     */
    method Track(req: Request, now: int, stamp: string, sendersFile: seq<string>)
      returns (resp: Response, notice: Option<Notification>)
      requires Valid()
      modifies this, cache
      ensures Valid()
      ensures baseLog == old(baseLog) && fetches == old(fetches) + [Fetch(req, now, stamp)]
      ensures HitsOf(fetches) == HitsOf(old(fetches)) + [Hit(KeyOf(req), now)]
      ensures Recorded(HitsOf(fetches), |old(fetches)|) <==> !IsDuplicate(old(cache.entries), KeyOf(req), now)
      ensures cache.entries == Mark(old(cache.entries), KeyOf(req), now)
      ensures log == if Recorded(HitsOf(fetches), |old(fetches)|) then old(log) + [LogEntry(stamp, req)] else old(log)
      ensures notice == if Recorded(HitsOf(fetches), |old(fetches)|) then NoticeFor(req, Directory(sendersFile)) else None
      ensures resp == Answer(notice)
    {
      var key := KeyOf(req);
      var dup := cache.CheckAndMark(key, now);
      LoggedStep(fetches, Fetch(req, now, stamp));
      fetches := fetches + [Fetch(req, now, stamp)];
      var hits := HitsOf(fetches);
      assert hits[..|old(fetches)|] == HitsOf(old(fetches));
      ReplayStep(map[], hits, |old(fetches)|);
      assert hits[..|old(fetches)| + 1] == hits;
      if dup {
        return Beacon, None;
      }

      log := log + [LogEntry(stamp, req)];

      var senders := LoadSenders(sendersFile);
      if req.sender in senders {
        var rec := senders[req.sender];
        var n := Notification(req.sender, rec.name, rec.pass, req.emailId, req.subject,
                              ClientIp(req), UserAgent(req));
        notice := Some(n);
        if MessageRejected(n) {
          return InternalServerError, notice;
        }
      } else {
        notice := None;
      }
      resp := Beacon;
    }
  }

  const SampleEmail: string := "alice@example.com"
  const SampleName: string := "Alice"
  const SamplePass: string := "secret123"

  /** A senders file holding one record, `alice@example.com|Alice|secret123`. */
  function SampleFile(): seq<string> {
    [SampleEmail + [Delimiter] + SampleName + [Delimiter] + SamplePass + "\n"]
  }

  lemma SampleDirectory()
    ensures Directory(SampleFile()) == map[SampleEmail := SenderRecord(SampleName, SamplePass)]
  {
    var line := SampleEmail + [Delimiter] + SampleName + [Delimiter] + SamplePass;
    var file := SampleFile();
    assert Strip(file[0]) == line by {
      assert line[0] == 'a' && line[|line| - 1] == '3';
      assert AllSpace("\n");
      assert [] + line + "\n" == file[0];
      StripUnique([], line, "\n");
    }
    assert Delimiter !in SampleEmail && Delimiter !in SampleName && Delimiter !in SamplePass;
    ParseLineExact(file[0], SampleEmail, SampleName, SamplePass);
    assert Entries(file) == [ParseLine(file[0])];
    assert Entries(file)[..0] == [];
  }

  /** A first open of the sample message from 1.2.3.4, with no user agent. */
  const SampleOpen: Request := Request(SampleEmail, "msg123", "Hello", None, "1.2.3.4", None)

  /** No field of the sample open or the sample record breaks a header line. */
  lemma SampleFieldsOneLine()
    ensures !HasLineBoundary(SampleOpen.emailId) && !InnerBreak(SampleOpen.subject)
    ensures !HasLineBoundary(SampleName) && !HasLineBoundary(SampleEmail)
  {
  }

  /** The sample open, recorded with the sample directory, notifies alice and gets the image. */
  lemma SampleOpenAnswered()
    ensures NoticeFor(SampleOpen, Directory(SampleFile()))
            == Some(Notification(SampleEmail, SampleName, SamplePass, "msg123", "Hello", "1.2.3.4", ""))
    ensures Answer(NoticeFor(SampleOpen, Directory(SampleFile()))) == Beacon
  {
    SampleDirectory();
    SampleFieldsOneLine();
    AnswerExactly(SampleOpen, Directory(SampleFile()));
  }

  /**
   * The same open fetched twice 10 ms apart from the same address, with the
   * sender listed: both fetches get the image, the first is logged and
   * notified, the second is neither.
   */
  method RepeatedOpen() returns (first: Option<Notification>, second: Option<Notification>,
                                 r1: Response, r2: Response, log: seq<string>)
    ensures first == Some(Notification("alice@example.com", "Alice", "secret123", "msg123", "Hello", "1.2.3.4", ""))
    ensures second == None
    ensures r1 == Beacon && r2 == Beacon
    ensures log == [LogEntry("2026-10-14 09:00:00", SampleOpen)]
  {
    var file := SampleFile();
    SampleDirectory();
    SampleOpenAnswered();
    var key := KeyOf(SampleOpen);
    var t := new Tracker([]);
    assert t.cache.entries == map[];
    r1, first := t.Track(SampleOpen, 0, "2026-10-14 09:00:00", file);
    assert t.cache.entries == map[key := 0];
    assert t.log == [LogEntry("2026-10-14 09:00:00", SampleOpen)];
    r2, second := t.Track(SampleOpen, 10_000, "2026-10-14 09:00:00.010000", file);
    log := t.log;
  }

  /** The sample open with a vertical tab, a line boundary for `str.splitlines()`, inside its subject. */
  const TabbedOpen: Request := Request(SampleEmail, "msg123", "Hello\U{0B}World", None, "1.2.3.4", None)

  /**
   * The answer to a recorded fetch tells whether its sender is listed: with
   * the sample directory the refused subject ends the request with a server
   * error, while with an empty directory the same fetch gets the image.
   */
  lemma AnswerRevealsListing()
    ensures Answer(NoticeFor(TabbedOpen, Directory(SampleFile()))) == InternalServerError
    ensures Answer(NoticeFor(TabbedOpen, Directory([]))) == Beacon
  {
    SampleDirectory();
    EmptyFileEmptyDirectory();
    var s := TabbedOpen.subject;
    assert IsLineBoundary(s[5]) && 5 + TerminatorLength(s, 5) < |s|;
    AnswerExactly(TabbedOpen, Directory(SampleFile()));
  }
}
