/** The loop over the pipelined requests of a connection, on the stream of its bytes (instance.c). */
module RequestLoop {
  import opened CString
  import opened BufferedReader
  import opened RequestText
  import opened BodyRounds
  import UrlCleanup

  const INBUFFER := 1024

  /** What ends a header, and what a complete end looks like. */
  const END: string := "\r\n\r"
  const FULLEND: string := "\r\n\r\n"

  datatype Scan =
    | Gone(full: string, s: Stream)       // nothing more to read
    | TooLong(full: string, s: Stream)    // the buffer is full without an end
    | Found(full: string, from: nat, end: nat, s: Stream) // `end` is where the end sequence begins

  /** The scanning loop: two bytes at a time, searching from `from` only. */
  function ScanFrom(b: string, from: nat, s: Stream): (r: Scan)
    requires from <= |b| < INBUFFER
    ensures b <= r.full && (r.TooLong? || |r.full| < INBUFFER) && |r.full| <= INBUFFER + 1
    ensures r.Found? ==> r.from <= r.end && r.end + 3 <= |r.full| < INBUFFER
    ensures Size(r.s) + |r.full| <= Size(s) + |b|
    decreases INBUFFER - |b|
  {
    match Find(CStr(b[from..]), END)
    case Some(k) => Found(b, from, from + k, s)
    case None =>
      TakeSize(s, 2);
      var (r, s') := Take(s, 2);
      if r == [] then Gone(b, s')
      else
        var from' := if r[0] == LF || r[0] == CR then from else |b|;
        if |b + r| >= INBUFFER then TooLong(b + r, s') else ScanFrom(b + r, from', s')
  }

  /** The last byte of the end sequence is read now, if the scan stopped before it. */
  function Finish(r: Scan): (r': Scan)
    requires r.Found? ==> r.from <= |r.full|
    ensures |r.full| <= |r'.full| <= |r.full| + if r.Found? then 1 else 0
    ensures r'.Found? == r.Found? && (r.Found? ==> r'.end == r.end)
    ensures Size(r'.s) + |r'.full| <= Size(r.s) + |r.full|
  {
    if r.Found? && Find(CStr(r.full[r.from..]), FULLEND).None? then
      TakeSize(r.s, 1);
      var (last, s') := Take(r.s, 1);
      Found(r.full + last, r.from, r.end, s')
    else r
  }

  /** The whole header. */
  function ReadHeader(s: Stream): (r: Scan)
    ensures |r.full| <= INBUFFER + 1 && (r.Found? ==> 0 < |r.full| && r.end + 3 <= |r.full|)
    ensures r.Found? ==> r.end + 3 < INBUFFER
    ensures Size(r.s) + |r.full| <= Size(s)
  {
    Finish(ScanFrom([], 0, s))
  }

  // ---- The loop over requests ----

  /** What the rest of the server decides about one request. */
  datatype Outcome = Outcome(
    authorised: bool,   // auth_check_request returned 0
    memory: bool,       // the buffer for the body could be allocated
    rounds: nat,        // how often read_file reads until its loop ends or a write fails
    sent: bool,         // send_page did not fail
    keeps: bool)        // the handler did not switch keep_alive off

  /**
   A request as it was handed to the handlers: the header as it came, what the fields of
   connection_prop read as, and the body read for it.
   */
  datatype Handled = Handled(kind: Kind, header: string, verb: string, page: string, params: Option<string>,
                             httpParam: string, body: string)

  /** A parsed request, its path split and cleaned. */
  function HandedOver(header: string, q: Request, body: string): Handled {
    Handled(q.kind, header, q.verb, UrlCleanup.PagePart(q.page), UrlCleanup.QueryPart(q.page), q.httpParam, body)
  }

  datatype Turn = Turn(log: seq<Handled>, again: bool, bad: bool, s: Stream)

  /** How many body bytes read_post_data asks for, where send_page calls it. */
  function BodyWanted(kind: Kind, httpParam: string, o: Outcome): nat {
    if (!o.authorised || kind == POST || kind == PROPFIND) && o.memory then BodyLength(httpParam) else 0
  }

  /** The length that read_file reads up to. */
  function PutLength(httpParam: string): int {
    var n := ContentLength(httpParam);
    if n.Some? then n.value else 0
  }

  /** The body that is read for a request, and what it leaves on the connection. */
  function BodyOf(q: Request, o: Outcome, s: Stream): (r: (string, Stream))
    ensures Size(r.1) <= Size(s)
  {
    if o.authorised && q.kind == PUT then Rounds(s, [], PutLength(q.httpParam), o.rounds)
    else
      TakeSize(s, BodyWanted(q.kind, q.httpParam, o));
      Take(s, BodyWanted(q.kind, q.httpParam, o))
  }

  /** The header text: a C string that still ends in one CRLF. */
  function HeaderText(full: string, end: nat): string
    requires end + 3 <= |full|
  {
    CStr(full[..end + 2])
  }

  /** What one round does with a request that was understood. */
  function AnswerTo(header: string, q: Request, s: Stream, o: Outcome): (t: Turn)
    ensures Size(t.s) <= Size(s) && (t.again ==> o.sent && o.keeps)
  {
    var (body, s') := BodyOf(q, o, s);
    Turn([HandedOver(header, q, body)], o.sent && KeepAlive(q.httpParam) && o.keeps, false, s')
  }

  /** What one round does once the header has been read, or could not be. */
  function Answer(r: Scan, o: Outcome): (t: Turn)
    requires r.Found? ==> r.end + 3 <= |r.full|
    ensures Size(t.s) <= Size(r.s) && (t.again ==> r.Found? && o.sent && o.keeps)
  {
    if r.Gone? then Turn([], false, false, r.s)
    else if r.TooLong? then Turn([], false, true, r.s)
    else
      var header := HeaderText(r.full, r.end);
      match Parse(header)
      case None => Turn([], false, true, r.s)
      case Some(q) => AnswerTo(header, q, r.s, o)
  }

  lemma AnswerFound(r: Scan, o: Outcome, header: string, q: Request)
    requires r.Found? && r.end + 3 <= |r.full| && header == HeaderText(r.full, r.end) && Parse(header) == Some(q)
    ensures Answer(r, o) == AnswerTo(header, q, r.s, o)
  {
  }

  lemma AnswerUnparsed(r: Scan, o: Outcome, header: string)
    requires r.Found? && r.end + 3 <= |r.full| && header == HeaderText(r.full, r.end) && Parse(header) == None
    ensures Answer(r, o) == Turn([], false, true, r.s)
  {
  }

  /** One round of handle_requests. */
  function OneRequest(s: Stream, o: Outcome): (t: Turn)
    ensures t.again ==> Size(t.s) < Size(s) && o.sent && o.keeps
  {
    Answer(ReadHeader(s), o)
  }

  datatype Served = Served(log: seq<Handled>, bad: bool)

  /** handle_requests: the requests handed over, and whether it ended in a 400. */
  function Serve(s: Stream, decide: nat -> Outcome, n: nat): Served
    decreases Size(s)
  {
    var t := OneRequest(s, decide(n));
    if t.again then
      var rest := Serve(t.s, decide, n + 1);
      Served(t.log + rest.log, rest.bad)
    else Served(t.log, t.bad)
  }

  lemma ServeOnce(s: Stream, decide: nat -> Outcome, n: nat)
    ensures var t := OneRequest(s, decide(n));
      Serve(s, decide, n) == if t.again then Served(t.log + Serve(t.s, decide, n + 1).log, Serve(t.s, decide, n + 1).bad)
                             else Served(t.log, t.bad)
  {
  }

  // ---- Searching from `from` is searching from the start ----

  /** The scan without the shortcut: every search starts at the beginning of the buffer. */
  function ScanPlain(b: string, s: Stream): (r: Scan)
    requires |b| < INBUFFER
    ensures b <= r.full
    decreases INBUFFER - |b|
  {
    match Find(b, END)
    case Some(k) => Found(b, 0, k, s)
    case None =>
      var (r, s') := Take(s, 2);
      if r == [] then Gone(b, s')
      else if |b + r| >= INBUFFER then TooLong(b + r, s')
      else ScanPlain(b + r, s')
  }

  /** Nothing that could belong to an end sequence lies before `from`. */
  ghost predicate SafeStart(b: string, from: nat) {
    && from <= |b|
    && (from == 0 || (from < |b| && b[from] != CR && b[from] != LF))
    && forall i :: 0 <= i < from ==> !OccursAt(b, END, i)
  }

  ghost predicate SameScan(a: Scan, b: Scan) {
    && a.full == b.full && a.s == b.s
    && a.Gone? == b.Gone? && a.TooLong? == b.TooLong?
    && (a.Found? ==> a.end == b.end && SafeStart(a.full, a.from))
  }

  lemma OccursBehind(b: string, from: nat, pat: string, i: nat)
    requires from <= i && from <= |b|
    ensures OccursAt(b[from..], pat, i - from) <==> OccursAt(b, pat, i)
  {
    assert b[from..|b|] == b[from..];
    OccursShift(b, from, |b|, pat, i - from);
  }

  lemma OccursInFront(b: string, from: nat, pat: string, i: nat)
    requires SafeStart(b, from) && END <= pat && i < from
    ensures !OccursAt(b, pat, i)
  {
    if OccursAt(b, pat, i) {
      OccursPrefix(b, pat, END, i);
    }
  }

  /** From a safe start the first occurrence of END, or of anything longer that starts like it, is the first of all. */
  lemma FindFromSafe(b: string, from: nat, pat: string)
    requires NUL !in b && SafeStart(b, from) && END <= pat
    ensures match Find(CStr(b[from..]), pat)
      case Some(k) => Find(b, pat) == Some(from + k)
      case None => Find(b, pat) == None
  {
    CStrIs(b[from..], b[from..]);
    var found := Find(b[from..], pat);
    var first := if found.Some? then from + found.value else |b| + 1;
    forall i: nat | i < first
      ensures !OccursAt(b, pat, i)
    {
      if i < from {
        OccursInFront(b, from, pat, i);
      } else {
        OccursBehind(b, from, pat, i);
      }
    }
    if found.Some? {
      OccursBehind(b, from, pat, first);
      FindIs(b, pat, first);
    } else {
      FindNone(b, pat);
    }
  }

  /** Appending a read keeps the updated start safe. */
  lemma SafeStartKept(b: string, from: nat, r: string)
    requires SafeStart(b, from) && Find(b, END) == None && r != []
    ensures SafeStart(b + r, if r[0] == LF || r[0] == CR then from else |b|)
  {
    var from' := if r[0] == LF || r[0] == CR then from else |b|;
    var b' := b + r;
    forall i | 0 <= i < from'
      ensures !OccursAt(b', END, i)
    {
      if i + 3 <= |b| {
        OccursShift(b', 0, |b|, END, i);
        assert b'[0..|b|] == b;
      } else {
        Mismatch(b', END, i, from' - i);
      }
    }
  }

  /** As long as the scan meets no NUL, the shortcut changes neither what it finds nor what it reads. */
  lemma {:induction false} ShortcutIsSound(b: string, from: nat, s: Stream)
    requires |b| < INBUFFER && SafeStart(b, from)
    requires NUL !in ScanPlain(b, s).full
    ensures SameScan(ScanFrom(b, from, s), ScanPlain(b, s))
    decreases INBUFFER - |b|
  {
    FindFromSafe(b, from, END);
    if Find(b, END).None? {
      var (r, s') := Take(s, 2);
      if r != [] && |b + r| < INBUFFER {
        SafeStartKept(b, from, r);
        ShortcutIsSound(b + r, if r[0] == LF || r[0] == CR then from else |b|, s');
      }
    }
  }
}
