/** Pipelined requests are recovered exactly, however their bytes arrive (section 6.3.2 of RFC 7230). */
module Pipelining {
  import opened CString
  import opened BufferedReader
  import opened RequestText
  import opened RequestLoop
  import opened BodyRounds

  // ---- One header block ----

  /** A header block: NUL-free, ended by CRLF CRLF, with no earlier END. */
  ghost predicate Block(w: string) {
    && 4 <= |w|
    && NUL !in w
    && OccursAt(w, FULLEND, |w| - 4)
    && forall i :: 0 <= i < |w| - 4 ==> !OccursAt(w, END, i)
  }

  /** The first END in a text that begins with a block is the block's own. */
  lemma BlockEnd(w: string, t: string)
    requires Block(w) && w <= t
    ensures OccursAt(t, END, |w| - 4)
    ensures forall i :: 0 <= i < |w| - 4 ==> !OccursAt(t, END, i)
    ensures OccursAt(t, FULLEND, |w| - 4)
  {
    var e := |w| - 4;
    assert t[0..|w|] == w;
    OccursShift(t, 0, |w|, FULLEND, e);
    OccursPrefix(t, FULLEND, END, e);
    forall i | 0 <= i < e
      ensures !OccursAt(t, END, i)
    {
      OccursShift(t, 0, |w|, END, i);
    }
  }

  /** Cutting a text keeps the occurrences that fit and makes no new ones. */
  lemma CutOccurrences(t: string, n: nat, pat: string, e: nat)
    requires n <= |t| && forall i :: 0 <= i < e ==> !OccursAt(t, pat, i)
    ensures forall i :: 0 <= i < e ==> !OccursAt(t[..n], pat, i)
    ensures OccursAt(t[..n], pat, e) <==> e + |pat| <= n && OccursAt(t, pat, e)
  {
    assert t[0..n] == t[..n];
    forall i | 0 <= i <= e
      ensures OccursAt(t[..n], pat, i) <==> i + |pat| <= n && OccursAt(t, pat, i)
    {
      OccursShift(t, 0, n, pat, i);
    }
  }

  lemma ShortFind(b: string, pat: string, e: nat)
    requires forall i :: 0 <= i < e ==> !OccursAt(b, pat, i)
    requires |b| < e + |pat|
    ensures Find(b, pat) == None
  {
    FindNone(b, pat);
  }

  /** How many bytes the two-byte scan has read when it finds an end sequence at e. */
  function StopsAt(e: nat): nat {
    if e % 2 == 1 then e + 3 else e + 4
  }

  /** Two more bytes do not step over the stop. */
  lemma EvenSteps(n: nat, e: nat)
    requires n % 2 == 0 && n < StopsAt(e)
    ensures (n + 2) % 2 == 0 && n + 2 <= StopsAt(e) && n < e + 3
  {
  }

  /** In front of a block's end the scan reads two more bytes of the run. */
  lemma ScanReads(run: string, n: nat, rest: seq<string>)
    requires n + 2 <= |run| && n < INBUFFER && Find(run[..n], END).None?
    ensures ScanPlain(run[..n], [run[n..]] + rest)
         == if n + 2 >= INBUFFER then TooLong(run[..n + 2], [run[n + 2..]] + rest)
            else ScanPlain(run[..n + 2], [run[n + 2..]] + rest)
  {
    TakeRun(run, rest, n, 2);
    assert run[..n] + run[n..n + 2] == run[..n + 2];
  }

  /**
   The scan of a run that begins with a block stops one byte before the block's end or at
   it, if the buffer can hold that much, and gives up otherwise.
   */
  lemma {:induction false} ScanBlock(w: string, run: string, n: nat, rest: seq<string>)
    requires Block(w) && w <= run
    requires n % 2 == 0 && n <= StopsAt(|w| - 4) && n < INBUFFER
    ensures ScanPlain(run[..n], [run[n..]] + rest)
         == BlockScan(w, run, rest)
    decreases INBUFFER - n
  {
    var e := |w| - 4;
    BlockEnd(w, run);
    CutOccurrences(run, n, END, e);
    var b := run[..n];
    if n == StopsAt(e) {
      FindIs(b, END, e);
    } else {
      EvenSteps(n, e);
      ShortFind(b, END, e);
      ScanReads(run, n, rest);
      if n + 2 < INBUFFER {
        ScanBlock(w, run, n + 2, rest);
      }
    }
  }

  /** Reading n bytes that the first run holds. */
  lemma TakeRun(run: string, rest: seq<string>, at: nat, n: nat)
    requires at + n <= |run|
    ensures Take([run[at..]] + rest, n) == (run[at..at + n], [run[at + n..]] + rest)
  {
    assert run[at..][..n] == run[at..at + n] && run[at..][n..] == run[at + n..];
    assert ([run[at..]] + rest)[1..] == rest;
  }

  /** The last byte is still to be read exactly when the second search says so. */
  lemma LastByte(w: string, run: string, from: nat)
    requires Block(w) && w <= run
    requires var k := StopsAt(|w| - 4); k <= |run| && SafeStart(run[..k], from)
    ensures Find(CStr(run[..StopsAt(|w| - 4)][from..]), FULLEND).None? <==> StopsAt(|w| - 4) < |w|
  {
    var e := |w| - 4;
    var k := StopsAt(e);
    BlockEnd(w, run);
    BlockBefore(w, run);
    CutOccurrences(run, k, FULLEND, e);
    assert run[..k] == w[..k];
    FindFromSafe(run[..k], from, FULLEND);
    if k == |w| {
      FindIs(run[..k], FULLEND, e);
    } else {
      ShortFind(run[..k], FULLEND, e);
    }
  }

  /**
   A block is consumed exactly, whether its length is odd or even, if it has at most 1023
   bytes; a longer one ends in a bad request.
   */
  lemma ReadBlock(w: string, run: string, rest: seq<string>, s: Stream)
    requires Block(w) && w <= run && s == [run] + rest
    ensures |w| < INBUFFER ==>
      var r := ReadHeader(s);
      r.Found? && r.full == w && r.end == |w| - 4 && r.s == [run[|w|..]] + rest
    ensures |w| >= INBUFFER ==> ReadHeader(s).TooLong?
  {
    var r := ScanFrom([], 0, s);
    WholeScan(w, run, rest, s);
    ScanIsNulFree(w, run, rest);
    ShortcutIsSound([], 0, s);
    if |w| < INBUFFER {
      FinishBlock(r, w, run, rest);
    }
  }

  /** What the scan makes of a block in front of more bytes. */
  ghost function BlockScan(w: string, run: string, rest: seq<string>): (r: Scan)
    requires Block(w) && w <= run
    ensures |w| < INBUFFER <==> r.Found?
    ensures |w| >= INBUFFER <==> r.TooLong?
  {
    var k := StopsAt(|w| - 4);
    if k < INBUFFER then Found(run[..k], 0, |w| - 4, [run[k..]] + rest)
    else TooLong(run[..INBUFFER], [run[INBUFFER..]] + rest)
  }

  lemma WholeScan(w: string, run: string, rest: seq<string>, s: Stream)
    requires Block(w) && w <= run && s == [run] + rest
    ensures ScanPlain([], s) == BlockScan(w, run, rest)
  {
    assert run[..0] == [] && run[0..] == run;
    ScanBlock(w, run, 0, rest);
  }

  lemma ScanIsNulFree(w: string, run: string, rest: seq<string>)
    requires Block(w) && w <= run
    ensures NUL !in BlockScan(w, run, rest).full
  {
    var full := BlockScan(w, run, rest).full;
    assert full == w[..|full|];
  }

  lemma FinishBlock(r: Scan, w: string, run: string, rest: seq<string>)
    requires Block(w) && w <= run && |w| < INBUFFER
    requires SameScan(r, BlockScan(w, run, rest))
    ensures var r' := Finish(r); r'.Found? && r'.full == w && r'.end == |w| - 4 && r'.s == [run[|w|..]] + rest
  {
    var k := StopsAt(|w| - 4);
    LastByte(w, run, r.from);
    assert run[..|w|] == w;
    if k < |w| {
      TakeRun(run, rest, k, 1);
      assert run[..k] + run[k..k + 1] == run[..k + 1];
    }
  }

  lemma BlockBefore(w: string, run: string)
    requires Block(w) && w <= run
    ensures forall i :: 0 <= i < |w| - 4 ==> !OccursAt(run, FULLEND, i)
  {
    BlockEnd(w, run);
    forall i | 0 <= i < |w| - 4
      ensures !OccursAt(run, FULLEND, i)
    {
      if OccursAt(run, FULLEND, i) {
        OccursPrefix(run, FULLEND, END, i);
      }
    }
  }

  // ---- A list of requests ----

  /** A request as its bytes: a header block and a body. */
  datatype Message = Message(block: string, body: string)

  /** The text handle_requests works on: the block without its last CRLF. */
  function Header(m: Message): string
    requires |m.block| >= 2
  {
    m.block[..|m.block| - 2]
  }

  /** The request announces exactly this body, and its method is one that reads it. */
  predicate Announces(q: Request, body: string) {
    var n := ContentLength(q.httpParam);
    if body == [] then n == None || n == Some(0)
    else n == Some(|body|) && (q.kind == PUT || ((q.kind == POST || q.kind == PROPFIND) && |body| <= POST_MAX_SIZE))
  }

  /** A request whose announced body is its own, on a connection that it keeps alive or not. */
  ghost predicate Understood(m: Message) {
    && Block(m.block) && |m.block| < INBUFFER
    && Parse(Header(m)).Some? && Announces(Parse(Header(m)).value, m.body)
  }

  /** The same on a connection kept alive. */
  ghost predicate WellFormed(m: Message) {
    Understood(m) && KeepAlive(Parse(Header(m)).value.httpParam)
  }

  function Text(ms: seq<Message>): string {
    if ms == [] then [] else ms[0].block + (ms[0].body + Text(ms[1..]))
  }

  ghost function HandledAs(m: Message): Handled
    requires Understood(m)
  {
    HandedOver(Header(m), Parse(Header(m)).value, m.body)
  }

  /** Every message of the list is. */
  ghost predicate AllWellFormed(ms: seq<Message>) {
    ms == [] || (WellFormed(ms[0]) && AllWellFormed(ms[1..]))
  }

  ghost function AllHandled(ms: seq<Message>): seq<Handled>
    requires AllWellFormed(ms)
  {
    if ms == [] then [] else [HandledAs(ms[0])] + AllHandled(ms[1..])
  }

  /**
   The rest of the server lets the loop go on with this request: memory, no failed send, nobody
   ends keep-alive. read_file must not be stopped by a failing write; of a body that is refused
   no more is read than read_post_data takes.
   */
  predicate Smooth(o: Outcome, m: Message) {
    && o.memory && o.sent && o.keeps
    && if o.authorised then Name(PUT) <= m.block ==> |m.body| <= o.rounds else |m.body| <= POST_MAX_SIZE
  }

  ghost predicate AllSmooth(decide: nat -> Outcome, n: nat, ms: seq<Message>)
    decreases |ms|
  {
    ms == [] || (Smooth(decide(n), ms[0]) && AllSmooth(decide, n + 1, ms[1..]))
  }

  lemma {:induction false} EachSmooth(decide: nat -> Outcome, n: nat, ms: seq<Message>)
    requires forall i: nat :: i < |ms| ==> Smooth(decide(n + i), ms[i])
    ensures AllSmooth(decide, n, ms)
    decreases |ms|
  {
    if ms != [] {
      assert Smooth(decide(n + 0), ms[0]);
      forall i: nat | i < |ms[1..]|
        ensures Smooth(decide(n + 1 + i), ms[1..][i])
      {
        assert Smooth(decide(n + (i + 1)), ms[i + 1]);
      }
      EachSmooth(decide, n + 1, ms[1..]);
    }
  }

  lemma AllSmoothFromStart(decide: nat -> Outcome, ms: seq<Message>)
    requires forall i: nat :: i < |ms| ==> Smooth(decide(i), ms[i])
    ensures AllSmooth(decide, 0, ms)
  {
    forall i: nat | i < |ms|
      ensures Smooth(decide(0 + i), ms[i])
    {
      assert 0 + i == i;
    }
    EachSmooth(decide, 0, ms);
  }

  lemma HeaderOf(m: Message)
    requires Block(m.block)
    ensures HeaderText(m.block, |m.block| - 4) == Header(m)
  {
    CStrIs(Header(m), Header(m));
  }

  /** One request is handed over with its own body, and the next begins where it ends. */
  lemma OneMessage(m: Message, more: string, o: Outcome, s: Stream)
    requires Understood(m) && Smooth(o, m) && s == [m.block + (m.body + more)]
    ensures var t := OneRequest(s, o);
      t.log == [HandledAs(m)] && t.again == KeepAlive(Parse(Header(m)).value.httpParam) && !t.bad && t.s == [more]
  {
    var q := Parse(Header(m)).value;
    MessageRead(m, more, s);
    if q.kind == PUT {
      PutBegins(m, q);
    }
    AnswerMessage(Header(m), q, m.body, more, o, ReadHeader(s));
  }

  lemma PutBegins(m: Message, q: Request)
    requires |m.block| >= 2 && Parse(Header(m)) == Some(q) && q.kind == PUT
    ensures Name(PUT) <= m.block
  {
    KindIsByName(Header(m), PUT);
  }

  lemma MessageRead(m: Message, more: string, s: Stream)
    requires Block(m.block) && |m.block| < INBUFFER && s == [m.block + (m.body + more)]
    ensures var r := ReadHeader(s);
      r.Found? && r.end + 3 <= |r.full| && HeaderText(r.full, r.end) == Header(m) && r.s == [m.body + more]
  {
    var run := m.block + (m.body + more);
    assert s == [run] + [];
    ReadBlock(m.block, run, [], s);
    assert run[|m.block|..] == m.body + more;
    assert [m.body + more] + [] == [m.body + more];
    HeaderOf(m);
  }

  lemma {:induction false} AnswerMessage(header: string, q: Request, body: string, more: string, o: Outcome, r: Scan)
    requires r.Found? && r.end + 3 <= |r.full| && header == HeaderText(r.full, r.end) && Parse(header) == Some(q)
    requires Announces(q, body) && r.s == [body + more] && o.memory && o.sent && o.keeps
    requires if o.authorised then q.kind == PUT ==> |body| <= o.rounds else |body| <= POST_MAX_SIZE
    ensures var t := Answer(r, o);
      t.log == [HandedOver(header, q, body)] && t.again == KeepAlive(q.httpParam) && !t.bad && t.s == [more]
  {
    AnswerFound(r, o, header, q);
    BodyIsRead(q, body, more, o, r.s);
  }

  /** The body is read whichever way the method reads it, and nothing behind it. */
  lemma BodyIsRead(q: Request, body: string, more: string, o: Outcome, s: Stream)
    requires Announces(q, body) && s == [body + more] && o.memory
    requires if o.authorised then q.kind == PUT ==> |body| <= o.rounds else |body| <= POST_MAX_SIZE
    ensures BodyOf(q, o, s) == (body, OneRun(more))
  {
    if o.authorised && q.kind == PUT {
      assert PutLength(q.httpParam) == |body| && [] + body == body;
      RoundsReadBody([], body, more, |body|, o.rounds);
    } else {
      assert BodyWanted(q.kind, q.httpParam, o) == |body|;
      TakeBody(body, more);
    }
  }

  lemma TakeBody(body: string, more: string)
    ensures Take([body + more], |body|) == (body, [more])
  {
    assert (body + more)[..|body|] == body && (body + more)[|body|..] == more;
    assert [more] + [] == [more];
  }

  /** At the end of the connection nothing more is handed over. */
  lemma ServeNothing(s: Stream, decide: nat -> Outcome, n: nat)
    requires s == [[]]
    ensures Serve(s, decide, n) == Served([], false)
  {
    ServeOnce(s, decide, n);
  }

  /** What one round hands over comes before what serving the rest does. */
  lemma ServeFirst(s: Stream, next: Stream, decide: nat -> Outcome, n: nat, h: Handled, log: seq<Handled>)
    requires var t := OneRequest(s, decide(n)); t.log == [h] && t.again && t.s == next
    requires Serve(next, decide, n + 1) == Served(log, false)
    ensures Serve(s, decide, n) == Served([h] + log, false)
  {
    ServeOnce(s, decide, n);
  }

  lemma ServeMessage(m: Message, more: string, s: Stream, next: Stream, decide: nat -> Outcome, n: nat, log: seq<Handled>)
    requires WellFormed(m) && Smooth(decide(n), m)
    requires s == [m.block + (m.body + more)] && next == [more]
    requires Serve(next, decide, n + 1) == Served(log, false)
    ensures Serve(s, decide, n) == Served([HandledAs(m)] + log, false)
  {
    OneMessage(m, more, decide(n), s);
    ServeFirst(s, next, decide, n, HandledAs(m), log);
  }

  lemma {:induction false} ServeMessages(ms: seq<Message>, s: Stream, decide: nat -> Outcome, n: nat)
    requires AllWellFormed(ms) && AllSmooth(decide, n, ms)
    requires s == [Text(ms)]
    ensures Serve(s, decide, n) == Served(AllHandled(ms), false)
    decreases |ms|
  {
    if ms == [] {
      ServeNothing(s, decide, n);
    } else {
      var more := Text(ms[1..]);
      ServeMessages(ms[1..], OneRun(more), decide, n + 1);
      ServeMessage(ms[0], more, s, OneRun(more), decide, n, AllHandled(ms[1..]));
    }
  }

  /** A request that does not keep the connection alive is the last one, whatever follows it. */
  lemma LastMessage(m: Message, more: string, s: Stream, decide: nat -> Outcome, n: nat)
    requires Understood(m) && !KeepAlive(Parse(Header(m)).value.httpParam) && Smooth(decide(n), m)
    requires s == [m.block + (m.body + more)]
    ensures Serve(s, decide, n) == Served([HandledAs(m)], false)
  {
    OneMessage(m, more, decide(n), s);
    ServeOnce(s, decide, n);
  }

  /** A header block that begins with no method's name ends in a 400 and hands nothing over. */
  lemma UnknownIsRejected(w: string, more: string, s: Stream, decide: nat -> Outcome, n: nat)
    requires Block(w) && |w| < INBUFFER && s == [w + more]
    requires forall kind :: !(Name(kind) <= w)
    ensures Serve(s, decide, n) == Served([], true)
  {
    var m := Message(w, []);
    assert w + ([] + more) == w + more;
    MessageRead(m, more, s);
    forall kind
      ensures !(Name(kind) <= Header(m))
    {
      assert Header(m) <= w;
    }
    UnknownIsBad(Header(m));
    AnswerUnparsed(ReadHeader(s), decide(n), Header(m));
    ServeOnce(s, decide, n);
  }

  /** The bytes of a list of chunks. */
  function Delivered(events: seq<Event>): string {
    if events == [] then []
    else (if events[0].Chunk? then events[0].bytes else []) + Delivered(events[1..])
  }

  lemma {:induction false} ChunksAreOneRun(events: seq<Event>)
    requires forall e :: e in events ==> e.Chunk? && e.bytes != []
    ensures Runs(events) == [Delivered(events)]
  {
    if events != [] {
      ChunksAreOneRun(events[1..]);
    }
  }

  /**
   Whatever the non-empty pieces in which the concatenated requests arrive, the loop hands
   over exactly the requests that were sent, each with its own body, and ends without a 400.
   */
  lemma PipelinedRequestsAreRecovered(ms: seq<Message>, events: seq<Event>, decide: nat -> Outcome)
    requires AllWellFormed(ms)
    requires forall e :: e in events ==> e.Chunk? && e.bytes != []
    requires Delivered(events) == Text(ms)
    requires forall i: nat :: i < |ms| ==> Smooth(decide(i), ms[i])
    ensures Serve(Runs(events), decide, 0) == Served(AllHandled(ms), false)
  {
    AllSmoothFromStart(decide, ms);
    ChunksAreOneRun(events);
    ServeMessages(ms, OneRun(Delivered(events)), decide, 0);
  }

  /** A header block of more than 1023 bytes is never handed over, whatever follows it. */
  lemma LongBlockIsRejected(w: string, more: string, decide: nat -> Outcome, n: nat)
    requires Block(w) && |w| >= INBUFFER
    ensures Serve([w + more], decide, n) == Served([], true)
  {
    var s: Stream := [w + more];
    assert s == [w + more] + [];
    ReadBlock(w, w + more, [], s);
  }
}
