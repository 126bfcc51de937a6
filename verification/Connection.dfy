/** A worker's request buffer and its loop over the requests of its connections (instance.c). */
module Connection {
  import opened CString
  import opened BufferedReader
  import opened RequestText
  import opened RequestLoop
  import opened BodyRounds
  import opened InPlace
  import opened RequestBuffer

  const BUFFERED_READER_SIZE := 2048

  /** How the scan ended, and where in the buffer. */
  datatype Status = Closed | Full | Ended(from: nat, end: nat)

  function AsScan(status: Status, full: string, s: Stream): Scan {
    match status
    case Closed => Gone(full, s)
    case Full => TooLong(full, s)
    case Ended(from, end) => Found(full, from, end, s)
  }

  /** One unsuccessful search of the scan, and what it leads to. */
  lemma ScanStep(b: string, from: nat, s: Stream)
    requires from <= |b| < INBUFFER && Find(CStr(b[from..]), END).None?
    ensures var (r, s') := Take(s, 2);
      ScanFrom(b, from, s) == if r == [] then Gone(b, s')
                              else if |b + r| >= INBUFFER then TooLong(b + r, s')
                              else ScanFrom(b + r, if r[0] == LF || r[0] == CR then from else |b|, s')
  {
  }

  /** The header is the finished scan from an unused buffer. */
  lemma HeaderIs(b: string, s: Stream, r: Scan)
    requires b == [] && r == ScanFrom(b, 0, s)
    ensures RequestLoop.ReadHeader(s) == if r.Found? then Finish(r) else r
    ensures r.Found? ==> r.from <= |r.full| && r.end + 3 <= |r.full| < INBUFFER
  {
  }

  lemma ScanEnds(b: string, from: nat, s: Stream)
    requires from <= |b| < INBUFFER && Find(CStr(b[from..]), END).Some?
    ensures ScanFrom(b, from, s) == Found(b, from, from + Find(CStr(b[from..]), END).value, s)
  {
  }

  class Worker {
    const buf: array<char>
    var bufFull: nat
    const reader: Reader

    /** Every byte that no request has used yet is zero. */
    ghost predicate Valid()
      reads this, buf, reader
    {
      && buf.Length == INBUFFER + 1 && bufFull <= buf.Length
      && reader.Valid() && reader.buffer != buf
      && forall i :: bufFull <= i < buf.Length ==> buf[i] == NUL
    }

    ghost function Stream(src: Source): Stream
      requires Valid()
      reads this, buf, reader, reader.buffer, src
    {
      reader.Stream(src)
    }

    constructor ()
      ensures Valid() && fresh(buf) && fresh(reader) && fresh(reader.buffer)
      ensures bufFull == 0 && reader.start == reader.end
    {
      buf := new char[INBUFFER + 1](_ => NUL);
      bufFull := 0;
      reader := new Reader(BUFFERED_READER_SIZE);
    }

    /** The memset at the start of each request: zeroes only what the last one used. */
    method Wipe()
      requires Valid()
      modifies this`bufFull, buf
      ensures Valid() && bufFull == 0
      ensures forall i :: 0 <= i < buf.Length ==> buf[i] == NUL
    {
      if bufFull != 0 {
        forall i | 0 <= i < bufFull {
          buf[i] := NUL;
        }
        bufFull := 0;
      }
    }

    /** Past the used part the buffer is zero, so a search sees the used part only. */
    lemma SeesUsedPart(from: nat)
      requires Valid() && from <= bufFull
      ensures CStr(buf[from..]) == CStr(buf[..bufFull][from..])
    {
      CStrUpTo(buf[from..], buf[..bufFull][from..]);
    }

    /** buffer_read behind the used part. */
    method Append(src: Source, count: nat) returns (r: nat)
      requires Valid() && bufFull + count <= buf.Length
      modifies this`bufFull, buf, reader, reader.buffer, src
      ensures Valid() && r == |Take(old(Stream(src)), count).0| && bufFull == old(bufFull) + r
      ensures buf[..bufFull] == old(buf[..bufFull]) + Take(old(Stream(src)), count).0
      ensures Stream(src) == Take(old(Stream(src)), count).1
      ensures r > 0 ==> buf[bufFull - r] == Take(old(Stream(src)), count).0[0]
    {
      ghost var b := buf[..bufFull];
      r := reader.Read(src, buf, bufFull, count);
      assert buf[..bufFull] == b;
      assert buf[..bufFull + r] == buf[..bufFull] + buf[bufFull..bufFull + r];
      bufFull := bufFull + r;
      assert r > 0 ==> buf[bufFull - r] == buf[bufFull - r..bufFull][0];
    }

    /** strstr on the buffer from `from` on. */
    method Search(from: nat, pat: string) returns (at: Option<nat>)
      requires Valid() && from <= bufFull
      ensures at == Find(CStr(buf[..bufFull][from..]), pat)
    {
      SeesUsedPart(from);
      at := Find(CStr(buf[from..]), pat);
    }

    /** The test and body of the scanning loop: two more bytes if there is no END yet, and where to search next. */
    method ScanRound(src: Source, from: nat, ghost whole: Scan) returns (status: Option<Status>, from': nat)
      requires Valid() && from <= bufFull < INBUFFER
      requires ScanFrom(buf[..bufFull], from, Stream(src)) == whole
      modifies this`bufFull, buf, reader, reader.buffer, src
      ensures Valid()
      ensures status.Some? ==> AsScan(status.value, buf[..bufFull], Stream(src)) == whole
      ensures status.None? ==> old(bufFull) < bufFull && from' <= bufFull < INBUFFER
      ensures status.None? ==> ScanFrom(buf[..bufFull], from', Stream(src)) == whole
    {
      from' := from;
      var end := Search(from, END);
      if end.Some? {
        ScanEnds(buf[..bufFull], from, Stream(src));
        return Some(Ended(from, from + end.value)), from;
      }
      status, from' := ReadOn(src, from, whole);
    }

    /** The body of the scanning loop. */
    method ReadOn(src: Source, from: nat, ghost whole: Scan) returns (status: Option<Status>, from': nat)
      requires Valid() && from <= bufFull < INBUFFER && Find(CStr(buf[..bufFull][from..]), END).None?
      requires ScanFrom(buf[..bufFull], from, Stream(src)) == whole
      modifies this`bufFull, buf, reader, reader.buffer, src
      ensures Valid()
      ensures status.Some? ==> AsScan(status.value, buf[..bufFull], Stream(src)) == whole
      ensures status.None? ==> old(bufFull) < bufFull && from' <= bufFull < INBUFFER
      ensures status.None? ==> ScanFrom(buf[..bufFull], from', Stream(src)) == whole
    {
      from' := from;
      ScanStep(buf[..bufFull], from, Stream(src));
      var r := Append(src, 2);
      if r <= 0 {
        AppendNothingRight(buf[..bufFull]);
        return Some(Closed), from;
      }
      if !(buf[bufFull - r] == LF || buf[bufFull - r] == CR) {
        from' := bufFull - r;
      }
      status := if bufFull >= INBUFFER then Some(Full) else None;
    }

    /** Lines 149 to 165: reads until END shows up, the input ends, or the buffer is full. */
    method Scan(src: Source) returns (status: Status)
      requires Valid() && bufFull < INBUFFER
      modifies this`bufFull, buf, reader, reader.buffer, src
      ensures Valid()
      ensures AsScan(status, buf[..bufFull], Stream(src)) == ScanFrom(old(buf[..bufFull]), 0, old(Stream(src)))
    {
      var from: nat := 0;
      ghost var whole := ScanFrom(buf[..bufFull], from, Stream(src));
      var over: Option<Status> := None;
      while over.None?
        invariant Valid() && (over.None? ==> from <= bufFull < INBUFFER)
        invariant over.None? ==> ScanFrom(buf[..bufFull], from, Stream(src)) == whole
        invariant over.Some? ==> AsScan(over.value, buf[..bufFull], Stream(src)) == whole
        decreases over.None?, INBUFFER - bufFull
      {
        over, from := ScanRound(src, from, whole);
      }
      status := over.value;
    }

    /** Lines 149 to 170: the whole header, with the last byte of its end. */
    method ReadHeader(src: Source) returns (status: Status)
      requires Valid() && bufFull == 0
      modifies this`bufFull, buf, reader, reader.buffer, src
      ensures Valid() && AsScan(status, buf[..bufFull], Stream(src)) == RequestLoop.ReadHeader(old(Stream(src)))
      ensures status.Ended? ==> status.end + 3 <= bufFull
    {
      ghost var s := Stream(src);
      NothingUsed();
      status := Scan(src);
      ghost var r := AsScan(status, buf[..bufFull], Stream(src));
      HeaderIs(old(buf[..bufFull]), s, r);
      if status.Ended? {
        ReadLast(src, status, r);
      }
    }

    /** Lines 167 to 170: the last byte of the end, if it has not been read. */
    method ReadLast(src: Source, status: Status, ghost r: Scan)
      requires Valid() && bufFull < INBUFFER && status.Ended? && status.from <= bufFull && status.end + 3 <= bufFull
      requires AsScan(status, buf[..bufFull], Stream(src)) == r
      modifies this`bufFull, buf, reader, reader.buffer, src
      ensures Valid() && AsScan(status, buf[..bufFull], Stream(src)) == Finish(r) && status.end + 3 <= bufFull
    {
      var complete := Search(status.from, FULLEND);
      if complete.None? {
        var _ := Append(src, 1);
      }
    }

    lemma NothingUsed()
      requires Valid() && bufFull == 0
      ensures buf[..bufFull] == []
    {
    }

    /** read_post_data, or a handler reading its body: into a buffer of its own. */
    method ReadBody(src: Source, wanted: nat) returns (body: string)
      requires Valid()
      modifies reader, reader.buffer, src
      ensures Valid() && (body, Stream(src)) == Take(old(Stream(src)), wanted)
    {
      var data := new char[wanted];
      var len := reader.Read(src, data, 0, wanted);
      body := data[..len];
      assert data[0..len] == body;
    }

    /** Ends the header behind the first CRLF of its end and reads it as a C string. */
    method CutHeader(end: nat) returns (header: string, ghost m: Layout)
      requires Valid() && end + 3 <= bufFull
      modifies buf
      ensures Valid() && header == HeaderText(old(buf[..bufFull]), end) && |header| < bufFull
      ensures m.Valid() && buf[..] == m.Bytes() && m.pre == [] && m.s == header
    {
      ghost var text := buf[..bufFull][..end + 2];
      buf[end + 2] := NUL;
      assert buf[..][..end + 2] == text;
      CStrUpTo(buf[..], text);
      header := CStr(buf[..]);
      assert buf[0..] == buf[..];
      m := LayoutAt(buf[..], 0);
    }

    /**
     Takes the request line apart and cleans the path, all in the buffer. That the unused part
     stays zero is a consequence: nothing from the end of the header on is changed.
     */
    method TakeApart(ghost m: Layout) returns (p: Option<Props>)
      requires Valid() && m.Valid() && buf[..] == m.Bytes() && m.pre == [] && |m.s| < bufFull
      modifies buf
      ensures Valid()
      ensures p.None? ==> Parse(m.s) == None
      ensures p.Some? ==> Parse(m.s).Some? && Holds(buf[..], p.value, Parse(m.s).value)
    {
      ghost var was := buf[..];
      WholeEnd(m);
      p := ParseInPlace(buf, m);
      forall i | bufFull <= i < buf.Length
        ensures buf[i] == NUL
      {
        assert was[i] == was[|m.s|..][i - |m.s|] == buf[..][|m.s|..][i - |m.s|];
      }
    }

    /** read_file as far as the connection is concerned: reads of one piece at a time, up to the length. */
    method ReadPieces(src: Source, length: int, rounds: nat) returns (body: string)
      requires Valid()
      modifies reader, reader.buffer, src
      ensures Valid() && (body, Stream(src)) == Rounds(old(Stream(src)), [], length, rounds)
    {
      ghost var s := Stream(src);
      body := [];
      for k := 0 to rounds
        invariant Valid() && (body, Stream(src)) == Rounds(s, [], length, k)
      {
        RoundsLast(s, [], length, k);
        if |body| < length {
          var piece := ReadBody(src, Step(length - |body|));
          body := body + piece;
        }
      }
    }

    /** The body that send_page or a handler of its reads. */
    method BodyFor(src: Source, p: Props, httpParam: string, o: Outcome, ghost q: Request) returns (body: string)
      requires Valid() && p.kind == q.kind && httpParam == q.httpParam
      modifies reader, reader.buffer, src
      ensures Valid() && (body, Stream(src)) == BodyOf(q, o, old(Stream(src)))
    {
      if o.authorised && p.kind == PUT {
        body := ReadPieces(src, PutLength(httpParam), o.rounds);
      } else {
        body := ReadBody(src, BodyWanted(p.kind, httpParam, o));
      }
    }

    /** What the handlers see of the request in the buffer. */
    method Seen(p: Props, header: string, body: string, ghost q: Request) returns (h: Handled)
      requires Holds(buf[..], p, q)
      ensures h == HandedOver(header, q, body)
    {
      var params := if p.params.Some? then Some(CStr(buf[p.params.value..])) else None;
      h := Handled(p.kind, header, CStr(buf[p.verb..]), CStr(buf[p.page..]), params, CStr(buf[p.httpParam..]), body);
    }

    /** send_page and what follows it, on a request that stands in the buffer. */
    method SendPage(src: Source, p: Props, header: string, o: Outcome, ghost q: Request)
      returns (log: seq<Handled>, again: bool)
      requires Valid() && Holds(buf[..], p, q)
      modifies reader, reader.buffer, src
      ensures Valid()
      ensures Turn(log, again, false, Stream(src)) == AnswerTo(header, q, old(Stream(src)), o)
    {
      var body := BodyFor(src, p, CStr(buf[p.httpParam..]), o, q);
      var h := Seen(p, header, body, q);
      log := [h];
      again := o.sent && p.keepAlive && o.keeps;
    }

    /** Lines 172 to 224: the round once the header is there, or is not. */
    method Answer(src: Source, status: Status, o: Outcome) returns (log: seq<Handled>, again: bool, bad: bool)
      requires Valid() && (status.Ended? ==> status.end + 3 <= bufFull)
      modifies buf, reader, reader.buffer, src
      ensures Valid()
      ensures Turn(log, again, bad, Stream(src))
           == RequestLoop.Answer(AsScan(status, old(buf[..bufFull]), old(Stream(src))), o)
    {
      if status.Closed? {
        return [], false, false;
      } else if status.Full? {
        return [], false, true;
      }
      log, again, bad := AnswerHeader(src, status.end, o, AsScan(status, buf[..bufFull], Stream(src)));
    }

    /** The same for a header that ends at `end`. */
    method AnswerHeader(src: Source, end: nat, o: Outcome, ghost r: Scan)
      returns (log: seq<Handled>, again: bool, bad: bool)
      requires Valid() && end + 3 <= bufFull
      requires r.Found? && r.full == buf[..bufFull] && r.end == end && r.s == Stream(src)
      modifies buf, reader, reader.buffer, src
      ensures Valid() && Turn(log, again, bad, Stream(src)) == RequestLoop.Answer(r, o)
    {
      ghost var m;
      var header;
      header, m := CutHeader(end);
      var p := TakeApart(m);
      if p.None? {
        AnswerUnparsed(r, o, header);
        return [], false, true;
      }
      ghost var q := Parse(header).value;
      AnswerFound(r, o, header, q);
      log, again := SendPage(src, p.value, header, o, q);
      bad := false;
    }

    /** One round of the loop of handle_requests. */
    method OneRequest(src: Source, o: Outcome) returns (log: seq<Handled>, again: bool, bad: bool)
      requires Valid()
      modifies this`bufFull, buf, reader, reader.buffer, src
      ensures Valid() && Turn(log, again, bad, Stream(src)) == RequestLoop.OneRequest(old(Stream(src)), o)
    {
      Wipe();
      var status := ReadHeader(src);
      log, again, bad := Answer(src, status, o);
    }

    /** handle_requests: what it hands over, and whether it answers with a 400 at the end. */
    method HandleRequests(src: Source, decide: nat -> Outcome) returns (log: seq<Handled>, bad: bool)
      requires Valid()
      modifies this`bufFull, buf, reader, reader.buffer, src
      ensures Valid() && Served(log, bad) == Serve(old(Stream(src)), decide, 0)
    {
      ghost var whole := Serve(Stream(src), decide, 0);
      log, bad := [], false;
      assert [] + whole.log == whole.log;
      var n := 0;
      var again := true;
      while again
        invariant Valid()
        invariant again ==> Remaining(whole, log, Stream(src), decide, n)
        invariant !again ==> Served(log, bad) == whole
        decreases again, Size(Stream(src))
      {
        ghost var s := Stream(src);
        var handed;
        handed, again, bad := OneRequest(src, decide(n));
        ServeRound(whole, log, s, decide, n, Turn(handed, again, bad, Stream(src)));
        log := log + handed;
        n := n + 1;
      }
    }
  }

  /** After `log`, serving what is left from request n on completes `whole`. */
  ghost predicate Remaining(whole: Served, log: seq<Handled>, s: Stream, decide: nat -> Outcome, n: nat) {
    var rest := Serve(s, decide, n);
    log + rest.log == whole.log && rest.bad == whole.bad
  }

  lemma ServeRound(whole: Served, log: seq<Handled>, s: Stream, decide: nat -> Outcome, n: nat, t: Turn)
    requires Remaining(whole, log, s, decide, n) && t == RequestLoop.OneRequest(s, decide(n))
    ensures t.again ==> Remaining(whole, log + t.log, t.s, decide, n + 1) && Size(t.s) < Size(s)
    ensures !t.again ==> Served(log + t.log, t.bad) == whole
  {
    ServeOnce(s, decide, n);
    if t.again {
      LogAssoc(log, t.log, Serve(t.s, decide, n + 1).log);
    }
  }

  lemma LogAssoc(a: seq<Handled>, b: seq<Handled>, c: seq<Handled>)
    ensures (a + b) + c == a + (b + c)
  {
  }

  /** One connection of a thread, from its first byte to buffer_reset. */
  method ServeConnection(w: Worker, events: seq<Event>, decide: nat -> Outcome) returns (served: Served)
    requires w.Valid() && w.reader.start == w.reader.end
    modifies w, w.buf, w.reader, w.reader.buffer
    ensures w.Valid() && w.reader.start == w.reader.end
    ensures served == Serve(Runs(events), decide, 0)
  {
    var src := new Source(events);
    assert w.reader.buffer[w.reader.start..w.reader.end] == [];
    PrependNothing(Runs(events));
    var log, bad := w.HandleRequests(src, decide);
    w.reader.Reset(src);
    served := Served(log, bad);
  }

  /** What serving each of these connections by itself gives. */
  ghost function EachServed(conns: seq<seq<Event>>, decide: nat -> nat -> Outcome): (all: seq<Served>)
    ensures |all| == |conns|
    ensures forall i :: 0 <= i < |conns| ==> all[i] == Serve(Runs(conns[i]), decide(i), 0)
  {
    seq(|conns|, i requires 0 <= i < |conns| => Serve(Runs(conns[i]), decide(i), 0))
  }

  /**
   The connections of one thread in turn, as `instance` serves them: the request buffer and
   the reader are the same for all, and buffer_reset separates them.
   */
  method ServeConnections(w: Worker, conns: seq<seq<Event>>, decide: nat -> nat -> Outcome)
    returns (served: seq<Served>)
    requires w.Valid() && w.reader.start == w.reader.end
    modifies w, w.buf, w.reader, w.reader.buffer
    ensures w.Valid() && served == EachServed(conns, decide)
  {
    ghost var all := EachServed(conns, decide);
    served := [];
    for i := 0 to |conns|
      invariant w.Valid() && w.reader.start == w.reader.end
      invariant served == all[..i]
    {
      var one := ServeConnection(w, conns[i], decide(i));
      OneMore(all, i);
      served := served + [one];
    }
    OneMore(all, |all|);
  }

  lemma OneMore(all: seq<Served>, i: nat)
    requires i <= |all|
    ensures i < |all| ==> all[..i] + [all[i]] == all[..i + 1]
    ensures i == |all| ==> all[..i] == all
  {
  }
}
