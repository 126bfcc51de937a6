/** Pipelining for requests written out as HTTP/1.1 text. */
module HttpText {
  import opened CString
  import opened CNumber
  import opened Fields
  import opened BufferedReader
  import opened RequestText
  import opened RequestLoop
  import UrlCleanup
  import opened Pipelining

  const CONNECTION: string := "Connection"
  const VERSION: string := "HTTP/1.1"

  /** A request without a body, or one whose length is announced between other fields. */
  datatype Http =
    | Plain(kind: Kind, path: string, fields: seq<string>)
    | WithBody(kind: Kind, path: string, before: seq<string>, after: seq<string>, content: string)

  function LengthField(n: nat): string {
    Field(CONTENT_LENGTH, Decimal(n))
  }

  function FieldsOf(h: Http): seq<string> {
    match h
    case Plain(_, _, fields) => fields
    case WithBody(_, _, before, after, content) => before + ([LengthField(|content|)] + after)
  }

  function ContentOf(h: Http): string {
    if h.WithBody? then h.content else []
  }

  function RequestLine(h: Http): string {
    Name(h.kind) + " " + h.path + " " + VERSION
  }

  function MessageOf(h: Http): Message {
    Message(Joined([RequestLine(h)] + FieldsOf(h)) + CRLF, ContentOf(h))
  }

  /** A field that has nothing to do with the length of the body or with keep-alive. */
  ghost predicate OtherField(l: string) {
    CleanLine(l) && Free(l, CONTENT_LENGTH) && Free(l, CONNECTION)
  }

  /** A body that a method reads: as much as read_post_data takes, or as much as the length field can say. */
  predicate Readable(kind: Kind, size: nat) {
    if kind == PUT then size <= LLONG_MAX && |Decimal(size)| + 1 < NBUFFER
    else (kind == POST || kind == PROPFIND) && size <= POST_MAX_SIZE
  }

  ghost predicate Valid(h: Http) {
    && CleanLine(h.path) && ' ' !in h.path
    && (match h
        case Plain(_, _, fields) => forall l :: l in fields ==> OtherField(l)
        case WithBody(kind, _, before, after, content) =>
          Readable(kind, |content|) && forall l :: l in before || l in after ==> OtherField(l))
    && |MessageOf(h).block| < INBUFFER
  }

  // ---- Line breaks ----

  /** One line and an empty one. */
  lemma LineMakesABlock(l: string)
    requires CleanLine(l)
    ensures Block(l + FULLEND)
  {
    var w := l + FULLEND;
    assert w[|l|..|l| + 4] == FULLEND;
    forall i | 0 <= i < |l|
      ensures !OccursAt(w, END, i)
    {
      Mismatch(w, END, i, 0);
    }
  }

  /** A line in front of a block whose first character is no line break. */
  lemma LineBeforeBlock(l: string, tail: string)
    requires CleanLine(l) && Block(tail) && tail[0] != CR && tail[0] != LF
    ensures Block(l + (CRLF + tail))
  {
    var w, at := l + (CRLF + tail), |l| + 2;
    assert w[at..|w|] == tail;
    OccursShift(w, at, |w|, FULLEND, |tail| - 4);
    forall i | 0 <= i < |w| - 4
      ensures !OccursAt(w, END, i)
    {
      if i < |l| {
        Mismatch(w, END, i, 0);
      } else if i == |l| {
        Mismatch(w, END, i, 2);
      } else if i == |l| + 1 {
        Mismatch(w, END, i, 0);
      } else {
        OccursShift(w, at, |w|, END, i - at);
      }
    }
  }

  /** Lines followed by an empty line make a header block. */
  lemma {:induction false} LinesMakeABlock(lines: seq<string>)
    requires lines != [] && forall l :: l in lines ==> CleanLine(l)
    ensures Block(Joined(lines) + CRLF)
    decreases |lines|
  {
    var l, rest := lines[0], lines[1..];
    assert l in lines && forall r :: r in rest ==> r in lines;
    if rest == [] {
      LineMakesABlock(l);
      assert Joined(lines) + CRLF == l + FULLEND;
    } else {
      LinesMakeABlock(rest);
      FirstChar(rest);
      LineBeforeBlock(l, Joined(rest) + CRLF);
      AppendAssoc(CRLF, Joined(rest), CRLF);
      AppendAssoc(l, CRLF + Joined(rest), CRLF);
    }
  }

  lemma FirstChar(lines: seq<string>)
    requires lines != [] && CleanLine(lines[0])
    ensures (Joined(lines) + CRLF)[0] == lines[0][0]
  {
  }

  // ---- The request line ----

  /** What follows the path: the protocol version and the fields. */
  function ParamsOf(h: Http): string {
    Joined([VERSION] + FieldsOf(h))
  }

  /** The request that the parser should find. */
  function RequestOf(h: Http): Request {
    Request(h.kind, Name(h.kind), h.path, ParamsOf(h))
  }

  /** The header text is verb, path and the rest, with a space between each. */
  lemma HeaderParts(h: Http)
    ensures |MessageOf(h).block| >= 2
    ensures Header(MessageOf(h)) == Written(h.kind, h.path, ParamsOf(h))
  {
    var end := CRLF + Joined(FieldsOf(h));
    JoinedCons(RequestLine(h), FieldsOf(h));
    JoinedCons(VERSION, FieldsOf(h));
    assert Header(MessageOf(h)) == RequestLine(h) + end;
    SpacedOut(Name(h.kind), h.path, VERSION, end);
  }

  lemma SpacedOut(verb: string, path: string, version: string, end: string)
    ensures verb + " " + path + " " + version + end == verb + (" " + (path + (" " + (version + end))))
  {
    AppendAssoc(verb + " " + path + " ", version, end);
    AppendAssoc(verb + " " + path, " ", version + end);
    AppendAssoc(verb + " ", path, " " + (version + end));
    AppendAssoc(verb, " ", path + (" " + (version + end)));
  }

  /** The header text of a request, and what is left of it after the request line is split. */
  lemma RequestLineParsed(h: Http)
    requires Valid(h)
    ensures Parse(Header(MessageOf(h))) == Some(RequestOf(h))
  {
    HeaderParts(h);
    WrittenIsParsed(h.kind, h.path, ParamsOf(h));
  }

  // ---- The fields that matter ----

  /** A body length small enough for read_post_data has at most seven digits. */
  lemma LengthFits(n: nat)
    requires n <= POST_MAX_SIZE
    ensures |Decimal(n)| <= 7
  {
    assert Power10(4) == 10000;
    assert Power10(7) == 10000000;
    DecimalSize(n, 7);
  }

  /** The length field says nothing about keep-alive. */
  lemma LengthFieldIsNotConnection(n: nat)
    ensures Free(LengthField(n), CONNECTION)
  {
    var l, tail := LengthField(n), "ontent-Length: " + Decimal(n);
    DigitsOfDecimal(n);
    assert l == ['C'] + tail && 'C' !in tail;
    forall i: nat
      ensures !OccursAt(l, CONNECTION, i)
    {
      if i == 0 {
        Mismatch(l, CONNECTION, 0, 3);
      } else {
        assert i < |l| ==> l[i] == tail[i - 1];
        Mismatch(l, CONNECTION, i, 0);
      }
    }
  }

  lemma NoConnectionField(h: Http)
    requires Valid(h)
    ensures Free(ParamsOf(h), CONNECTION)
  {
    var lines := [VERSION] + FieldsOf(h);
    VersionIsOther();
    forall l | l in lines
      ensures Free(l, CONNECTION)
    {
      if h.WithBody? && l == LengthField(|h.content|) {
        LengthFieldIsNotConnection(|h.content|);
      } else if l != VERSION {
        assert OtherField(l);
      }
    }
    JoinedFree(lines, CONNECTION);
  }

  lemma VersionIsOther()
    ensures Free(VERSION, CONNECTION) && Free(VERSION, CONTENT_LENGTH)
  {
  }

  /** No field mentions keep-alive, so an HTTP/1.1 connection stays open. */
  lemma StaysAlive(h: Http)
    requires Valid(h)
    ensures KeepAlive(ParamsOf(h))
  {
    NoConnectionField(h);
    FieldMissing(ParamsOf(h), CONNECTION, 12);
    JoinedCons(VERSION, FieldsOf(h));
    VersionRead('1', CRLF + Joined(FieldsOf(h)));
  }

  lemma VersionRead(minor: char, rest: string)
    ensures At("HTTP/1." + [minor] + rest, 5) == '1' && At("HTTP/1." + [minor] + rest, 7) == minor
  {
  }

  /**
   A Connection field decides against the default of the protocol version: `close` ends an
   HTTP/1.1 connection, and text that begins with `Keep` keeps an older one. Longer values do
   not fit the source's buffer and count as none.
   */
  lemma ConnectionDecides(hp: string, minor: char, before: seq<string>, value: string, after: string)
    requires Without(before, CONNECTION) && Free("HTTP/1." + [minor], CONNECTION) && CR !in value
    requires hp == WithField(["HTTP/1." + [minor]] + before, CONNECTION, value, after)
    ensures minor == '1' ==> (KeepAlive(hp) <==> !(|value| + 1 < 12 && "close" <= value))
    ensures minor != '1' ==> (KeepAlive(hp) <==> |value| + 1 < 12 && "Keep" <= value)
  {
    var lines := ["HTTP/1." + [minor]] + before;
    FieldRead(lines, CONNECTION, value, after, 12);
    JoinedCons("HTTP/1." + [minor], before);
    var behind := Field(CONNECTION, value) + (CRLF + after);
    AppendAssoc("HTTP/1." + [minor], CRLF + Joined(before), behind);
    VersionRead(minor, (CRLF + Joined(before)) + behind);
  }

  /** Without the field an older connection ends after its request. */
  lemma OlderEnds(hp: string, minor: char, rest: string)
    requires Free(hp, CONNECTION) && hp == "HTTP/1." + [minor] + rest && minor != '1'
    ensures !KeepAlive(hp)
  {
    FieldMissing(hp, CONNECTION, 12);
    VersionRead(minor, rest);
  }

  /** A request without a body announces none, and any other exactly its own. */
  lemma AnnouncesItsBody(h: Http)
    requires Valid(h)
    ensures ContentLength(ParamsOf(h)) == if h.WithBody? then Some(|h.content|) else None
    ensures Announces(RequestOf(h), ContentOf(h))
  {
    VersionIsOther();
    match h
    case Plain(_, _, fields) =>
      JoinedFree([VERSION] + fields, CONTENT_LENGTH);
      NoLength(ParamsOf(h));
    case WithBody(kind, _, before, after, content) =>
      if kind != PUT {
        LengthFits(|content|);
      }
      FieldBetween([VERSION] + before, CONTENT_LENGTH, Decimal(|content|), after);
      assert [VERSION] + FieldsOf(h) == ([VERSION] + before) + ([LengthField(|content|)] + after);
      LengthIsFound(ParamsOf(h), [VERSION] + before, |content|, Joined(after));
  }

  lemma CleanAppend(a: string, b: string)
    requires CleanLine(a) && CleanLine(b)
    ensures CleanLine(a + b)
  {
  }

  lemma RequestLineIsClean(h: Http)
    requires CleanLine(h.path)
    ensures CleanLine(RequestLine(h))
  {
    NameIsClean(h.kind);
    CleanAppend(Name(h.kind), " ");
    CleanAppend(Name(h.kind) + " ", h.path);
    CleanAppend(Name(h.kind) + " " + h.path, " ");
    CleanAppend(Name(h.kind) + " " + h.path + " ", VERSION);
  }

  lemma NameIsClean(kind: Kind)
    ensures CleanLine(Name(kind))
  {
  }

  lemma LengthFieldIsClean(n: nat)
    ensures CleanLine(LengthField(n))
  {
    DigitsOfDecimal(n);
    CleanAppend(CONTENT_LENGTH, ": ");
    CleanAppend(CONTENT_LENGTH + ": ", Decimal(n));
  }

  lemma TextIsABlock(h: Http)
    requires Valid(h)
    ensures Block(MessageOf(h).block)
  {
    var lines := [RequestLine(h)] + FieldsOf(h);
    RequestLineIsClean(h);
    forall l | l in lines
      ensures CleanLine(l)
    {
      if h.WithBody? && l == LengthField(|h.content|) {
        LengthFieldIsClean(|h.content|);
      }
    }
    LinesMakeABlock(lines);
  }

  lemma TextIsWellFormed(h: Http)
    requires Valid(h)
    ensures WellFormed(MessageOf(h))
  {
    TextIsABlock(h);
    RequestLineParsed(h);
    StaysAlive(h);
    AnnouncesItsBody(h);
  }

  function Messages(hs: seq<Http>): (ms: seq<Message>)
    ensures |ms| == |hs| && forall i :: 0 <= i < |hs| ==> ms[i] == MessageOf(hs[i])
  {
    if hs == [] then [] else [MessageOf(hs[0])] + Messages(hs[1..])
  }

  /** The requests as the handlers should see them: each taken apart and cleaned, with its own body. */
  function Sent(hs: seq<Http>): seq<Handled> {
    if hs == [] then [] else
      [HandedOver(Header(MessageOf(hs[0])), RequestOf(hs[0]), ContentOf(hs[0]))] + Sent(hs[1..])
  }

  /** For a plain path the page that the handlers get is the path itself. */
  lemma PlainPathIsThePage(h: Http)
    requires '%' !in h.path && '?' !in h.path && UrlCleanup.NoParent(h.path) && NUL !in h.path
    ensures HandedOver(Header(MessageOf(h)), RequestOf(h), ContentOf(h)).page == h.path
    ensures HandedOver(Header(MessageOf(h)), RequestOf(h), ContentOf(h)).params == None
  {
    UrlCleanup.PlainPathKept(h.path);
  }

  lemma {:induction false} AllHandledIsSent(hs: seq<Http>)
    requires forall h :: h in hs ==> Valid(h)
    ensures AllWellFormed(Messages(hs)) && AllHandled(Messages(hs)) == Sent(hs)
  {
    if hs != [] {
      TextIsWellFormed(hs[0]);
      RequestLineParsed(hs[0]);
      assert Messages(hs)[1..] == Messages(hs[1..]);
      AllHandledIsSent(hs[1..]);
    }
  }

  /** The theorem for requests of every method: split the bytes at will, the same requests come out. */
  lemma PipelinedTextIsRecovered(hs: seq<Http>, events: seq<Event>, decide: nat -> Outcome)
    requires forall h :: h in hs ==> Valid(h)
    requires forall e :: e in events ==> e.Chunk? && e.bytes != []
    requires Delivered(events) == Text(Messages(hs))
    requires forall i: nat :: i < |hs| ==> Smooth(decide(i), MessageOf(hs[i]))
    ensures Serve(Runs(events), decide, 0) == Served(Sent(hs), false)
  {
    AllHandledIsSent(hs);
    PipelinedRequestsAreRecovered(Messages(hs), events, decide);
  }
}
