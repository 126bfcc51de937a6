/** What handle_requests reads out of a header block (instance.c, utils.c). */
module RequestText {
  import opened CString
  import CNumber
  import Fields

  const POST_MAX_SIZE := 2000000
  const NBUFFER := 15
  const CONTENT_LENGTH: string := "Content-Length"

  datatype Kind = GET | POST | PUT | DELETE | OPTIONS | PROPFIND | MKCOL | COPY | MOVE

  /** The names, in the order in which they are tried. */
  const KINDS: seq<(string, Kind)> := [
    ("GET", GET), ("POST", POST), ("PUT", PUT), ("DELETE", DELETE), ("OPTIONS", OPTIONS),
    ("PROPFIND", PROPFIND), ("MKCOL", MKCOL), ("COPY", COPY), ("MOVE", MOVE)]

  /** The request's kind, by the first letters of the block. */
  function KindOf(header: string): Option<Kind> {
    KindIn(header, KINDS)
  }

  function KindIn(header: string, table: seq<(string, Kind)>): Option<Kind> {
    if table == [] then None
    else if table[0].0 <= header then Some(table[0].1)
    else KindIn(header, table[1..])
  }

  /** The name of a method, as section 4 of RFC 7231 and section 9 of RFC 4918 spell it. */
  function Name(kind: Kind): (name: string)
    ensures |name| >= 3 && ' ' !in name && NUL !in name
  {
    match kind
    case GET => "GET"
    case POST => "POST"
    case PUT => "PUT"
    case DELETE => "DELETE"
    case OPTIONS => "OPTIONS"
    case PROPFIND => "PROPFIND"
    case MKCOL => "MKCOL"
    case COPY => "COPY"
    case MOVE => "MOVE"
  }

  /** The search finds the first entry of a table that fits, if there is one. */
  lemma {:induction false} KindInIs(header: string, table: seq<(string, Kind)>)
    ensures match KindIn(header, table)
      case Some(kind) => exists i :: 0 <= i < |table| && table[i].0 <= header && table[i].1 == kind
      case None => forall i :: 0 <= i < |table| ==> !(table[i].0 <= header)
  {
    if table != [] && !(table[0].0 <= header) {
      KindInIs(header, table[1..]);
      var k := KindIn(header, table[1..]);
      if k.Some? {
        var i :| 0 <= i < |table[1..]| && table[1..][i].0 <= header && table[1..][i].1 == k.value;
        assert table[i + 1].0 <= header && table[i + 1].1 == k.value;
      } else {
        forall i | 0 < i < |table|
          ensures !(table[i].0 <= header)
        {
          assert table[i] == table[1..][i - 1];
        }
      }
    }
  }

  /** The place of a method in the table, which gives it its own name. */
  lemma EntryOf(kind: Kind) returns (i: nat)
    ensures i < |KINDS| && KINDS[i] == (Name(kind), kind)
  {
    match kind
    case GET => i := 0;
    case POST => i := 1;
    case PUT => i := 2;
    case DELETE => i := 3;
    case OPTIONS => i := 4;
    case PROPFIND => i := 5;
    case MKCOL => i := 6;
    case COPY => i := 7;
    case MOVE => i := 8;
  }

  lemma EntryIsOwn(i: nat)
    requires i < |KINDS|
    ensures KINDS[i].0 == Name(KINDS[i].1)
  {
  }

  /** No name begins like another. */
  lemma NamesDiffer(a: Kind, b: Kind, header: string)
    requires Name(a) <= header && Name(b) <= header
    ensures a == b
  {
    assert header[0] == Name(a)[0] == Name(b)[0];
    assert header[1] == Name(a)[1] == Name(b)[1];
  }

  /** A header is of a kind exactly if it begins with that method's name. */
  lemma KindIsByName(header: string, kind: Kind)
    ensures KindOf(header) == Some(kind) <==> Name(kind) <= header
  {
    KindInIs(header, KINDS);
    var own := EntryOf(kind);
    var k := KindOf(header);
    if k.Some? {
      var i :| 0 <= i < |KINDS| && KINDS[i].0 <= header && KINDS[i].1 == k.value;
      EntryIsOwn(i);
      if Name(kind) <= header {
        NamesDiffer(kind, k.value, header);
      }
    }
  }

  /** A header that begins with no method's name is a bad request. */
  lemma UnknownIsBad(header: string)
    requires forall kind :: !(Name(kind) <= header)
    ensures Parse(header) == None
  {
    var k := KindOf(header);
    if k.Some? {
      KindIsByName(header, k.value);
    }
  }

  lemma {:induction false} WordIs(w: string, rest: string)
    requires ' ' !in w
    ensures Word(w + (" " + rest)) == w
  {
    if w != [] {
      assert (w + (" " + rest))[1..] == w[1..] + (" " + rest);
      WordIs(w[1..], rest);
    }
  }

  lemma TokenIs(w: string, rest: string)
    requires w != [] && ' ' !in w
    ensures Token(w + (" " + rest)) == Some((w, rest))
  {
    WordIs(w, rest);
    assert (w + (" " + rest))[|w| + 1..] == rest;
  }

  /** A request line as a client writes it, in front of anything else. */
  function Written(kind: Kind, path: string, rest: string): string {
    Name(kind) + (" " + (path + (" " + rest)))
  }

  /** It is parsed with its own method, path and rest. */
  lemma WrittenIsParsed(kind: Kind, path: string, rest: string)
    requires path != [] && ' ' !in path
    ensures Parse(Written(kind, path, rest)) == Some(Request(kind, Name(kind), path, rest))
  {
    var header, tail := Written(kind, path, rest), path + (" " + rest);
    KindIsByName(header, kind);
    TokenIs(Name(kind), tail);
    TokenIs(path, rest);
    ParseIs(header, kind, Name(kind), tail);
  }

  function SkipBlanks(s: string): (t: string)
    ensures |t| <= |s| && t == s[|s| - |t|..] && (t != [] ==> t[0] != ' ')
  {
    if s != [] && s[0] == ' ' then SkipBlanks(s[1..]) else s
  }

  /** Everything before the first space. */
  function Word(s: string): (w: string)
    ensures w <= s && ' ' !in w
    ensures |w| < |s| ==> s[|w|] == ' '
  {
    if s == [] || s[0] == ' ' then [] else [s[0]] + Word(s[1..])
  }

  /** strtok_r with a space as the only separator: a token and what follows its separator. */
  function Token(s: string): Option<(string, string)> {
    var t := SkipBlanks(s);
    var w := Word(t);
    if t == [] then None
    else Some((w, if |w| < |t| then t[|w| + 1..] else []))
  }

  datatype Request = Request(kind: Kind, verb: string, page: string, httpParam: string)

  /** The request line split in method, page and the rest; None is a bad request. */
  function Parse(header: string): Option<Request> {
    match KindOf(header)
    case None => None
    case Some(kind) => ParseAs(kind, header)
  }

  function ParseAs(kind: Kind, header: string): Option<Request> {
    match Token(header)
    case None => None
    case Some((verb, rest)) =>
      match Token(rest)
      case None => None
      case Some((page, httpParam)) => Some(Request(kind, verb, page, httpParam))
  }

  lemma ParseIs(header: string, kind: Kind, verb: string, rest: string)
    requires KindOf(header) == Some(kind) && Token(header) == Some((verb, rest))
    ensures Token(rest) == None ==> Parse(header) == None
    ensures Token(rest).Some? ==>
      Parse(header) == Some(Request(kind, verb, Token(rest).value.0, Token(rest).value.1))
  {
    ParseAsIs(header, kind, verb, rest);
  }

  lemma ParseAsIs(header: string, kind: Kind, verb: string, rest: string)
    requires Token(header) == Some((verb, rest))
    ensures ParseAs(kind, header)
         == if Token(rest) == None then None else Some(Request(kind, verb, Token(rest).value.0, Token(rest).value.1))
  {
  }

  /** The parts of a request fit its header with a separator to spare. */
  lemma PartsFit(header: string, q: Request)
    requires Parse(header) == Some(q)
    ensures |q.verb| + 1 + |q.page| + |q.httpParam| <= |header|
  {
    TokenFits(header);
    TokenFits(Token(header).value.1);
  }

  lemma TokenFits(s: string)
    ensures match Token(s)
      case None => true
      case Some((w, rest)) => w != [] && |w| + |rest| <= |s| && (rest != [] ==> |w| + 1 + |rest| <= |s|)
  {
  }

  /** A character of the header, NUL where it is shorter. */
  function At(s: string, i: nat): char {
    if i < |s| then s[i] else NUL
  }

  /** keep_alive as set_connection_props leaves it. */
  predicate KeepAlive(httpParam: string) {
    var connection := ParamValue(httpParam, "Connection", 12);
    if At(httpParam, 7) == '1' && At(httpParam, 5) == '1' then
      !(connection.Some? && "close" <= connection.value)
    else
      connection.Some? && "Keep" <= connection.value
  }

  /** The length announced for the body, if there is one. */
  function ContentLength(httpParam: string): Option<int> {
    match ParamValue(httpParam, CONTENT_LENGTH, NBUFFER)
    case None => None
    case Some(a) => Some(CNumber.StrToL(a))
  }

  /** How many bytes read_post_data asks for, when its buffer can be had; no malloc gives a negative size. */
  function BodyLength(httpParam: string): nat {
    match ContentLength(httpParam)
    case None => 0
    case Some(l) => if 0 <= l <= POST_MAX_SIZE then l else 0
  }

  /** The value of a length field between other fields is the length it was printed from. */
  lemma LengthIsFound(hp: string, before: seq<string>, n: nat, after: string)
    requires before != [] && n <= CNumber.LLONG_MAX && |CNumber.Decimal(n)| + 1 < NBUFFER
    requires Fields.Without(before, "Content-Length")
    requires hp == Fields.WithField(before, "Content-Length", CNumber.Decimal(n), after)
    ensures ContentLength(hp) == Some(n)
    ensures BodyLength(hp) == if n <= POST_MAX_SIZE then n else 0
  {
    Fields.FieldRead(before, CONTENT_LENGTH, CNumber.Decimal(n), after, NBUFFER);
    CNumber.DecimalRoundTrip(n);
  }

  /** Where the name does not occur, no length is announced. */
  lemma NoLength(hp: string)
    requires Fields.Free(hp, CONTENT_LENGTH)
    ensures ContentLength(hp) == None && BodyLength(hp) == 0
  {
    Fields.FieldMissing(hp, CONTENT_LENGTH, NBUFFER);
  }

  // ---- Virtual hosts ----

  /** The value of the Host field, as get_basedir looks for it. */
  function HostOf(httpParam: string): Option<string> {
    match Find(httpParam, "\r\nHost: ")
    case None => None
    case Some(h) => UpToCR(httpParam[h + 8..])
  }

  /** What stands in front of the first CR, if there is one. */
  function UpToCR(s: string): Option<string> {
    match Find(s, "\r")
    case None => None
    case Some(end) => Some(s[..end])
  }

  /** The field begins a line, and not the first one. */
  predicate HostLine(u: string) {
    "Host: " <= u
  }

  /** In a line and behind it the field begins at the line's end, or further on. */
  lemma HostAt(l: string, u: string, i: nat)
    requires CR !in l
    ensures OccursAt(l + (CRLF + u), "\r\nHost: ", i)
       <==> (i == |l| && HostLine(u)) || (i >= |l| + 2 && OccursAt(u, "\r\nHost: ", i - |l| - 2))
  {
    var s, pat := l + (CRLF + u), "\r\nHost: ";
    if i < |l| {
      Mismatch(s, pat, i, 0);
    } else if i == |l| {
      assert pat[2..] == "Host: " && pat == CRLF + "Host: ";
      assert s[i..] == CRLF + u;
      if HostLine(u) {
        assert u[..6] == "Host: ";
        assert s[i..i + 8] == CRLF + u[..6];
      }
      if OccursAt(s, pat, i) {
        assert s[i..i + 8][2..] == u[..6];
      }
    } else if i == |l| + 1 {
      Mismatch(s, pat, i, 0);
    } else {
      assert s[|l| + 2..|s|] == u;
      OccursShift(s, |l| + 2, |s|, pat, i - |l| - 2);
    }
  }

  lemma HostBehind(l: string, u: string, k: nat)
    requires CR !in l && (HostLine(u) || Find(u, "\r\nHost: ") == Some(k))
    ensures Find(l + (CRLF + u), "\r\nHost: ") == Some(if HostLine(u) then |l| else |l| + 2 + k)
  {
    var s, at := l + (CRLF + u), if HostLine(u) then |l| else |l| + 2 + k;
    forall i | 0 <= i < at
      ensures !OccursAt(s, "\r\nHost: ", i)
    {
      HostAt(l, u, i);
    }
    HostAt(l, u, at);
    FindIs(s, "\r\nHost: ", at);
  }

  lemma LineBegins(l: string, u: string)
    requires CR !in l
    ensures HostLine(l + (CRLF + u)) <==> HostLine(l)
  {
    var s := l + (CRLF + u);
    if |l| < 6 {
      assert s[|l|] == CR;
    } else {
      assert l[..6] == s[..6];
    }
  }

  /** Lines that do not begin with the name. */
  predicate NoHostLines(lines: seq<string>) {
    forall l :: l in lines ==> CR !in l && !HostLine(l)
  }

  lemma JoinedTail(lines: seq<string>, tail: string)
    requires lines != []
    ensures Fields.Joined(lines) + tail == lines[0] + (CRLF + (Fields.Joined(lines[1..]) + tail))
    ensures |Fields.Joined(lines)| == |lines[0]| + 2 + |Fields.Joined(lines[1..])|
  {
    var l, rest := lines[0], Fields.Joined(lines[1..]);
    AppendAssoc(l, CRLF + rest, tail);
    AppendAssoc(CRLF, rest, tail);
  }

  /** Behind such lines the field is found where it stands. */
  lemma {:induction false} HostFound(first: string, between: seq<string>, tail: string)
    requires CR !in first && HostLine(tail) && NoHostLines(between)
    ensures Find(first + (CRLF + (Fields.Joined(between) + tail)), "\r\nHost: ")
         == Some(|first| + |Fields.Joined(between)|)
    decreases |between|
  {
    var u := Fields.Joined(between) + tail;
    if between == [] {
      assert u == tail;
      HostBehind(first, u, 0);
    } else {
      var l, rest := between[0], between[1..];
      var v := Fields.Joined(rest) + tail;
      assert l in between && forall m :: m in rest ==> m in between;
      JoinedTail(between, tail);
      HostFound(l, rest, tail);
      LineBegins(l, v);
      HostBehind(first, u, |l| + |Fields.Joined(rest)|);
    }
  }

  /** A Host field as a client writes it, on any line but the first, names its host. */
  lemma HostIsFound(first: string, between: seq<string>, host: string, after: string)
    requires CR !in first && CR !in host && NoHostLines(between)
    ensures HostOf(Fields.WithField([first] + between, "Host", host, after)) == Some(host)
  {
    var tail := "Host: " + (host + (CRLF + after));
    var front := first + (CRLF + Fields.Joined(between));
    HostTail(host, after);
    Fields.JoinedCons(first, between);
    AppendAssoc(first, CRLF + Fields.Joined(between), tail);
    AppendAssoc(CRLF, Fields.Joined(between), tail);
    HostFound(first, between, tail);
    HostIn(front + tail, front, host, after);
  }

  lemma HostTail(host: string, after: string)
    ensures Fields.Field("Host", host) + (CRLF + after) == "Host: " + (host + (CRLF + after))
    ensures HostLine("Host: " + (host + (CRLF + after)))
  {
    assert Fields.Field("Host", host) == "Host: " + host;
    AppendAssoc("Host: ", host, CRLF + after);
  }

  lemma HostIn(hp: string, front: string, host: string, after: string)
    requires hp == front + ("Host: " + (host + (CRLF + after))) && CR !in host && |front| >= 2
    requires Find(hp, "\r\nHost: ") == Some(|front| - 2)
    ensures HostOf(hp) == Some(host)
  {
    assert hp[|front| + 6..] == host + (CRLF + after);
    HostEnds(host, after);
  }

  lemma HostEnds(host: string, after: string)
    requires CR !in host
    ensures Find(host + (CRLF + after), "\r") == Some(|host|)
    ensures (host + (CRLF + after))[..|host|] == host
  {
    var s := host + (CRLF + after);
    forall i | 0 <= i < |host|
      ensures !OccursAt(s, "\r", i)
    {
      OccursChar(s, CR, i);
    }
    OccursChar(s, CR, |host|);
    FindIs(s, "\r", |host|);
  }

  /** Without the field there is no host, and the default directory is served. */
  lemma NoHost(hp: string)
    requires Fields.Free(hp, "\r\nHost: ")
    ensures HostOf(hp) == None
  {
    FindNone(hp, "\r\nHost: ");
  }
}
