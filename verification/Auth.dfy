/** auth_check_request (auth.c) up to the message it sends to the authentication program. */
module Auth {
  import opened CString
  import opened Base64
  import InPlace
  import StringReplace
  import Fields
  import UrlCleanup
  import RequestText
  import RequestLoop
  import BufferedReader

  const PWDLIMIT := 300
  const HEADBUF := 1024
  const SCHEME: string := "Authorization: Basic "

  datatype Verdict =
    | Refused                // -1
    | TooLong                // ERR_NOMEM: the credentials do not fit their buffer
    | Overflows              // the message would not fit its buffer
    | Message(text: string)

  /** The text between the scheme and the end of its line, if there is such a line. */
  function Credentials(httpParam: string): Option<Option<string>> {
    match Find(httpParam, SCHEME)
    case None => None
    case Some(at) =>
      match Find(httpParam[at..], CRLF)
      case None => Some(None)
      case Some(end) =>
        OccursShift(httpParam, at, |httpParam|, SCHEME, 0);
        SchemeFirst(httpParam[at..], end);
        Some(Some(httpParam[at + |SCHEME|..at + end]))
  }

  /** The line of the credentials does not end inside the scheme. */
  lemma SchemeFirst(line: string, end: nat)
    requires OccursAt(line, SCHEME, 0) && OccursAt(line, CRLF, end)
    ensures |SCHEME| <= end
  {
    assert line[end..end + 2][0] == line[end];
    assert line[0..|SCHEME|] == SCHEME;
    assert CR !in SCHEME;
  }

  /** The CRLF-separated message, header last. */
  function Text(page: string, ip: string, verb: string, user: string, password: string, httpParam: string): string {
    page + (CRLF + (ip + (CRLF + (verb + (CRLF + (user + (CRLF + (password + (CRLF + (httpParam + CRLF))))))))))
  }

  function Send(page: string, ip: string, verb: string, user: string, password: string, httpParam: string): Verdict {
    var text := Text(page, ip, verb, user, password, httpParam);
    if |text| < HEADBUF + 2 * PWDLIMIT then Message(text) else Overflows
  }

  /** What auth_check_request does with a request, for credentials of whole base64 quanta. */
  function Check(page: string, ip: string, verb: string, httpParam: string): Verdict
    requires Quanta(httpParam)
  {
    match Credentials(httpParam)
    case None => Send(page, ip, verb, "", "", httpParam)
    case Some(None) => Refused
    case Some(Some(encoded)) => AnswerTo(page, ip, verb, httpParam, encoded)
  }

  /** Its answer to these credentials. */
  function AnswerTo(page: string, ip: string, verb: string, httpParam: string, encoded: string): Verdict
    requires |encoded| % 4 == 0
  {
    if |encoded| + 1 >= 2 * PWDLIMIT then TooLong
    else AnswerDecoded(page, ip, verb, httpParam, CStr(Decoded(encoded)))
  }

  function AnswerDecoded(page: string, ip: string, verb: string, httpParam: string, decoded: string): Verdict {
    match Find(decoded, ":")
    case None => Refused
    case Some(k) => Send(page, ip, verb, decoded[..k], decoded[k + 1..], httpParam)
  }

  /** Credentials that decode64 can decode without reading past their end. */
  predicate Quanta(httpParam: string) {
    var c := Credentials(httpParam);
    c.Some? && c.value.Some? ==> c.value.value != [] && |c.value.value| % 4 == 0
  }

  /** The two buffers of the routine: the base64 text is copied into one and decoded into the other. */
  method DecodeCredentials(encoded: string) returns (decoded: string)
    requires NUL !in encoded && encoded != [] && |encoded| % 4 == 0 && |encoded| + 1 < 2 * PWDLIMIT
    ensures decoded == CStr(Decoded(encoded))
  {
    var username := new char[2 * PWDLIMIT];
    var a := new char[2 * PWDLIMIT];
    forall i | 0 <= i < |encoded| {
      a[i] := encoded[i];
    }
    a[|encoded|] := NUL;
    assert a[..|encoded|] == encoded;
    Decode64(username, a, encoded);
    CStrUpTo(username[..], Decoded(encoded));
    decoded := CStr(username[..]);
  }

  /** The message has room for everything but the longest credentials, as it has for any request received. */
  predicate Fits(page: string, ip: string, verb: string, httpParam: string) {
    |page| + |verb| + |httpParam| < HEADBUF && |ip| < INET6_ADDRSTRLEN
  }

  /** The field stands there, but its line does not end. */
  predicate Unended(httpParam: string) {
    var at := Find(httpParam, SCHEME);
    at.Some? && Find(httpParam[at.value..], CRLF) == None
  }

  /** The field is `encoded`, up to the end of its line. */
  predicate Carries(httpParam: string, encoded: string) {
    var at := Find(httpParam, SCHEME);
    && at.Some?
    && SCHEME + encoded <= httpParam[at.value..]
    && Find(httpParam[at.value..], CRLF) == Some(|SCHEME| + |encoded|)
  }

  /** What the answers mean, for whatever text the field carries. */
  lemma CheckMeans(page: string, ip: string, verb: string, httpParam: string)
    requires Quanta(httpParam)
    ensures Find(httpParam, SCHEME) == None && Fits(page, ip, verb, httpParam) ==>
      Check(page, ip, verb, httpParam) == Message(Text(page, ip, verb, "", "", httpParam))
    ensures Unended(httpParam) ==> Check(page, ip, verb, httpParam) == Refused
    ensures Find(httpParam, SCHEME) == None || Unended(httpParam) || exists encoded :: Carries(httpParam, encoded)
  {
    var at := Find(httpParam, SCHEME);
    if at == None {
      if Fits(page, ip, verb, httpParam) {
        SendsMessage(page, ip, verb, "", "", httpParam);
      }
    } else if !Unended(httpParam) {
      var line := httpParam[at.value..];
      var end := Find(line, CRLF).value;
      OccursShift(httpParam, at.value, |httpParam|, SCHEME, 0);
      SchemeFirst(line, end);
      assert line[..|SCHEME|] == SCHEME;
      assert SCHEME + line[|SCHEME|..end] == line[..end];
      assert Carries(httpParam, line[|SCHEME|..end]);
    }
  }

  /**
   The answer to a request that carries this text: too long from 599 bytes on, refused without a
   colon in what it decodes to, and otherwise a message with the two parts of that.
   */
  ghost predicate AnsweredFor(r: Verdict, page: string, ip: string, verb: string, httpParam: string, encoded: string) {
    && (r == TooLong <==> |encoded| >= 599)
    && |encoded| % 4 == 0
    && (r == Refused <==> |encoded| < 599 && ':' !in CStr(Decoded(encoded)))
    && (Fits(page, ip, verb, httpParam) && r != TooLong && r != Refused ==>
          SplitAt(r, page, ip, verb, httpParam, CStr(Decoded(encoded))))
  }

  lemma CheckCarried(page: string, ip: string, verb: string, httpParam: string, encoded: string)
    requires Quanta(httpParam) && Carries(httpParam, encoded)
    ensures AnsweredFor(Check(page, ip, verb, httpParam), page, ip, verb, httpParam, encoded)
  {
    CarriedIsCredentials(httpParam, encoded);
    AnswerMeans(page, ip, verb, httpParam, encoded);
  }

  lemma CarriedIsCredentials(httpParam: string, encoded: string)
    requires Carries(httpParam, encoded)
    ensures Credentials(httpParam) == Some(Some(encoded))
  {
    var at := Find(httpParam, SCHEME).value;
    var line := httpParam[at..];
    var n := |SCHEME| + |encoded|;
    assert line[..n] == SCHEME + encoded;
    assert (SCHEME + encoded)[|SCHEME|..] == encoded;
    assert httpParam[at + |SCHEME|..at + n] == line[..n][|SCHEME|..];
  }

  lemma AnswerMeans(page: string, ip: string, verb: string, httpParam: string, encoded: string)
    requires |encoded| % 4 == 0
    ensures AnsweredFor(AnswerTo(page, ip, verb, httpParam, encoded), page, ip, verb, httpParam, encoded)
  {
    if |encoded| < 599 {
      DecodedShort(encoded);
      ShortAnswer(page, ip, verb, httpParam, CStr(Decoded(encoded)));
    }
  }

  lemma ShortAnswer(page: string, ip: string, verb: string, httpParam: string, decoded: string)
    requires |decoded| <= 447
    ensures var r := AnswerDecoded(page, ip, verb, httpParam, decoded);
      && r != TooLong && (r == Refused <==> ':' !in decoded)
      && (Fits(page, ip, verb, httpParam) && r != Refused ==> SplitAt(r, page, ip, verb, httpParam, decoded))
  {
    ColonFound(decoded);
    match Find(decoded, ":")
    case None =>
    case Some(k) =>
      if Fits(page, ip, verb, httpParam) {
        SendsMessage(page, ip, verb, decoded[..k], decoded[k + 1..], httpParam);
        assert SplitInto(AnswerDecoded(page, ip, verb, httpParam, decoded), page, ip, verb, httpParam, decoded, decoded[..k], decoded[k + 1..]);
      }
  }

  /** The message is written from the two parts of this text, in front of and behind its first colon. */
  ghost predicate SplitAt(r: Verdict, page: string, ip: string, verb: string, httpParam: string, decoded: string) {
    exists user, password :: SplitInto(r, page, ip, verb, httpParam, decoded, user, password)
  }

  ghost predicate SplitInto(r: Verdict, page: string, ip: string, verb: string, httpParam: string, decoded: string,
                      user: string, password: string)
  {
    ':' !in user && decoded == user + ":" + password && r == Message(Text(page, ip, verb, user, password, httpParam))
  }

  lemma ColonFound(s: string)
    ensures match Find(s, ":")
      case None => ':' !in s
      case Some(k) => k < |s| && ':' !in s[..k] && s == s[..k] + ":" + s[k + 1..]
  {
    var k := Find(s, ":");
    var n := if k.Some? then k.value else |s|;
    forall i: nat | i < |s| && i <= n
      ensures s[i] == ':' <==> i == n
    {
      OccursChar(s, ':', i);
    }
  }

  /**
   The whole routine. Without the field user and password are empty and the program is asked; with
   it the answer is a refusal exactly if its line does not end or the decoded text has no colon,
   and otherwise the message, unless the field is too long.
   */
  method AuthCheckRequest(page: string, ip: string, verb: string, httpParam: string) returns (r: Verdict)
    requires NUL !in httpParam && Quanta(httpParam)
    ensures r == Check(page, ip, verb, httpParam)
    ensures Find(httpParam, SCHEME) == None && Fits(page, ip, verb, httpParam) ==>
      r == Message(Text(page, ip, verb, "", "", httpParam))
    ensures Unended(httpParam) ==> r == Refused
    ensures forall encoded :: Carries(httpParam, encoded) ==> AnsweredFor(r, page, ip, verb, httpParam, encoded)
    ensures Find(httpParam, SCHEME) == None || Unended(httpParam) || exists encoded :: Carries(httpParam, encoded)
  {
    CheckMeans(page, ip, verb, httpParam);
    forall encoded | Carries(httpParam, encoded) {
      CheckCarried(page, ip, verb, httpParam, encoded);
    }
    r := CheckRequest(page, ip, verb, httpParam);
  }

  /** Its steps. */
  method CheckRequest(page: string, ip: string, verb: string, httpParam: string) returns (r: Verdict)
    requires NUL !in httpParam && Quanta(httpParam)
    ensures r == Check(page, ip, verb, httpParam)
  {
    var user, password := "", "";
    var auth := Find(httpParam, SCHEME);
    if auth.Some? {
      var authEnd := Find(httpParam[auth.value..], CRLF);
      if authEnd.None? {
        return Refused;
      }
      OccursShift(httpParam, auth.value, |httpParam|, SCHEME, 0);
      SchemeFirst(httpParam[auth.value..], authEnd.value);
      var encoded := httpParam[auth.value + |SCHEME|..auth.value + authEnd.value];
      if |encoded| + 1 >= 2 * PWDLIMIT {
        return TooLong;
      }
      assert Credentials(httpParam) == Some(Some(encoded));
      user := DecodeCredentials(encoded);
      var colon := Find(user, ":");
      if colon.None? {
        return Refused;
      }
      password := user[colon.value + 1..];
      user := user[..colon.value];
    }
    r := Send(page, ip, verb, user, password, httpParam);
  }

  // ---- What the program at the other end reads ----

  /** The receiver's split at CRLF. */
  function Lines(s: string): (ls: seq<string>)
    ensures ls != []
    decreases |s|
  {
    match Find(s, CRLF)
    case None => [s]
    case Some(k) => [s[..k]] + Lines(s[k + 2..])
  }

  ghost predicate Line(s: string) {
    forall i :: !OccursAt(s, CRLF, i)
  }

  lemma FirstLine(field: string, rest: string)
    requires Line(field)
    ensures Lines(field + (CRLF + rest)) == [field] + Lines(rest)
  {
    var s := field + (CRLF + rest);
    forall i | 0 <= i < |field|
      ensures !OccursAt(s, CRLF, i)
    {
      if i + 2 <= |field| {
        OccursShift(s, 0, |field|, CRLF, i);
        assert s[0..|field|] == field;
      } else {
        Mismatch(s, CRLF, i, 1);
      }
    }
    assert s[|field|..|field| + 2] == CRLF;
    FindIs(s, CRLF, |field|);
    assert s[..|field|] == field && s[|field| + 2..] == rest;
  }

  /** The five leading fields of a message are read back as they were put in. */
  lemma MessageFields(page: string, ip: string, verb: string, user: string, password: string, httpParam: string)
    requires Line(page) && Line(ip) && Line(verb) && Line(user) && Line(password)
    ensures Lines(Text(page, ip, verb, user, password, httpParam))
         == [page, ip, verb, user, password] + Lines(httpParam + CRLF)
  {
    var last := httpParam + CRLF;
    var r4 := password + (CRLF + last);
    var r3 := user + (CRLF + r4);
    var r2 := verb + (CRLF + r3);
    var r1 := ip + (CRLF + r2);
    FirstLine(page, r1);
    FirstLine(ip, r2);
    FirstLine(verb, r3);
    FirstLine(user, r4);
    FirstLine(password, last);
    FiveInFront(page, ip, verb, user, password, Lines(last));
  }

  lemma FiveInFront(a: string, b: string, c: string, d: string, e: string, rest: seq<string>)
    ensures [a] + ([b] + ([c] + ([d] + ([e] + rest)))) == [a, b, c, d, e] + rest
  {
  }

  /** What comes out of the split holds no CRLF. */
  lemma {:induction false} LinesAreLines(s: string)
    ensures forall l :: l in Lines(s) ==> Line(l)
    decreases |s|
  {
    match Find(s, CRLF)
    case None =>
    case Some(k) =>
      LinesAreLines(s[k + 2..]);
      forall i: nat
        ensures !OccursAt(s[..k], CRLF, i)
      {
        assert s[0..k] == s[..k];
        OccursShift(s, 0, k, CRLF, i);
      }
  }

  /** The five leading fields survive exactly if none of them holds a CRLF. */
  lemma FieldsSurviveExactly(page: string, ip: string, verb: string, user: string, password: string, httpParam: string)
    ensures [page, ip, verb, user, password] <= Lines(Text(page, ip, verb, user, password, httpParam))
      <==> Line(page) && Line(ip) && Line(verb) && Line(user) && Line(password)
  {
    var fields, lines := [page, ip, verb, user, password], Lines(Text(page, ip, verb, user, password, httpParam));
    if Line(page) && Line(ip) && Line(verb) && Line(user) && Line(password) {
      MessageFields(page, ip, verb, user, password, httpParam);
    }
    if fields <= lines {
      LinesAreLines(Text(page, ip, verb, user, password, httpParam));
      forall i | 0 <= i < 5
        ensures Line(fields[i])
      {
        assert lines[i] == fields[i] && lines[i] in lines;
      }
      assert fields[0] == page && fields[1] == ip && fields[2] == verb && fields[3] == user && fields[4] == password;
    }
  }

  /** The page is decoded before the message is written, so it may hold a CRLF that no request line could. */
  lemma DecodedPageMayBreak(path: string, ip: string, verb: string, user: string, password: string, httpParam: string)
    requires path == "/%0d%0aX"
    ensures UrlCleanup.PagePart(path) == "/\r\nX"
    ensures !([UrlCleanup.PagePart(path), ip, verb, user, password]
              <= Lines(Text(UrlCleanup.PagePart(path), ip, verb, user, password, httpParam)))
  {
    var page := "/\r\nX";
    PathDecoded(path);
    assert page[1..3] == CRLF && OccursAt(page, CRLF, 1);
    FieldsSurviveExactly(page, ip, verb, user, password, httpParam);
  }

  lemma PathDecoded(path: string)
    requires path == "/%0d%0aX"
    ensures UrlCleanup.PagePart(path) == "/\r\nX"
  {
    var page := "/\r\nX";
    assert path[1..] == "%0d%0aX" && path[1..][3..] == "%0aX" && path[1..][3..][3..] == "X";
    assert path[1..][3..][3..][1..] == [];
    assert InPlace.Unescape("X") == "X";
    assert InPlace.Unescape("%0aX") == "\nX";
    assert InPlace.Unescape("%0d%0aX") == "\r\nX";
    assert InPlace.Unescape(path) == page;
    forall i: nat
      ensures !OccursAt(path, "?", i)
    {
      OccursChar(path, '?', i);
    }
    FindNone(path, "?");
    CStrIs(page, page);
    forall i: nat
      ensures !OccursAt(page, UrlCleanup.PARENT, i)
    {
      Mismatch(page, UrlCleanup.PARENT, i, 0);
    }
    FindNone(page, UrlCleanup.PARENT);
    StringReplace.ReplacedNone(page, UrlCleanup.PARENT, NUL);
  }

  /** A user and password encoded by a client come out of the credentials unchanged. */
  lemma CredentialsDecode(user: string, password: string)
    requires Bytes(user) && Bytes(password) && ':' !in user && NUL !in user && NUL !in password
    ensures var plain := user + ":" + password;
      && Encoded(plain) != []
      && CStr(Decoded(Encoded(plain))) == plain
      && Find(plain, ":") == Some(|user|)
      && plain[..|user|] == user && plain[|user| + 1..] == password
  {
    var plain := user + ":" + password;
    assert NUL !in plain;
    DecodeEncode(plain);
    CStrIs(Decoded(Encoded(plain)), plain);
    FirstColon(user, password);
  }

  lemma FirstColon(user: string, password: string)
    requires ':' !in user
    ensures var plain := user + ":" + password;
      Find(plain, ":") == Some(|user|) && plain[..|user|] == user && plain[|user| + 1..] == password
  {
    var plain := user + ":" + password;
    forall i | 0 <= i < |user|
      ensures !OccursAt(plain, ":", i)
    {
      OccursChar(plain, ':', i);
    }
    OccursChar(plain, ':', |user|);
    FindIs(plain, ":", |user|);
  }

  /**
   Credentials sent as section 2 of RFC 7617 prescribes are what the message is written from, and
   they reach the authentication program as its fourth and fifth line exactly if no field in
   front holds a CRLF, the page in the form in which modURL left it included.
   */
  lemma CredentialsSurvive(header: string, q: RequestText.Request, page: string, ip: string, user: string, password: string,
                           encoded: string, before: string, after: string)
    requires RequestText.Parse(header) == Some(q) && |header| < HEADBUF - 1 && |ip| < INET6_ADDRSTRLEN
    requires page == UrlCleanup.PagePart(q.page)
    requires IsEncoded(encoded, user, password) && |encoded| <= 598
    requires q.httpParam == before + SCHEME + encoded + CRLF + after && Find(q.httpParam, SCHEME) == Some(|before|)
    ensures Quanta(q.httpParam)
    ensures Check(page, ip, q.verb, q.httpParam) == Message(Text(page, ip, q.verb, user, password, q.httpParam))
    ensures [page, ip, q.verb, user, password] <= Lines(Text(page, ip, q.verb, user, password, q.httpParam))
      <==> Line(page) && Line(ip) && Line(q.verb) && Line(user) && Line(password)
  {
    CredentialsSend(page, ip, q.verb, user, password, q.httpParam, encoded, before, after);
    FieldsSurviveExactly(page, ip, q.verb, user, password, q.httpParam);
    PartsShort(header, q, page);
    MessageFitsAt(page, ip, q.verb, q.httpParam);
  }

  /** Credentials encoded by a client are what the message is written from, if it fits. */
  lemma CredentialsSend(page: string, ip: string, verb: string, user: string, password: string, hp: string,
                        encoded: string, before: string, after: string)
    requires IsEncoded(encoded, user, password) && |encoded| <= 598
    requires hp == before + SCHEME + encoded + CRLF + after && Find(hp, SCHEME) == Some(|before|)
    ensures Quanta(hp) && Check(page, ip, verb, hp) == Send(page, ip, verb, user, password, hp)
  {
    CredentialsDecode(user, password);
    CredentialsFound(hp, before, encoded, after);
  }

  /** The field as a client writes it, behind lines in which there is none. */
  lemma WrittenCredentials(page: string, ip: string, verb: string, user: string, password: string, hp: string,
                           encoded: string, before: seq<string>, after: string)
    requires IsEncoded(encoded, user, password) && |encoded| <= 598
    requires before != [] && Fields.Without(before, "Authorization: Basic ")
    requires hp == Fields.WithField(before, "Authorization", "Basic " + encoded, after)
    ensures Find(hp, SCHEME) == Some(|Fields.Joined(before)|)
    ensures Quanta(hp) && Check(page, ip, verb, hp) == Send(page, ip, verb, user, password, hp)
  {
    WrittenIsFound(before, encoded, after);
    CredentialsSend(page, ip, verb, user, password, hp, encoded, Fields.Joined(before), after);
  }

  lemma WrittenIsFound(before: seq<string>, encoded: string, after: string)
    requires before != [] && Fields.Without(before, "Authorization: Basic ")
    ensures var hp := Fields.WithField(before, "Authorization", "Basic " + encoded, after);
      hp == Fields.Joined(before) + SCHEME + encoded + CRLF + after && Find(hp, SCHEME) == Some(|Fields.Joined(before)|)
  {
    var tail := SCHEME + (encoded + (CRLF + after));
    var field := Fields.Field("Authorization", "Basic " + encoded);
    assert field == SCHEME + encoded;
    AppendAssoc(SCHEME, encoded, CRLF + after);
    Fields.FirstInJoined(before, SCHEME, tail);
    Regrouped(Fields.Joined(before), encoded, after);
  }

  lemma Regrouped(front: string, encoded: string, after: string)
    ensures front + (SCHEME + (encoded + (CRLF + after))) == front + SCHEME + encoded + CRLF + after
  {
    AppendAssoc(front, SCHEME, encoded + (CRLF + after));
    AppendAssoc(front + SCHEME, encoded, CRLF + after);
    AppendAssoc(front + SCHEME + encoded, CRLF, after);
  }

  /** What a client puts behind the scheme: a user without colon, and no NUL, in base64. */
  predicate IsEncoded(encoded: string, user: string, password: string) {
    && Bytes(user) && Bytes(password) && ':' !in user && NUL !in user && NUL !in password
    && encoded == Encoded(user + ":" + password)
  }

  lemma CredentialsFound(hp: string, before: string, encoded: string, after: string)
    requires hp == before + SCHEME + encoded + CRLF + after && Find(hp, SCHEME) == Some(|before|)
    requires CR !in encoded
    ensures Credentials(hp) == Some(Some(encoded))
  {
    var line := hp[|before|..];
    var n := |SCHEME| + |encoded|;
    assert line == SCHEME + encoded + CRLF + after by {
      assert hp == before + (SCHEME + encoded + CRLF + after);
    }
    forall i | 0 <= i < n
      ensures !OccursAt(line, CRLF, i)
    {
      assert line[i] == (SCHEME + encoded)[i];
      Mismatch(line, CRLF, i, 0);
    }
    assert line[n..n + 2] == CRLF;
    FindIs(line, CRLF, n);
    assert hp[|before| + |SCHEME|..|before| + n] == line[|SCHEME|..n] == encoded;
  }

  const INET6_ADDRSTRLEN := 46

  /** For the header of any request that the buffer can hold, no message overflows. */
  lemma MessageFits(header: string, q: RequestText.Request, ip: string)
    requires RequestText.Parse(header) == Some(q) && |header| < HEADBUF - 1 && |ip| < INET6_ADDRSTRLEN
    requires Quanta(q.httpParam)
    ensures !Check(UrlCleanup.PagePart(q.page), ip, q.verb, q.httpParam).Overflows?
  {
    PartsShort(header, q, UrlCleanup.PagePart(q.page));
    MessageFitsAt(UrlCleanup.PagePart(q.page), ip, q.verb, q.httpParam);
  }

  lemma PartsShort(header: string, q: RequestText.Request, page: string)
    requires RequestText.Parse(header) == Some(q) && |header| < HEADBUF - 1 && page == UrlCleanup.PagePart(q.page)
    ensures |page| + |q.verb| + |q.httpParam| < HEADBUF
  {
    RequestText.PartsFit(header, q);
    PageShorter(q.page);
  }

  lemma MessageFitsAt(page: string, ip: string, verb: string, httpParam: string)
    requires |page| + |verb| + |httpParam| < HEADBUF && |ip| < INET6_ADDRSTRLEN && Quanta(httpParam)
    ensures !Check(page, ip, verb, httpParam).Overflows?
  {
    match Credentials(httpParam)
    case Some(Some(encoded)) =>
      if |encoded| + 1 < 2 * PWDLIMIT {
        var decoded := CStr(Decoded(encoded));
        DecodedShort(encoded);
        match Find(decoded, ":")
        case Some(k) =>
          OccursChar(decoded, ':', k);
          SendsMessage(page, ip, verb, decoded[..k], decoded[k + 1..], httpParam);
        case None =>
      }
    case _ => SendsMessage(page, ip, verb, "", "", httpParam);
  }

  lemma DecodedShort(encoded: string)
    requires |encoded| % 4 == 0 && |encoded| + 1 < 2 * PWDLIMIT
    ensures |CStr(Decoded(encoded))| <= 447
  {
    ThreeOfFour(|encoded|);
    assert |Decoded(encoded)| == |encoded| / 4 * 3;
  }

  lemma ThreeOfFour(n: nat)
    requires n % 4 == 0 && n + 1 < 2 * PWDLIMIT
    ensures n / 4 * 3 <= 447
  {
  }

  lemma SendsMessage(page: string, ip: string, verb: string, user: string, password: string, httpParam: string)
    requires |page| + |verb| + |httpParam| < HEADBUF && |ip| < INET6_ADDRSTRLEN && |user| + |password| <= 447
    ensures Send(page, ip, verb, user, password, httpParam).Message?
  {
    MessageLength(page, ip, verb, user, password, httpParam);
  }

  lemma PageShorter(path: string)
    ensures |UrlCleanup.PagePart(path)| <= |path|
  {
    match Find(path, "?")
    case None => UrlCleanup.PageIsSafe(path);
    case Some(k) => UrlCleanup.PageIsSafe(path[..k]);
  }

  lemma MessageLength(page: string, ip: string, verb: string, user: string, password: string, httpParam: string)
    ensures |Text(page, ip, verb, user, password, httpParam)|
         == |page| + |ip| + |verb| + |user| + |password| + |httpParam| + 12
  {
  }

  /** So none does for any request that the scan of any connection finds. */
  lemma ReceivedMessageFits(s: BufferedReader.Stream, q: RequestText.Request, ip: string)
    requires var r := RequestLoop.ReadHeader(s);
      r.Found? && RequestText.Parse(RequestLoop.HeaderText(r.full, r.end)) == Some(q)
    requires |ip| < INET6_ADDRSTRLEN && Quanta(q.httpParam)
    ensures !Check(UrlCleanup.PagePart(q.page), ip, q.verb, q.httpParam).Overflows?
  {
    var r := RequestLoop.ReadHeader(s);
    MessageFits(RequestLoop.HeaderText(r.full, r.end), q, ip);
  }
}
