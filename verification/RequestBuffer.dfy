/** The request line taken apart in the request buffer itself (instance.c). */
module RequestBuffer {
  import opened CString
  import opened InPlace
  import opened RequestText
  import opened UrlCleanup

  // ---- strtok_r ----

  /** A text taken apart at its first token: a token without separator ends the text. */
  datatype Cut = Cut(blanks: string, word: string, separated: bool, rest: string) {
    predicate Valid() {
      NUL !in word && NUL !in rest && (!separated ==> rest == [])
    }

    function Text(): string {
      if separated then blanks + (word + ([' '] + rest)) else blanks + word
    }
  }

  function CutOf(s: string): Cut {
    var t := SkipBlanks(s);
    var w := Word(t);
    Cut(s[..|s| - |t|], w, |w| < |t|, if |w| < |t| then t[|w| + 1..] else [])
  }

  lemma WordParts(t: string)
    requires NUL !in t
    ensures var w := Word(t);
      && NUL !in w && (|w| == |t| ==> t == w)
      && (|w| < |t| ==> t == w + ([' '] + t[|w| + 1..]) && NUL !in t[|w| + 1..])
  {
    var w := Word(t);
    if |w| < |t| {
      assert t == t[..|w|] + ([t[|w|]] + t[|w| + 1..]);
    }
  }

  lemma CutIs(s: string)
    requires NUL !in s && Token(s).Some?
    ensures CutOf(s).Valid() && CutOf(s).Text() == s
    ensures Token(s) == Some((CutOf(s).word, CutOf(s).rest))
  {
    SuffixParts(s, |s| - |SkipBlanks(s)|, SkipBlanks(s));
    WordParts(SkipBlanks(s));
  }

  lemma SuffixParts(s: string, n: nat, t: string)
    requires NUL !in s && n <= |s| && t == s[n..]
    ensures NUL !in t && s == s[..n] + t
  {
  }

  /** The buffer seen from the token, once its separator is a NUL. */
  function TokenLayout(pre: string, c: Cut, post: string): Layout {
    Layout(pre + c.blanks, c.word, if c.separated then c.rest + ([NUL] + post) else post)
  }

  /** The same buffer, seen from what follows the token. */
  function RestLayout(pre: string, c: Cut, post: string): Layout {
    Layout((pre + c.blanks) + (if c.separated then c.word + [NUL] else c.word), c.rest, post)
  }

  /** The memory in which strtok_r has ended a token, with the offsets of the token and of what follows. */
  ghost predicate Tokenised(pre: string, c: Cut, post: string, mem: string, token: nat, lasts: nat) {
    && c.Valid()
    && mem == TokenLayout(pre, c, post).Bytes() && mem == RestLayout(pre, c, post).Bytes()
    && token == |pre + c.blanks|
    && lasts == token + |c.word| + if c.separated then 1 else 0
  }

  lemma CutAt(pre: string, c: Cut, post: string, mem: string, token: nat)
    requires c.Valid() && c.separated && token == |pre| + |c.blanks|
    requires mem == Layout(pre, c.Text(), post).Bytes() && token + |c.word| < |mem|
    ensures Tokenised(pre, c, post, mem[token + |c.word| := NUL], token, token + |c.word| + 1)
  {
    var before, tail := pre + c.blanks, [NUL] + post;
    AppendAssoc([' '], c.rest, tail);
    AppendAssoc(c.word, [' '] + c.rest, tail);
    AppendAssoc(c.blanks, c.word + ([' '] + c.rest), tail);
    AppendAssoc(pre, c.blanks, c.word + ([' '] + (c.rest + tail)));
    AppendAssoc(before, c.word, [' '] + (c.rest + tail));
    assert mem == (before + c.word) + ([' '] + (c.rest + tail));
    SetAfter(before + c.word, ' ', c.rest + tail, NUL);
    AppendAssoc(before, c.word, [NUL] + (c.rest + tail));
    AppendAssoc(c.word, [NUL], c.rest + tail);
    AppendAssoc(before, c.word + [NUL], c.rest + tail);
  }

  lemma NotCut(pre: string, c: Cut, post: string, mem: string, token: nat)
    requires c.Valid() && !c.separated && token == |pre| + |c.blanks|
    requires mem == Layout(pre, c.Text(), post).Bytes()
    ensures Tokenised(pre, c, post, mem, token, token + |c.word|)
  {
    assert [] + ([NUL] + post) == [NUL] + post;
    AppendAssoc(c.blanks, c.word, [NUL] + post);
    AppendAssoc(pre, c.blanks, c.word + ([NUL] + post));
    AppendAssoc(pre + c.blanks, c.word, [NUL] + post);
  }

  /** strtok_r with a space, on the string at p: the offset of the token, and of what follows it. */
  method StrTok(a: array<char>, p: nat, ghost m: Layout) returns (token: Option<nat>, lasts: nat, ghost c: Cut)
    requires m.Valid() && a[..] == m.Bytes() && p == |m.pre|
    modifies a
    ensures token.None? ==> Token(m.s) == None && a[..] == m.Bytes()
    ensures token.Some? ==> Token(m.s) == Some((c.word, c.rest)) && m.s == c.Text()
    ensures token.Some? ==> Tokenised(m.pre, c, m.post, a[..], token.value, lasts)
  {
    StringAt(m, a[..], p);
    var s := CStr(a[p..]);
    var t := SkipBlanks(s);
    var from := p + (|s| - |t|);
    c := CutOf(s);
    if t == [] {
      return None, from, c;
    }
    CutIs(s);
    lasts := EndToken(a, from, |Word(t)|, m, c);
    token := Some(from);
  }

  /** Writes the NUL, if there is a separator to overwrite. */
  method EndToken(a: array<char>, from: nat, length: nat, ghost m: Layout, ghost c: Cut) returns (lasts: nat)
    requires c.Valid() && m.s == c.Text() && a[..] == m.Bytes() && from == |m.pre| + |c.blanks| && length == |c.word|
    modifies a
    ensures Tokenised(m.pre, c, m.post, a[..], from, lasts)
  {
    assert |m.Bytes()| == a.Length;
    lasts := from + length;
    if a[lasts] == NUL {
      EndIsNul(m, c, a[..], from);
      NotCut(m.pre, c, m.post, a[..], from);
    } else {
      EndIsNul(m, c, a[..], from);
      CutAt(m.pre, c, m.post, a[..], from);
      a[lasts] := NUL;
      lasts := lasts + 1;
    }
  }

  /** Behind the token stands its separator or the end of the text. */
  lemma EndIsNul(m: Layout, c: Cut, mem: string, from: nat)
    requires c.Valid() && m.s == c.Text() && mem == m.Bytes() && from == |m.pre| + |c.blanks|
    ensures from + |c.word| < |mem| && mem[from + |c.word|] == if c.separated then ' ' else NUL
  {
    assert mem[|m.pre|..] == m.s + ([NUL] + m.post);
    assert mem[from + |c.word|] == (m.s + ([NUL] + m.post))[|c.blanks| + |c.word|];
  }

  // ---- Virtual hosts ----

  /** A string inside a string. */
  lemma StringInside(mem: string, p: nat, k: nat)
    requires Terminated(mem, p) && k <= |CStr(mem[p..])|
    ensures Terminated(mem, p + k) && CStr(mem[p + k..]) == CStr(mem[p..])[k..]
  {
    var s := CStr(mem[p..]);
    assert mem[p..][k..] == mem[p + k..];
    assert s[k..] <= mem[p + k..];
    CStrIs(mem[p + k..], s[k..]);
  }

  /** get_basedir: the name is ended with a NUL for the look-up, and the CR put back afterwards. */
  method GetBasedir(a: array<char>, httpParam: nat, virtualHost: bool) returns (host: Option<string>)
    requires Terminated(a[..], httpParam)
    modifies a
    ensures a[..] == old(a[..])
    ensures host == if virtualHost then HostOf(CStr(a[httpParam..])) else None
  {
    if !virtualHost {
      return None;
    }
    var h := Find(CStr(a[httpParam..]), "\r\nHost: ");
    if h.None? {
      return None;
    }
    var from := httpParam + h.value + 8;
    StringInside(a[..], httpParam, h.value + 8);
    host := NameAt(a, from);
  }

  /** The look-up of the name that stands here, if a CR ends it. */
  method NameAt(a: array<char>, from: nat) returns (host: Option<string>)
    requires Terminated(a[..], from)
    modifies a
    ensures a[..] == old(a[..]) && host == UpToCR(CStr(a[from..]))
  {
    var cr := Find(CStr(a[from..]), "\r");
    if cr.None? {
      return None;
    }
    var end := cr.value;
    ghost var was, s := a[..], CStr(a[from..]);
    OccursChar(s, '\r', end);
    assert was[from..][..|s|] == s && was[from + end] == s[end];
    a[from + end] := NUL;
    assert a[from..][..end] == s[..end];
    CStrIs(a[from..], s[..end]);
    host := Some(CStr(a[from..]));
    a[from + end] := '\r';
    assert a[..] == was;
  }

  // ---- The whole request line ----

  /** The fields of connection_prop that point into the buffer, and keep_alive. */
  datatype Props = Props(kind: Kind, verb: nat, page: nat, params: Option<nat>, httpParam: nat, keepAlive: bool)

  /** What the fields read as, in a buffer that held the request q. */
  ghost predicate Holds(mem: string, p: Props, q: Request) {
    && p.kind == q.kind && p.keepAlive == KeepAlive(q.httpParam)
    && ReadsAs(mem, p.verb, q.verb)
    && ReadsAs(mem, p.page, PagePart(q.page))
    && (p.params.None? ==> QueryPart(q.page) == None)
    && (p.params.Some? ==> QueryReads(q.page, mem, p.params.value))
    && ReadsAs(mem, p.httpParam, q.httpParam)
  }

  /** The text of the header has been worked on up to its end and no further. */
  ghost predicate TailKept(end: nat, post: string, mem: string) {
    end <= |mem| && mem[end..] == [NUL] + post
  }

  /** Splitting off a token keeps the end of the text. */
  lemma RestKeepsTail(pre: string, c: Cut, post: string, mem: string, token: nat, lasts: nat, end: nat)
    requires Tokenised(pre, c, post, mem, token, lasts) && end == |pre| + |c.Text()|
    ensures TailKept(end, post, mem)
  {
    var l := RestLayout(pre, c, post);
    assert |l.pre| + |l.s| == end;
    WholeEnd(l);
  }

  /** A NUL-ended text reads as it did as long as its cells are the same. */
  lemma ReadsThere(pre: string, w: string, mem: string, from: nat)
    requires NUL !in w && pre + (w + [NUL]) <= mem && from == |pre|
    ensures ReadsAs(mem, from, w)
  {
    var whole := pre + (w + [NUL]);
    assert mem[..|whole|] == whole;
    assert mem[from..][..|w| + 1] == whole[from..] == w + [NUL];
    assert (w + [NUL])[|w|] == NUL && (w + [NUL])[..|w|] == w;
    CStrIs(mem[from..], w);
  }

  /** What follows the page reads as before: the NUL that ended the page is still there. */
  lemma RestStillThere(pre: string, c: Cut, post: string, mem: string, lasts: nat)
    requires c.Valid() && OutsideKept(TokenLayout(pre, c, post), mem)
    requires lasts == |pre + c.blanks| + |c.word| + if c.separated then 1 else 0
    ensures ReadsAs(mem, lasts, c.rest)
  {
    var from := |pre + c.blanks| + |c.word|;
    if c.separated {
      BehindNul(mem, from, c.rest + ([NUL] + post));
    } else {
      assert mem[from..] == c.rest + ([NUL] + post);
    }
    TextReads(mem, lasts, c.rest, post);
  }

  lemma BehindNul(mem: string, from: nat, tail: string)
    requires from <= |mem| && mem[from..] == [NUL] + tail
    ensures from + 1 <= |mem| && mem[from + 1..] == tail
  {
    assert mem[from + 1..] == mem[from..][1..];
  }

  lemma TextReads(mem: string, at: nat, text: string, post: string)
    requires NUL !in text && at <= |mem| && mem[at..] == text + ([NUL] + post)
    ensures ReadsAs(mem, at, text)
  {
    CStrIs(mem[at..], text);
  }

  lemma PathKeepsTail(pre: string, c: Cut, post: string, mem: string, was: string, token: nat, lasts: nat, end: nat)
    requires Tokenised(pre, c, post, was, token, lasts) && |mem| == |was| && end == |pre| + |c.Text()|
    requires OutsideKept(TokenLayout(pre, c, post), mem)
    ensures TailKept(end, post, mem)
  {
    var l := TokenLayout(pre, c, post);
    WholeEnd(l);
    RestKeepsTail(pre, c, post, was, token, lasts, end);
    TailsAgree(was, mem, |l.pre| + |l.s|, end, [NUL] + l.post);
  }

  /** set_connection_props, once page and http_param point into the buffer. */
  method SetConnectionProps(a: array<char>, page: nat, httpParam: nat, ghost pre: string, ghost c: Cut, ghost post: string,
                            ghost end: nat)
    returns (params: Option<nat>, keepAlive: bool)
    requires Tokenised(pre, c, post, a[..], page, httpParam) && end == |pre| + |c.Text()|
    modifies a
    ensures CleanedPath(TokenLayout(pre, c, post), a[..], params)
    ensures TailKept(end, post, a[..])
    ensures ReadsAs(a[..], httpParam, c.rest) && keepAlive == KeepAlive(c.rest)
  {
    ghost var was := a[..];
    StringAt(RestLayout(pre, c, post), a[..], httpParam);
    keepAlive := KeepAlive(CStr(a[httpParam..]));
    params := SplitAndClean(a, page, TokenLayout(pre, c, post));
    RestStillThere(pre, c, post, a[..], httpParam);
    PathKeepsTail(pre, c, post, a[..], was, page, httpParam, end);
    var virtualHost: bool := *;
    var host := GetBasedir(a, httpParam, virtualHost);
  }

  /** Lines 174 to 199: the request's kind, the two tokens, and set_connection_props. None is a bad request. */
  method ParseInPlace(a: array<char>, ghost m: Layout) returns (r: Option<Props>)
    requires m.Valid() && a[..] == m.Bytes() && m.pre == []
    modifies a
    ensures TailKept(|m.s|, m.post, a[..])
    ensures r.None? ==> Parse(m.s) == None
    ensures r.Some? ==> Parse(m.s).Some? && Holds(a[..], r.value, Parse(m.s).value)
    ensures r.Some? ==> Name(r.value.kind) <= m.s
    ensures (forall kind :: !(Name(kind) <= m.s)) ==> r.None?
  {
    WholeEnd(m);
    StringAt(m, a[..], 0);
    var kind := KindOf(CStr(a[0..]));
    if kind.None? {
      return None;
    }
    KindIsByName(m.s, kind.value);
    r := ParseTokens(a, kind.value, m);
  }

  /** Lines 188 to 199. */
  method ParseTokens(a: array<char>, kind: Kind, ghost m: Layout) returns (r: Option<Props>)
    requires m.Valid() && a[..] == m.Bytes() && m.pre == [] && KindOf(m.s) == Some(kind)
    modifies a
    ensures TailKept(|m.s|, m.post, a[..])
    ensures r.None? ==> Parse(m.s) == None
    ensures r.Some? ==> r.value.kind == kind && Parse(m.s).Some? && Holds(a[..], r.value, Parse(m.s).value)
  {
    WholeEnd(m);
    ghost var c, q;
    var verb, lasts;
    verb, lasts, c := StrTok(a, 0, m);
    if verb.None? {
      return None;
    }
    r, q := ParseRest(a, kind, verb.value, lasts, m.pre, c, m.post, |m.s|);
    ParseIs(m.s, kind, c.word, c.rest);
  }

  /** Lines 189 to 199, behind the first token. */
  method ParseRest(a: array<char>, kind: Kind, verb: nat, lasts: nat, ghost pre: string, ghost c: Cut, ghost post: string,
                   ghost end: nat)
    returns (r: Option<Props>, ghost q: Request)
    requires Tokenised(pre, c, post, a[..], verb, lasts) && end == |pre| + |c.Text()|
    modifies a
    ensures TailKept(end, post, a[..])
    ensures r.None? ==> Token(c.rest) == None
    ensures r.Some? ==> r.value.kind == kind == q.kind && q.verb == c.word && Token(c.rest) == Some((q.page, q.httpParam))
    ensures r.Some? ==> Holds(a[..], r.value, q)
  {
    RestKeepsTail(pre, c, post, a[..], verb, lasts, end);
    ghost var l, d := RestLayout(pre, c, post), c;
    var page, httpParam;
    page, httpParam, d := StrTok(a, lasts, l);
    q := Request(kind, c.word, d.word, d.rest);
    if page.None? {
      return None, q;
    }
    var params, keepAlive := SetConnectionProps(a, page.value, httpParam, l.pre, d, l.post, end);
    VerbStillThere(pre, c, d, post, a[..], verb);
    r := Some(Props(kind, verb, page.value, params, httpParam, keepAlive));
    Parsed(l.pre, q, d, post, a[..], r.value);
  }

  /** The token in front of the page reads as before: it ended with a NUL, or there would be no page. */
  lemma VerbStillThere(pre: string, c: Cut, d: Cut, post: string, mem: string, verb: nat)
    requires c.Valid() && verb == |pre + c.blanks| && d.Text() == c.rest && d.word != []
    requires RestLayout(pre, c, post).pre + d.blanks <= mem
    ensures ReadsAs(mem, verb, c.word)
  {
    assert c.separated;
    ReadsThere(pre + c.blanks, c.word, mem, verb);
  }

  lemma Parsed(pre: string, q: Request, d: Cut, post: string, mem: string, p: Props)
    requires p.kind == q.kind && q.page == d.word && q.httpParam == d.rest
    requires ReadsAs(mem, p.verb, q.verb)
    requires p.page == |pre + d.blanks| && CleanedPath(TokenLayout(pre, d, post), mem, p.params)
    requires ReadsAs(mem, p.httpParam, d.rest) && p.keepAlive == KeepAlive(d.rest)
    ensures Holds(mem, p, q)
  {
  }
}
