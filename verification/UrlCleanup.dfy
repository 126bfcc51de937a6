/** modURL (instance.c): what happens to a requested path before it meets the file system. */
module UrlCleanup {
  import opened CString
  import opened InPlace
  import opened StringReplace

  const PARENT: string := "../"

  /** The page that modURL leaves, as a C string. */
  function Page(s: string, params: bool): string {
    var decoded := CStr(Unescape(s));
    if params then decoded else Replaced(decoded, PARENT, NUL)
  }

  /** The decoded string in front of its first `../`. */
  function Kept(s: string): string {
    var decoded := CStr(Unescape(s));
    match Find(decoded, PARENT)
    case None => decoded
    case Some(k) => decoded[..k]
  }

  /**
   Decoding may only shorten a URL, and a cleaned page is free of `../`: no segment but the last
   ends in two dots. The last one is `..` exactly if what is kept of the decoded string is, or
   ends in `/..`.
   */
  lemma PageIsSafe(s: string)
    ensures |Page(s, true)| <= |s|
    ensures |Page(s, false)| <= |s|
    ensures NoParent(Page(s, false)) && DotsOnlyLast(Page(s, false))
    ensures ".." in Segments(Page(s, false)) <==> EndsInParent(Kept(s))
  {
    ReplacedLeavesNone(CStr(Unescape(s)), PARENT, NUL);
    ParentFree(Page(s, false));
    PageIsKept(s);
    ParentSegment(Kept(s));
  }

  lemma PageIsKept(s: string)
    ensures Page(s, false) == Kept(s)
  {
    var decoded := CStr(Unescape(s));
    match Find(decoded, PARENT)
    case None => ReplacedNone(decoded, PARENT, NUL);
    case Some(k) =>
      ReplacedAt(decoded, PARENT, NUL, k);
      assert decoded[..k] + [] == decoded[..k];
  }

  /** The last segment may be a parent directory that was there, with nothing behind it to cut at. */
  lemma LastSegmentMayBeParent()
    ensures Page("/..", false) == "/.." && ".." in Segments(Page("/..", false))
  {
    var s := "/..";
    DecodedPlain(s);
    Mismatch(s, PARENT, 0, 0);
    FindNone(s, PARENT);
    PageIsKept(s);
    PageIsSafe(s);
  }

  /** It may also be what the cut leaves of longer dots, whatever follows them. */
  lemma CutMayLeaveParent()
    ensures Page("/..../x", false) == "/.." && ".." in Segments(Page("/..../x", false))
  {
    var s := "/..../x";
    DecodedPlain(s);
    Mismatch(s, PARENT, 0, 0);
    Mismatch(s, PARENT, 1, 2);
    Mismatch(s, PARENT, 2, 2);
    assert s[3..6] == PARENT;
    FindIs(s, PARENT, 3);
    assert s[..3] == "/..";
    PageIsKept(s);
    PageIsSafe(s);
  }

  lemma DecodedPlain(s: string)
    requires NUL !in s && '%' !in s
    ensures CStr(Unescape(s)) == s
  {
    UnescapeFrom(s, |s|);
    assert s[|s|..] == [] && s[..|s|] == s && Unescape(s[|s|..]) == [];
    assert Unescape(s) == s;
    CStrIs(s, s);
  }

  // ---- Segments ----

  /** The segments of a path, between its slashes. */
  function Segments(p: string): (ss: seq<string>)
    ensures ss != []
    decreases |p|
  {
    match Find(p, "/")
    case None => [p]
    case Some(k) => [p[..k]] + Segments(p[k + 1..])
  }

  predicate EndsInDots(s: string) {
    |s| >= 2 && s[|s| - 2] == '.' && s[|s| - 1] == '.'
  }

  /** No segment but the last ends in two dots; in particular none of them is `..`. */
  predicate DotsOnlyLast(p: string) {
    forall i :: 0 <= i < |Segments(p)| - 1 ==> !EndsInDots(Segments(p)[i])
  }

  lemma FirstSlash(p: string, k: nat)
    requires Find(p, "/") == Some(k)
    ensures k < |p| && p[k] == '/' && '/' !in p[..k]
  {
    OccursChar(p, '/', k);
    forall i | 0 <= i < k
      ensures p[i] != '/'
    {
      OccursChar(p, '/', i);
    }
  }

  /** `../` occurs in front of or behind the first slash. */
  lemma ParentAt(p: string, k: nat, i: nat)
    requires Find(p, "/") == Some(k)
    ensures i + 2 < k ==> !OccursAt(p, PARENT, i)
    ensures i + 2 == k ==> (OccursAt(p, PARENT, i) <==> EndsInDots(p[..k]))
    ensures i <= k < i + 2 ==> !OccursAt(p, PARENT, i)
    ensures i > k ==> (OccursAt(p, PARENT, i) <==> OccursAt(p[k + 1..], PARENT, i - k - 1))
  {
    FirstSlash(p, k);
    if i + 2 < k {
      assert p[..k][i + 2] == p[i + 2];
      Mismatch(p, PARENT, i, 2);
    } else if i + 2 == k {
      assert p[i..i + 3] == PARENT <==> p[i] == '.' && p[i + 1] == '.';
    } else if i <= k {
      Mismatch(p, PARENT, i, k - i);
    } else {
      assert p[k + 1..|p|] == p[k + 1..];
      OccursShift(p, k + 1, |p|, PARENT, i - k - 1);
    }
  }

  ghost predicate NoParent(p: string) {
    forall i :: !OccursAt(p, PARENT, i)
  }

  /** A path is free of `../` exactly if no segment but the last ends in two dots. */
  lemma {:induction false} ParentFree(p: string)
    ensures NoParent(p) <==> DotsOnlyLast(p)
    decreases |p|
  {
    match Find(p, "/")
    case None =>
      forall i: nat
        ensures !OccursAt(p, PARENT, i)
      {
        OccursChar(p, '/', i + 2);
        Mismatch(p, PARENT, i, 2);
      }
    case Some(k) =>
      OccursChar(p, '/', k);
      ParentFree(p[k + 1..]);
      FirstAndRest(p, k);
      ParentSplit(p, k);
  }

  lemma ParentSplit(p: string, k: nat)
    requires Find(p, "/") == Some(k) && k < |p|
    ensures NoParent(p) <==> !EndsInDots(p[..k]) && NoParent(p[k + 1..])
  {
    var rest := p[k + 1..];
    if NoParent(p) {
      forall i: nat
        ensures !OccursAt(rest, PARENT, i)
      {
        ParentAt(p, k, i + k + 1);
      }
      if k >= 2 {
        ParentAt(p, k, k - 2);
      }
    } else if !EndsInDots(p[..k]) && NoParent(rest) {
      forall i: nat
        ensures !OccursAt(p, PARENT, i)
      {
        ParentAt(p, k, i);
      }
    }
  }

  lemma FirstAndRest(p: string, k: nat)
    requires Find(p, "/") == Some(k) && k < |p|
    ensures DotsOnlyLast(p) <==> !EndsInDots(p[..k]) && DotsOnlyLast(p[k + 1..])
  {
    var ss, rest := Segments(p), Segments(p[k + 1..]);
    assert ss == [p[..k]] + rest && |ss| - 1 == |rest| > 0;
    assert ss[0] == p[..k];
    forall i | 0 <= i < |rest|
      ensures rest[i] == ss[i + 1]
    {
    }
    if DotsOnlyLast(p) {
      forall i | 0 <= i < |rest| - 1
        ensures !EndsInDots(rest[i])
      {
        assert !EndsInDots(ss[i + 1]);
      }
    } else if !EndsInDots(p[..k]) && DotsOnlyLast(p[k + 1..]) {
      forall i | 0 <= i < |ss| - 1
        ensures !EndsInDots(ss[i])
      {
        assert i > 0 ==> ss[i] == rest[i - 1];
      }
    }
  }

  predicate EndsInParent(p: string) {
    p == ".." || (|p| >= 3 && p[|p| - 3..] == "/..")
  }

  /** The last segment of a path is `..` exactly if the path is, or ends in `/..`. */
  lemma LastIsParent(p: string)
    ensures Segments(p)[|Segments(p)| - 1] == ".." <==> EndsInParent(p)
    decreases |p|
  {
    match Find(p, "/")
    case None =>
      if |p| >= 3 {
        OccursChar(p, '/', |p| - 3);
        assert p[|p| - 3..][0] == p[|p| - 3];
      }
    case Some(k) =>
      FirstSlash(p, k);
      LastIsParent(p[k + 1..]);
      EndBehindSlash(p, k);
  }

  lemma EndBehindSlash(p: string, k: nat)
    requires k < |p| && p[k] == '/'
    ensures EndsInParent(p) <==> EndsInParent(p[k + 1..])
  {
    var rest := p[k + 1..];
    if |rest| >= 3 {
      assert p[|p| - 3..] == rest[|rest| - 3..];
    } else if |rest| == 2 {
      assert p[|p| - 3..] == ['/'] + rest;
      assert rest == (['/'] + rest)[1..];
    } else if |p| >= 3 {
      assert p[|p| - 3..][2 - |rest|] == p[k];
    }
  }

  /** Without `../` only the last segment of a path can be `..`. */
  lemma ParentSegment(p: string)
    requires NoParent(p)
    ensures ".." in Segments(p) <==> EndsInParent(p)
  {
    ParentFree(p);
    LastIsParent(p);
    var ss := Segments(p);
    if ".." in ss {
      var i :| 0 <= i < |ss| && ss[i] == "..";
      assert EndsInDots(ss[i]);
    }
  }

  // ---- Page and parameters ----

  /** What becomes of the page of a request path: everything in front of its first `?`, cleaned. */
  function PagePart(path: string): string {
    match Find(path, "?")
    case None => Page(path, false)
    case Some(k) => Page(path[..k], false)
  }

  /** What becomes of its parameters, if it has any. */
  function QueryPart(path: string): Option<string> {
    match Find(path, "?")
    case None => None
    case Some(k) => Some(Page(path[k + 1..], true))
  }

  /** A path without escapes, parameters and parent directories is its own page. */
  lemma PlainPathKept(path: string)
    requires NUL !in path && '%' !in path && '?' !in path && NoParent(path)
    ensures PagePart(path) == path && QueryPart(path) == None
  {
    forall i: nat
      ensures !OccursAt(path, "?", i)
    {
      OccursChar(path, '?', i);
    }
    FindNone(path, "?");
    DecodedPlain(path);
    FindNone(path, PARENT);
    ReplacedNone(path, PARENT, NUL);
  }

  // ---- In the buffer ----

  /** The C string at this offset is s. */
  ghost predicate ReadsAs(mem: string, at: nat, s: string) {
    Terminated(mem, at) && CStr(mem[at..]) == s
  }

  /** Neither what comes before the string nor its old end and what comes behind has changed. */
  ghost predicate OutsideKept(m: Layout, mem: string) {
    && |m.pre| + |m.s| <= |mem|
    && mem[..|m.pre|] == m.pre && mem[|m.pre| + |m.s|..] == [NUL] + m.post
  }

  /** modURL; `url` is the offset of the string, None for a NULL pointer. */
  method ModURL(a: array<char>, url: Option<nat>, params: bool)
    requires url.Some? ==> Terminated(a[..], url.value)
    requires url.None? ==> params
    modifies a
    ensures url.None? ==> a[..] == old(a[..])
    ensures url.Some? ==>
      var m := LayoutAt(old(a[..]), url.value);
      && ReadsAs(a[..], url.value, Page(m.s, params)) && OutsideKept(m, a[..])
      && |Page(m.s, params)| <= |m.s|
      && (!params ==> NoParent(Page(m.s, params)))
  {
    if url.None? {
      return;
    }
    ghost var m := LayoutAt(a[..], url.value);
    PageIsSafe(m.s);
    CleanAt(a, url.value, params, m);
  }

  lemma Decoded(m: Layout, junk: string, mem: string) returns (m1: Layout)
    requires m.Valid() && NulEnded(junk) && mem == Layout(m.pre, Unescape(m.s), junk + m.post).Bytes()
    requires |Unescape(m.s)| + |junk| == |m.s|
    ensures m1.Valid() && m1.Bytes() == mem && m1.pre == m.pre && m1.s == CStr(Unescape(m.s)) && |m1.s| <= |m.s|
    ensures OutsideKept(m, mem) && ReadsAs(mem, |m.pre|, m1.s)
  {
    var u, start := Unescape(m.s), |m.pre|;
    assert mem[start..] == u + ([NUL] + (junk + m.post));
    CStrUpTo(mem[start..], u);
    m1 := LayoutAt(mem, start);
    assert m1.pre == mem[..start] == m.pre;
    EndKept(m.pre, u, junk, m.post);
  }

  /** Shortening the decoded string to r keeps all that decoding has kept. */
  lemma CutKeeps(m: Layout, m1: Layout, r: string, junk: string, mem: string)
    requires m1.pre == m.pre && |m1.s| <= |m.s| && OutsideKept(m, m1.Bytes())
    requires NUL !in r && NulEnded(junk) && |r| + |junk| == |m1.s|
    requires mem == Layout(m1.pre, r, junk + m1.post).Bytes()
    ensures OutsideKept(m, mem) && ReadsAs(mem, |m.pre|, r)
  {
    ReadsBack(Layout(m1.pre, r, junk + m1.post));
    EndKept(m1.pre, r, junk, m1.post);
    WholeEnd(m1);
    TailsAgree(m1.Bytes(), mem, |m1.pre| + |m1.s|, |m.pre| + |m.s|, [NUL] + m1.post);
  }

  /** modURL on the string of a known layout. */
  method CleanAt(a: array<char>, at: nat, params: bool, ghost m: Layout)
    requires m.Valid() && a[..] == m.Bytes() && |m.pre| == at
    modifies a
    ensures OutsideKept(m, a[..]) && ReadsAs(a[..], at, Page(m.s, params)) && |Page(m.s, params)| <= |m.s|
  {
    ghost var junk := ReplaceEscape(a, at, m);
    PageIsSafe(m.s);
    ghost var m1 := Decoded(m, junk, a[..]);
    if !params {
      ghost var junk', rounds := StrReplace(a, at, PARENT, NUL, m1);
      ReplacedHasNoNul(m1.s, PARENT);
      CutKeeps(m, m1, Replaced(m1.s, PARENT, NUL), junk', a[..]);
    }
  }

  /** The path is split at its first `?`, the k-th character: both parts are strings of their own. */
  ghost predicate SplitAtQuery(m: Layout, k: nat, mem: string) {
    && k < |m.s| && Find(m.s, "?") == Some(k)
    && mem == Layout(m.pre, m.s[..k], m.s[k + 1..] + ([NUL] + m.post)).Bytes()
  }

  /** split_get_params: the first `?` of the path becomes a NUL, and the parameters begin behind it. */
  method SplitGetParams(a: array<char>, page: nat, ghost m: Layout) returns (params: Option<nat>)
    requires m.Valid() && a[..] == m.Bytes() && |m.pre| == page
    modifies a
    ensures params.None? ==> Find(m.s, "?") == None && a[..] == m.Bytes()
    ensures params.Some? ==> page < params.value <= page + |m.s| && SplitAtQuery(m, params.value - page - 1, a[..])
  {
    StringAt(m, a[..], page);
    var separator := Find(CStr(a[page..]), "?");
    if separator.None? {
      return None;
    }
    a[page + separator.value] := NUL;
    SplitAt(m, separator.value, a[..]);
    params := Some(page + separator.value + 1);
  }

  /** Page and parameters have been cleaned in place, and nothing outside the path has changed. */
  ghost predicate CleanedPath(m: Layout, mem: string, params: Option<nat>) {
    && OutsideKept(m, mem) && ReadsAs(mem, |m.pre|, PagePart(m.s))
    && (params.None? ==> QueryPart(m.s) == None)
    && (params.Some? ==> |m.pre| < params.value <= |m.pre| + |m.s| && QueryReads(m.s, mem, params.value))
  }

  ghost predicate QueryReads(path: string, mem: string, at: nat) {
    Terminated(mem, at) && QueryPart(path) == Some(CStr(mem[at..]))
  }

  /**
   split_get_params and both calls of modURL, as set_connection_props makes them: the
   request path at `page` becomes a page and, behind its first `?`, the parameters. Each is
   cleaned by itself.
   */
  method SplitAndClean(a: array<char>, page: nat, ghost m: Layout) returns (params: Option<nat>)
    requires m.Valid() && a[..] == m.Bytes() && |m.pre| == page
    modifies a
    ensures CleanedPath(m, a[..], params)
  {
    params := SplitGetParams(a, page, m);
    if params.None? {
      CleanWhole(a, page, m);
    } else {
      CleanSplit(a, page, params.value, params.value - page - 1, m);
    }
  }

  /** Both calls of modURL without parameters. */
  method CleanWhole(a: array<char>, page: nat, ghost m: Layout)
    requires m.Valid() && a[..] == m.Bytes() && |m.pre| == page && Find(m.s, "?") == None
    modifies a
    ensures CleanedPath(m, a[..], None)
  {
    CleanAt(a, page, false, m);
    ModURL(a, None, true);
  }

  /** Both calls of modURL once the path is split. */
  method CleanSplit(a: array<char>, page: nat, params: nat, ghost k: nat, ghost m: Layout)
    requires m.Valid() && page == |m.pre| && params == page + k + 1 && SplitAtQuery(m, k, a[..])
    modifies a
    ensures CleanedPath(m, a[..], Some(params))
  {
    CleanHalves(a, page, params, k, m);
    HalvesArePath(m, k, a[..], params);
  }

  /** The page in front of the k-th character and the parameters behind it have been cleaned. */
  ghost predicate CleanedHalves(m: Layout, k: nat, mem: string) {
    && k < |m.s| && OutsideKept(m, mem)
    && ReadsAs(mem, |m.pre|, Page(m.s[..k], false))
    && ReadsAs(mem, |m.pre| + k + 1, Page(m.s[k + 1..], true))
  }

  lemma HalvesArePath(m: Layout, k: nat, mem: string, params: nat)
    requires Find(m.s, "?") == Some(k) && CleanedHalves(m, k, mem) && params == |m.pre| + k + 1
    ensures CleanedPath(m, mem, Some(params))
  {
  }

  /** The page has been cleaned; the parameters behind it are as they were. */
  ghost predicate CleanedPage(m: Layout, k: nat, mem: string) {
    && m.Valid() && k < |m.s|
    && |mem| == |m.pre| + k + 1 + |m.s[k + 1..]| + 1 + |m.post|
    && mem[..|m.pre|] == m.pre && mem[|m.pre| + k + 1..] == m.s[k + 1..] + ([NUL] + m.post)
    && ReadsAs(mem, |m.pre|, Page(m.s[..k], false)) && |Page(m.s[..k], false)| <= k
  }

  method CleanHalves(a: array<char>, page: nat, params: nat, ghost k: nat, ghost m: Layout)
    requires m.Valid() && page == |m.pre| && params == page + k + 1 && SplitAtQuery(m, k, a[..])
    modifies a
    ensures CleanedHalves(m, k, a[..])
  {
    CleanAt(a, page, false, Layout(m.pre, m.s[..k], m.s[k + 1..] + ([NUL] + m.post)));
    PageCleaned(m, k, a[..]);
    CleanParams(a, params, k, m);
  }

  lemma PageCleaned(m: Layout, k: nat, mem: string)
    requires m.Valid() && k < |m.s|
    requires var l := Layout(m.pre, m.s[..k], m.s[k + 1..] + ([NUL] + m.post));
      |mem| == |l.Bytes()| && OutsideKept(l, mem)
    requires ReadsAs(mem, |m.pre|, Page(m.s[..k], false)) && |Page(m.s[..k], false)| <= k
    ensures CleanedPage(m, k, mem)
  {
    assert mem[|m.pre| + k + 1..] == mem[|m.pre| + k..][1..];
  }

  method CleanParams(a: array<char>, at: nat, ghost k: nat, ghost m: Layout)
    requires CleanedPage(m, k, a[..]) && at == |m.pre| + k + 1
    modifies a
    ensures CleanedHalves(m, k, a[..])
  {
    ghost var cleaned := a[..];
    ghost var l := ParamsKept(m, k, cleaned, at);
    CleanAt(a, at, true, l);
    HalvesDone(m, k, cleaned, a[..], at, l);
  }

  /** Cleaning the page leaves the parameters behind it as they were. */
  lemma ParamsKept(m: Layout, k: nat, cleaned: string, at: nat) returns (l: Layout)
    requires CleanedPage(m, k, cleaned) && at == |m.pre| + k + 1
    ensures l.Valid() && cleaned == l.Bytes() && l == Layout(cleaned[..at], m.s[k + 1..], m.post) && |l.pre| == at
  {
    l := Layout(cleaned[..at], m.s[k + 1..], m.post);
    assert cleaned == cleaned[..at] + cleaned[at..];
  }

  lemma HalvesDone(m: Layout, k: nat, cleaned: string, mem: string, at: nat, l: Layout)
    requires CleanedPage(m, k, cleaned) && |mem| == |cleaned| && at == |m.pre| + k + 1
    requires l == Layout(cleaned[..at], m.s[k + 1..], m.post) && OutsideKept(l, mem)
    requires ReadsAs(mem, at, Page(m.s[k + 1..], true))
    ensures CleanedHalves(m, k, mem)
  {
    PageKept(cleaned, mem, |m.pre|, at, Page(m.s[..k], false));
  }

  /** The layouts of the two halves once the `?` has become a NUL. */
  lemma SplitAt(m: Layout, k: nat, mem: string)
    requires m.Valid() && Find(m.s, "?") == Some(k) && mem == m.Bytes()[|m.pre| + k := NUL]
    ensures mem == Layout(m.pre, m.s[..k], m.s[k + 1..] + ([NUL] + m.post)).Bytes()
  {
    var x, c, rest, tail := m.s[..k], m.s[k], m.s[k + 1..], [NUL] + m.post;
    assert m.s == x + ([c] + rest);
    AppendAssoc([c], rest, tail);
    AppendAssoc(x, [c] + rest, tail);
    AppendAssoc(m.pre, x, [c] + (rest + tail));
    SetAfter(m.pre + x, c, rest + tail, NUL);
    AppendAssoc(m.pre, x, [NUL] + (rest + tail));
  }

  /** Cleaning the parameters leaves the page in front of them as it was. */
  lemma PageKept(before: string, after: string, page: nat, at: nat, c: string)
    requires page < at <= |before| == |after| && after[..at] == before[..at]
    requires ReadsAs(before, page, c) && page + |c| < at
    ensures ReadsAs(after, page, c) && after[..page] == before[..page]
  {
    assert after[page..][..|c|] == after[..at][page..page + |c|];
    assert before[page..][..|c|] == before[..at][page..page + |c|];
    assert after[..at][page + |c|] == before[..at][page + |c|];
    CStrIs(after[page..], c);
  }
}
