/** C strings and the libc searches over them; a byte is a `char` below 256. */
module CString {

  datatype Option<+T> = None | Some(value: T)

  const NUL := '\0'
  const CR := '\r'
  const LF := '\n'
  const CRLF: string := "\r\n"

  /** The C string that starts a piece of memory: everything before the first NUL. */
  function CStr(mem: string): (s: string)
    ensures NUL !in s
    ensures s <= mem
    ensures |s| < |mem| ==> mem[|s|] == NUL
  {
    if mem == [] || mem[0] == NUL then [] else [mem[0]] + CStr(mem[1..])
  }

  /** Memory that holds s followed by a NUL reads as s. */
  lemma {:induction false} CStrIs(mem: string, s: string)
    requires NUL !in s
    requires s <= mem
    requires |s| == |mem| || mem[|s|] == NUL
    ensures CStr(mem) == s
  {
    if mem != [] && s != [] {
      CStrIs(mem[1..], s[1..]);
    }
  }

  /** Memory that holds a text and then a NUL reads like the text. */
  lemma CStrUpTo(mem: string, text: string)
    requires text <= mem
    requires |text| < |mem| ==> mem[|text|] == NUL
    ensures CStr(mem) == CStr(text)
  {
    var c := CStr(text);
    assert mem[..|c|] == text[..|c|] == c;
    CStrIs(mem, c);
  }

  lemma AppendAssoc(a: string, b: string, c: string)
    ensures (a + b) + c == a + (b + c)
  {
  }

  predicate OccursAt(s: string, pat: string, i: int) {
    0 <= i && i + |pat| <= |s| && s[i..i + |pat|] == pat
  }

  /** strstr: the index of the first occurrence of pat in s, or None. */
  function Find(s: string, pat: string): (r: Option<nat>)
    ensures r.Some? ==> OccursAt(s, pat, r.value)
    ensures r.Some? ==> forall i :: 0 <= i < r.value ==> !OccursAt(s, pat, i)
    ensures r.None? ==> forall i :: !OccursAt(s, pat, i)
  {
    FindFrom(s, pat, 0)
  }

  function FindFrom(s: string, pat: string, from: nat): (r: Option<nat>)
    ensures r.Some? ==> from <= r.value && OccursAt(s, pat, r.value)
    ensures r.Some? ==> forall i :: from <= i < r.value ==> !OccursAt(s, pat, i)
    ensures r.None? ==> forall i :: from <= i ==> !OccursAt(s, pat, i)
    decreases |s| - from
  {
    if from + |pat| > |s| then None
    else if OccursAt(s, pat, from) then Some(from)
    else FindFrom(s, pat, from + 1)
  }

  /** A first occurrence is what strstr finds. */
  lemma FindIs(s: string, pat: string, i: nat)
    requires OccursAt(s, pat, i)
    requires forall j :: 0 <= j < i ==> !OccursAt(s, pat, j)
    ensures Find(s, pat) == Some(i)
  {
  }

  lemma FindNone(s: string, pat: string)
    requires forall j :: !OccursAt(s, pat, j)
    ensures Find(s, pat) == None
  {
  }

  /** One different character rules an occurrence out. */
  lemma Mismatch(s: string, pat: string, i: nat, k: nat)
    requires k < |pat|
    requires i + k < |s| ==> s[i + k] != pat[k]
    ensures !OccursAt(s, pat, i)
  {
    if i + |pat| <= |s| {
      assert s[i..i + |pat|][k] == s[i + k];
    }
  }

  /** Where a text occurs, its beginning occurs. */
  lemma OccursPrefix(s: string, pat: string, short: string, i: int)
    requires short <= pat && OccursAt(s, pat, i)
    ensures OccursAt(s, short, i)
  {
    assert s[i..i + |short|] == s[i..i + |pat|][..|short|];
  }

  lemma OccursChar(s: string, c: char, i: nat)
    ensures OccursAt(s, [c], i) <==> i < |s| && s[i] == c
  {
    if i < |s| {
      assert s[i..i + 1] == [s[i]];
    }
  }

  /** Occurrences inside a part are occurrences in the whole, shifted. */
  lemma OccursShift(s: string, a: int, b: int, pat: string, i: int)
    requires 0 <= a <= b <= |s|
    requires 0 <= i
    ensures OccursAt(s[a..b], pat, i) <==> a + i + |pat| <= b && OccursAt(s, pat, a + i)
  {
    var n := i + |pat|;
    if a + n <= b {
      assert |s[a..b][i..n]| == |s[a + i..a + n]|;
      assert forall k :: 0 <= k < |pat| ==> s[a..b][i..n][k] == s[a + i..a + n][k];
      assert s[a..b][i..n] == s[a + i..a + n];
    }
  }

  /** A separator that neither prefix contains splits equal strings at the same place. */
  lemma SplitUnique(a: string, b: string, sep: char, s: string, t: string)
    requires sep !in a && sep !in b
    requires a + [sep] + s == b + [sep] + t
    ensures a == b && s == t
  {
    var u := a + [sep] + s;
    assert u[|a|] == sep && u[|b|] == sep;
    assert a == u[..|a|] && b == u[..|b|];
    assert s == u[|a| + 1..] && t == u[|b| + 1..];
  }

  /**
   get_param_value (utils.c): the text between the field name plus two characters and the
   next CRLF, if the name occurs and the text and its NUL fit `size` bytes. Where the name
   ends so late that the source would step over the terminator, there is no value.
   */
  function ParamValue(httpParam: string, name: string, size: int): (r: Option<string>)
    ensures r.Some? ==> |r.value| + 1 < size
  {
    match Find(httpParam, name)
    case None => None
    case Some(at) =>
      var from := at + |name| + 2;
      if from > |httpParam| then None
      else match Find(httpParam[from..], CRLF)
        case None => None
        case Some(n) => if n + 1 < size then Some(httpParam[from..from + n]) else None
  }

  /**
   A field laid out as `name: value` CRLF, whose name does not occur earlier, is read back, exactly
   if it fits.
   */
  lemma ParamLayout(httpParam: string, before: string, name: string, value: string, after: string, size: int)
    requires name != [] && Find(httpParam, name) == Some(|before|)
    requires httpParam == before + name + ": " + value + CRLF + after
    requires CR !in value
    ensures ParamValue(httpParam, name, size) == if |value| + 1 < size then Some(value) else None
  {
    var from := |before| + |name| + 2;
    var rest := httpParam[from..];
    assert rest == value + CRLF + after by {
      assert httpParam == (before + name + ": ") + (value + CRLF + after);
      assert |before + name + ": "| == from;
    }
    assert OccursAt(rest, CRLF, |value|) by {
      assert rest[|value|..|value| + 2] == CRLF;
    }
    forall j | 0 <= j < |value|
      ensures !OccursAt(rest, CRLF, j)
    {
      assert rest[j] == value[j];
      Mismatch(rest, CRLF, j, 0);
    }
    FindIs(rest, CRLF, |value|);
    assert httpParam[from..from + |value|] == rest[..|value|] == value;
  }
}
