/** Header fields written out line by line, and how get_param_value reads them back (utils.c). */
module Fields {
  import opened CString

  function Joined(lines: seq<string>): string {
    if lines == [] then [] else lines[0] + (CRLF + Joined(lines[1..]))
  }

  ghost predicate Free(s: string, pat: string) {
    forall i :: !OccursAt(s, pat, i)
  }

  /** A line is not empty and holds no line break. */
  predicate CleanLine(l: string) {
    l != [] && CR !in l && LF !in l && NUL !in l
  }

  lemma JoinedCons(l: string, rest: seq<string>)
    ensures Joined([l] + rest) == l + (CRLF + Joined(rest))
  {
    assert ([l] + rest)[1..] == rest;
  }

  /** A text without line breaks that occurs in no line does not occur in the lines joined. */
  lemma {:induction false} JoinedFree(lines: seq<string>, pat: string)
    requires pat != [] && CR !in pat && LF !in pat
    requires forall l :: l in lines ==> Free(l, pat)
    ensures Free(Joined(lines), pat)
    decreases |lines|
  {
    if lines != [] {
      var l, tail, s := lines[0], Joined(lines[1..]), Joined(lines);
      assert l in lines && Free(l, pat);
      JoinedFree(lines[1..], pat);
      forall i: nat
        ensures !OccursAt(s, pat, i)
      {
        if i + |pat| <= |l| {
          assert s[0..|l|] == l;
          OccursShift(s, 0, |l|, pat, i);
        } else if i <= |l| {
          Mismatch(s, pat, i, |l| - i);
        } else if i == |l| + 1 {
          Mismatch(s, pat, i, 0);
        } else {
          assert s[|l| + 2..|s|] == tail;
          OccursShift(s, |l| + 2, |s|, pat, i - |l| - 2);
        }
      }
    }
  }

  lemma {:induction false} JoinedAppend(a: seq<string>, b: seq<string>)
    ensures Joined(a + b) == Joined(a) + Joined(b)
    ensures a != [] ==> Joined(a) != [] && Joined(a)[|Joined(a)| - 1] == LF
    decreases |a|
  {
    if a == [] {
      assert a + b == b;
    } else {
      assert (a + b)[1..] == a[1..] + b;
      JoinedAppend(a[1..], b);
      AppendAssoc(CRLF, Joined(a[1..]), Joined(b));
      AppendAssoc(a[0], CRLF + Joined(a[1..]), Joined(b));
    }
  }

  /** In front of the first line that contains it, a text without line breaks does not begin. */
  lemma FirstInJoined(lines: seq<string>, pat: string, tail: string)
    requires lines != [] && pat != [] && CR !in pat && LF !in pat && pat <= tail
    requires forall l :: l in lines ==> Free(l, pat)
    ensures Find(Joined(lines) + tail, pat) == Some(|Joined(lines)|)
  {
    var before := Joined(lines);
    var s := before + tail;
    JoinedFree(lines, pat);
    JoinedAppend(lines, []);
    forall i | 0 <= i < |before|
      ensures !OccursAt(s, pat, i)
    {
      if i + |pat| <= |before| {
        assert s[0..|before|] == before;
        OccursShift(s, 0, |before|, pat, i);
      } else {
        Mismatch(s, pat, i, |before| - 1 - i);
      }
    }
    assert s[|before|..|before| + |pat|] == tail[..|pat|];
    FindIs(s, pat, |before|);
  }

  function Field(name: string, value: string): string {
    name + ": " + value
  }

  /** A text of lines, one field, and more. */
  function WithField(before: seq<string>, name: string, value: string, after: string): string {
    Joined(before) + (Field(name, value) + (CRLF + after))
  }

  /** Lines in which a name does not occur. */
  ghost predicate Without(lines: seq<string>, name: string) {
    forall l :: l in lines ==> Free(l, name)
  }

  /** A name that a header field can have. */
  predicate FieldName(name: string) {
    name != [] && CR !in name && LF !in name
  }

  /** The first field of its name is read back, exactly if it fits the caller's buffer with its NUL. */
  lemma FieldRead(before: seq<string>, name: string, value: string, after: string, size: int)
    requires before != [] && FieldName(name) && Without(before, name) && CR !in value
    ensures ParamValue(WithField(before, name, value, after), name, size)
         == if |value| + 1 < size then Some(value) else None
  {
    var hp := WithField(before, name, value, after);
    var tail := Field(name, value) + (CRLF + after);
    assert tail[..|name|] == name;
    FirstInJoined(before, name, tail);
    assert hp == Joined(before) + name + ": " + value + CRLF + after;
    ParamLayout(hp, Joined(before), name, value, after, size);
  }

  /** A field whose name occurs nowhere has no value. */
  lemma FieldMissing(hp: string, name: string, size: int)
    requires Free(hp, name)
    ensures ParamValue(hp, name, size) == None
  {
    FindNone(hp, name);
  }

  /** A field between other lines. */
  lemma FieldBetween(before: seq<string>, name: string, value: string, after: seq<string>)
    ensures Joined(before + ([Field(name, value)] + after)) == WithField(before, name, value, Joined(after))
  {
    JoinedAppend(before, [Field(name, value)] + after);
    JoinedCons(Field(name, value), after);
  }
}
