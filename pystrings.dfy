/** A model of the few Python string operations the export scripts rely on:
    `t in s`, `s.split(sep)`, `sep.join(parts)`,
    `s.replace(pat, repl)`, list indexing, and `os.path.basename` in its
    POSIX form (the text after the last `/`).  Strings are `seq<char>`.
    `Find` is the left-to-right substring search behind `in` and `split`;
    the scripts do not call `str.find` themselves. */
module PyStrings {

  /** The exceptions Python raises on the paths the scripts can take. */
  datatype PyError =
    | EmptySeparator   // ValueError: `s.split("")`
    | IndexOutOfRange  // IndexError: a list index past the end

  datatype Option<T> = None | Some(value: T)

  datatype Result<T> = Ok(value: T) | Err(error: PyError)

  /** `a` is a suffix of `b` (`a <= b` is Dafny's prefix test). */
  predicate IsSuffix(a: string, b: string) {
    |a| <= |b| && b[|b| - |a|..] == a
  }

  /** `t` occurs in `s` starting at index `i`. */
  predicate OccursAt(s: string, t: string, i: int) {
    0 <= i && i + |t| <= |s| && s[i..i + |t|] == t
  }

  /** `i` is the first index at which `t` occurs in `s`. */
  predicate FirstOccurrence(s: string, t: string, i: int) {
    OccursAt(s, t, i) && forall j :: 0 <= j < i ==> !OccursAt(s, t, j)
  }

  /** The substring search behind `in` and `split`: the first index at or
      after `k` at which `t` occurs, or `None` when there is none. */
  function FindFrom(s: string, t: string, k: nat): (r: Option<nat>)
    requires k <= |s|
    ensures r.Some? ==> k <= r.value && OccursAt(s, t, r.value)
    ensures r.Some? ==> forall j :: k <= j < r.value ==> !OccursAt(s, t, j)
    ensures r.None? ==> forall j :: k <= j ==> !OccursAt(s, t, j)
    decreases |s| - k
  {
    if |s| < k + |t| then None
    else if s[k..k + |t|] == t then Some(k)
    else if k == |s| then None
    else FindFrom(s, t, k + 1)
  }

  /** The first occurrence of `t` in `s`. */
  function Find(s: string, t: string): (r: Option<nat>)
    ensures r.Some? ==> FirstOccurrence(s, t, r.value)
    ensures r.None? ==> forall j :: !OccursAt(s, t, j)
  {
    FindFrom(s, t, 0)
  }

  /** Find's result is determined by the first occurrence. */
  lemma FindFirst(s: string, t: string, i: int)
    requires FirstOccurrence(s, t, i)
    ensures Find(s, t) == Some(i)
  {
  }

  /** Python's `t in s`. */
  function Contains(s: string, t: string): (r: bool)
    ensures t == [] ==> r
    ensures r ==> |t| <= |s|
  {
    Find(s, t).Some?
  }

  /** `t in s` holds exactly when `t` occurs somewhere in `s`. */
  lemma ContainsOccurs(s: string, t: string)
    ensures Contains(s, t) <==> exists j :: OccursAt(s, t, j)
  {
    var f := Find(s, t);
    assert f.Some? ==> OccursAt(s, t, f.value);
  }

  /** Python's `s.split(sep)` for a non-empty `sep`: the pieces between the
      non-overlapping occurrences of `sep`, found from the left. */
  function SplitOn(s: string, sep: string): (parts: seq<string>)
    requires sep != []
    ensures |parts| >= 1
    decreases |s|
  {
    match Find(s, sep)
    case None => [s]
    case Some(i) => [s[..i]] + SplitOn(s[i + |sep|..], sep)
  }

  /** Python's `sep.join(parts)`. */
  function Join(sep: string, parts: seq<string>): string
    decreases |parts|
  {
    if |parts| == 0 then ""
    else if |parts| == 1 then parts[0]
    else parts[0] + sep + Join(sep, parts[1..])
  }

  /** Python's `s.replace(pat, repl)`.  An empty `pat` matches before every
      character and at the end. */
  function Replace(s: string, pat: string, repl: string): (r: string)
    ensures pat != [] && Find(s, pat).None? ==> r == s
  {
    if pat == [] then InsertAround(s, repl) else Join(repl, SplitOn(s, pat))
  }

  function InsertAround(s: string, repl: string): string
    decreases |s|
  {
    if s == [] then repl else repl + [s[0]] + InsertAround(s[1..], repl)
  }

  /** Python's list indexing `parts[k]` for `k >= 0`. */
  function Index(parts: seq<string>, k: nat): (r: Result<string>)
    ensures r.Err? <==> |parts| <= k
    ensures r.Err? ==> r.error == IndexOutOfRange
    ensures r.Ok? ==> r.value == parts[k]
  {
    if k < |parts| then Ok(parts[k]) else Err(IndexOutOfRange)
  }

  // ---------------------------------------------------------------------
  // unfolding steps

  lemma SplitOnFound(s: string, sep: string, i: nat)
    requires sep != [] && Find(s, sep) == Some(i)
    ensures SplitOn(s, sep) == [s[..i]] + SplitOn(s[i + |sep|..], sep)
  {
  }

  lemma JoinCons(sep: string, x: string, tail: seq<string>)
    requires tail != []
    ensures Join(sep, [x] + tail) == x + sep + Join(sep, tail)
  {
    assert ([x] + tail)[1..] == tail;
  }

  // ---------------------------------------------------------------------
  // split and join are inverse

  /** Joining the pieces of a split with the same separator gives back the
      original string. */
  lemma {:induction false} JoinSplitOn(s: string, sep: string)
    requires sep != []
    ensures Join(sep, SplitOn(s, sep)) == s
    decreases |s|
  {
    match Find(s, sep)
    case None =>
    case Some(i) =>
      var rest := s[i + |sep|..];
      var tail := SplitOn(rest, sep);
      JoinSplitOn(rest, sep);
      var parts := [s[..i]] + tail;
      assert parts[1..] == tail;
      assert Join(sep, parts) == s[..i] + sep + rest;
      assert s == s[..i] + s[i..i + |sep|] + rest;
  }

  /** Joining a concatenation of two non-empty lists puts one separator
      between the two joins. */
  lemma {:induction false} JoinAppend(sep: string, a: seq<string>, b: seq<string>)
    requires a != [] && b != []
    ensures Join(sep, a + b) == Join(sep, a) + sep + Join(sep, b)
    decreases |a|
  {
    assert (a + b)[0] == a[0];
    if |a| == 1 {
      assert (a + b)[1..] == b;
    } else {
      assert (a + b)[1..] == a[1..] + b;
      JoinAppend(sep, a[1..], b);
    }
  }

  /** Splitting the join of the first `k` pieces of a split gives exactly
      those `k` pieces back. */
  lemma {:induction false} SplitOnJoinPrefix(s: string, sep: string, k: nat)
    requires sep != []
    requires 1 <= k <= |SplitOn(s, sep)|
    ensures SplitOn(Join(sep, SplitOn(s, sep)[..k]), sep) == SplitOn(s, sep)[..k]
    decreases |s|
  {
    if k == 1 {
      SplitOnJoinFirst(s, sep);
    } else {
      var i := SplitOnMany(s, sep);
      SplitOnJoinPrefix(s[i + |sep|..], sep, k - 1);
      SplitOnJoinPrefixStep(s, sep, i, k);
    }
  }

  /** A split into two pieces or more has found `sep`, and the text after
      it has one piece fewer. */
  lemma SplitOnMany(s: string, sep: string) returns (i: nat)
    requires sep != [] && |SplitOn(s, sep)| >= 2
    ensures Find(s, sep) == Some(i) && i + |sep| <= |s|
    ensures |SplitOn(s[i + |sep|..], sep)| == |SplitOn(s, sep)| - 1
  {
    var f := Find(s, sep);
    assert f.Some?;
    i := f.value;
    SplitOnFound(s, sep, i);
  }

  /** The inductive step of `SplitOnJoinPrefix`: from the pieces after the
      first `sep` to the pieces of the whole string. */
  lemma SplitOnJoinPrefixStep(s: string, sep: string, i: nat, k: nat)
    requires sep != [] && Find(s, sep) == Some(i)
    requires 2 <= k <= |SplitOn(s, sep)|
    requires var tail := SplitOn(s[i + |sep|..], sep);
      k - 1 <= |tail| && SplitOn(Join(sep, tail[..k - 1]), sep) == tail[..k - 1]
    ensures SplitOn(Join(sep, SplitOn(s, sep)[..k]), sep) == SplitOn(s, sep)[..k]
  {
    var parts := SplitOn(s, sep);
    var tail := SplitOn(s[i + |sep|..], sep);
    var x := Join(sep, tail[..k - 1]);
    JoinPrefixStep(s, sep, i, k);
    SplitOnAfterFirst(s, sep, i, x);
    SplitOnFound(s, sep, i);
    assert parts[..k] == [s[..i]] + tail[..k - 1];
  }

  /** The first piece of a split splits into itself alone. */
  lemma SplitOnJoinFirst(s: string, sep: string)
    requires sep != []
    ensures SplitOn(Join(sep, SplitOn(s, sep)[..1]), sep) == SplitOn(s, sep)[..1]
  {
    var parts := SplitOn(s, sep);
    var f := Find(s, sep);
    if f.None? {
      assert parts == [s];
      assert parts[..1] == [s];
    } else {
      var i := f.value;
      SplitOnFound(s, sep, i);
      assert parts[..1] == [s[..i]];
      NoOccurrenceInPrefix(s, sep, i);
    }
  }

  lemma JoinPrefixStep(s: string, sep: string, i: nat, k: nat)
    requires sep != [] && Find(s, sep) == Some(i)
    requires 2 <= k <= |SplitOn(s, sep)|
    ensures Join(sep, SplitOn(s, sep)[..k])
         == s[..i] + sep + Join(sep, SplitOn(s[i + |sep|..], sep)[..k - 1])
  {
    var tail := SplitOn(s[i + |sep|..], sep);
    SplitOnFound(s, sep, i);
    assert SplitOn(s, sep)[..k] == [s[..i]] + tail[..k - 1];
    JoinCons(sep, s[..i], tail[..k - 1]);
  }

  /** Putting the text before the first `sep` back in front of `sep` and
      any `x` gives a string that splits into that text and the pieces of `x`. */
  lemma SplitOnAfterFirst(s: string, sep: string, i: nat, x: string)
    requires sep != [] && FirstOccurrence(s, sep, i)
    ensures SplitOn(s[..i] + sep + x, sep) == [s[..i]] + SplitOn(x, sep)
  {
    var t := s[..i] + sep + x;
    assert t[..i + |sep|] == s[..i + |sep|] by {
      assert s[..i + |sep|] == s[..i] + s[i..i + |sep|];
    }
    FirstOccurrenceKept(s, t, sep, i);
    SplitOnFound(t, sep, i);
    assert t[..i] == s[..i];
    assert t[i + |sep|..] == x;
  }

  /** The text before the first occurrence of `sep` contains no `sep`. */
  lemma NoOccurrenceInPrefix(s: string, sep: string, i: int)
    requires sep != []
    requires FirstOccurrence(s, sep, i)
    ensures Find(s[..i], sep) == None
  {
    forall j | OccursAt(s[..i], sep, j) ensures false {
      assert s[..i][j..j + |sep|] == s[j..j + |sep|];
      assert OccursAt(s, sep, j);
    }
  }

  /** Two strings that agree up to the end of the first occurrence of `sep`
      in one of them have their first occurrence at the same place. */
  lemma FirstOccurrenceKept(s: string, t: string, sep: string, i: int)
    requires FirstOccurrence(s, sep, i)
    requires i + |sep| <= |t| && t[..i + |sep|] == s[..i + |sep|]
    ensures Find(t, sep) == Some(i)
  {
    forall j | 0 <= j <= i
      ensures OccursAt(t, sep, j) <==> OccursAt(s, sep, j)
    {
      assert t[j..j + |sep|] == t[..i + |sep|][j..j + |sep|];
      assert s[j..j + |sep|] == s[..i + |sep|][j..j + |sep|];
    }
    FindFirst(t, sep, i);
  }

  // ---------------------------------------------------------------------
  // fields of a string split on one character

  lemma SingleCharOccurrences(s: string, c: char)
    ensures forall k :: OccursAt(s, [c], k) <==> 0 <= k < |s| && s[k] == c
  {
    forall k | 0 <= k < |s| ensures OccursAt(s, [c], k) <==> s[k] == c {
      assert s[k..k + 1] == [s[k]];
    }
  }

  lemma NotFoundChar(s: string, c: char)
    requires Find(s, [c]) == None
    ensures c !in s
  {
    if c in s {
      var k :| 0 <= k < |s| && s[k] == c;
      assert s[k..k + 1] == [c];
      assert OccursAt(s, [c], k);
    }
  }

  /** `r` is the text of `s` before its first `c`. */
  predicate IsFirstField(r: string, s: string, c: char) {
    r <= s && c !in r && (r == s || (|r| < |s| && s[|r|] == c))
  }

  /** `s.split(c)[0]`: the text before the first `c`, or all of `s` when
      there is no `c`. */
  function FirstField(s: string, c: char): (r: string)
    ensures IsFirstField(r, s, c)
  {
    SingleCharOccurrences(s, c);
    SplitOn(s, [c])[0]
  }

  /** `r` is the text of `s` after its last `c`. */
  predicate IsLastField(r: string, s: string, c: char) {
    IsSuffix(r, s) && c !in r && (r == s || (|r| < |s| && s[|s| - |r| - 1] == c))
  }

  /** `s.split(c)[-1]`: the text after the last `c`, or all of `s` when
      there is no `c`. */
  function LastField(s: string, c: char): (r: string)
    ensures IsLastField(r, s, c)
  {
    LastPiece(s, c);
    var parts := SplitOn(s, [c]);
    parts[|parts| - 1]
  }

  lemma {:induction false} LastPiece(s: string, c: char)
    ensures IsLastField(SplitOn(s, [c])[|SplitOn(s, [c])| - 1], s, c)
    decreases |s|
  {
    match Find(s, [c])
    case None =>
      NotFoundChar(s, c);
      assert SplitOn(s, [c]) == [s];
      assert s[|s| - |s|..] == s;
    case Some(i) =>
      assert s[i] == s[i..i + 1][0] == c;
      var rest := s[i + 1..];
      LastPiece(rest, c);
      var tail := SplitOn(rest, [c]);
      SplitOnFound(s, [c], i);
      var r := tail[|tail| - 1];
      assert SplitOn(s, [c])[|SplitOn(s, [c])| - 1] == r;
      LastFieldOfRest(s, i, r, c);
  }

  lemma LastFieldOfRest(s: string, i: nat, r: string, c: char)
    requires i < |s| && s[i] == c
    requires IsLastField(r, s[i + 1..], c)
    ensures IsLastField(r, s, c)
  {
    var rest := s[i + 1..];
    assert s[|s| - |r|..] == rest[|rest| - |r|..];
    if r == rest {
      assert s[|s| - |r| - 1] == s[i];
    } else {
      assert s[|s| - |r| - 1] == rest[|rest| - |r| - 1];
    }
  }

  /** `os.path.basename(path)` on POSIX: the text after the last `/`. */
  function Basename(path: string): (r: string)
    ensures IsSuffix(r, path) && '/' !in r
    ensures r == path || path[|path| - |r| - 1] == '/'
  {
    LastField(path, '/')
  }

  /** The first occurrence of a one-character string is the first
      position holding that character. */
  lemma FirstCharOccurrence(s: string, c: char, i: int)
    requires FirstOccurrence(s, [c], i)
    ensures 0 <= i < |s| && s[i] == c && c !in s[..i]
  {
    assert s[i..i + 1][0] == s[i];
    if c in s[..i] {
      var k :| 0 <= k < i && s[..i][k] == c;
      assert s[k..k + 1] == [c];
      assert OccursAt(s, [c], k);
    }
  }

  /** A string splits on `c` into at least two pieces exactly when it
      contains a `c`; the second piece is then the first field of the
      text after the first `c`. */
  lemma SecondPiece(s: string, c: char)
    ensures |SplitOn(s, [c])| >= 2 <==> c in s
    ensures c in s ==> exists i :: 0 <= i < |s| && s[i] == c && c !in s[..i]
                                   && SplitOn(s, [c])[1] == FirstField(s[i + 1..], c)
  {
    var f := Find(s, [c]);
    if f.None? {
      NotFoundChar(s, c);
      assert SplitOn(s, [c]) == [s];
    } else {
      var i := f.value;
      FirstCharOccurrence(s, c, i);
      SplitOnFound(s, [c], i);
      assert SplitOn(s, [c])[1] == SplitOn(s[i + 1..], [c])[0];
    }
  }

  // ---------------------------------------------------------------------
  // locating single characters

  /** The first position holding `c` is where the search for `[c]` finds it. */
  lemma FindChar(s: string, c: char, i: nat)
    requires i < |s| && s[i] == c && forall k :: 0 <= k < i ==> s[k] != c
    ensures Find(s, [c]) == Some(i)
  {
    SingleCharOccurrences(s, c);
    FindFirst(s, [c], i);
  }

  /** A string without `c` has no occurrence of it. */
  lemma FindCharAbsent(s: string, c: char)
    requires forall k :: 0 <= k < |s| ==> s[k] != c
    ensures Find(s, [c]) == None
  {
    SingleCharOccurrences(s, c);
  }

  /** `t` cannot start before `i` where the `k`-th character of `t` is
      missing from the positions it would fall on. */
  lemma NoOccurrenceBefore(s: string, t: string, k: nat, i: int)
    requires k < |t|
    requires forall j :: k <= j < i + k && j < |s| ==> s[j] != t[k]
    ensures forall j :: 0 <= j < i ==> !OccursAt(s, t, j)
  {
    forall j | 0 <= j < i && j + |t| <= |s| ensures !OccursAt(s, t, j) {
      assert s[j..j + |t|][k] == s[j + k];
    }
  }

  /** A string lacking one of the characters of `t` does not contain `t`. */
  lemma AbsentChar(s: string, t: string, k: nat)
    requires k < |t| && t[k] !in s
    ensures !Contains(s, t)
  {
    NoOccurrenceBefore(s, t, k, |s| + 1);
    ContainsOccurs(s, t);
  }

  /** The last field is the text after the last position holding `c`. */
  lemma LastFieldAt(s: string, c: char, i: int)
    requires 0 <= i < |s| && s[i] == c
    requires forall k :: i < k < |s| ==> s[k] != c
    ensures LastField(s, c) == s[i + 1..]
  {
    var r := LastField(s, c);
    forall k | |s| - |r| <= k < |s| ensures s[k] != c {
      assert s[k] == r[k - (|s| - |r|)];
    }
  }

  /** The first field is the text before the first position holding `c`. */
  lemma FirstFieldAt(s: string, c: char, i: int)
    requires 0 <= i < |s| && s[i] == c
    requires forall k :: 0 <= k < i ==> s[k] != c
    ensures FirstField(s, c) == s[..i]
  {
    var r := FirstField(s, c);
    forall k | 0 <= k < |r| ensures s[k] != c {
      assert s[k] == r[k];
    }
  }

  // ---------------------------------------------------------------------
  // replace

  /** Replacing the empty string by the empty string changes nothing. */
  lemma {:induction false} ReplaceEmptyByEmpty(s: string)
    ensures Replace(s, "", "") == s
    decreases |s|
  {
    if s != [] {
      ReplaceEmptyByEmpty(s[1..]);
      assert s == [s[0]] + s[1..];
    }
  }

  /** Removing a pattern that does not occur changes nothing. */
  lemma RemoveAbsent(s: string, pat: string)
    requires pat != []
    requires forall j :: !OccursAt(s, pat, j)
    ensures Replace(s, pat, "") == s
  {
  }

  /** `s.replace(pat, "")` drops the first occurrence of `pat` and goes on
      removing from the text after it. */
  lemma RemoveFirst(s: string, pat: string, i: int)
    requires pat != []
    requires FirstOccurrence(s, pat, i)
    ensures Replace(s, pat, "") == s[..i] + Replace(s[i + |pat|..], pat, "")
  {
    FindFirst(s, pat, i);
    var tail := SplitOn(s[i + |pat|..], pat);
    SplitOnFound(s, pat, i);
    JoinCons("", s[..i], tail);
  }

  /** Removing a pattern never lengthens a string. */
  lemma {:induction false} RemoveShrinks(s: string, pat: string)
    requires pat != []
    ensures |Replace(s, pat, "")| <= |s|
    decreases |s|
  {
    var f := Find(s, pat);
    if f.Some? {
      var i := f.value;
      RemoveFirst(s, pat, i);
      RemoveShrinks(s[i + |pat|..], pat);
    }
  }

  /** Replacing one character by another works character by character. */
  lemma {:induction false} ReplaceChar(s: string, a: char, b: char)
    ensures |Replace(s, [a], [b])| == |s|
    ensures forall k :: 0 <= k < |s| ==>
      Replace(s, [a], [b])[k] == if s[k] == a then b else s[k]
    decreases |s|
  {
    SingleCharOccurrences(s, a);
    match Find(s, [a])
    case None =>
    case Some(i) =>
      var rest := s[i + 1..];
      ReplaceChar(rest, a, b);
      var tail := SplitOn(rest, [a]);
      assert SplitOn(s, [a]) == [s[..i]] + tail;
      assert ([s[..i]] + tail)[1..] == tail;
      var r := Replace(s, [a], [b]);
      assert r == s[..i] + [b] + Replace(rest, [a], [b]);
      forall k | 0 <= k < |s| ensures r[k] == if s[k] == a then b else s[k] {
        if k > i {
          assert r[k] == Replace(rest, [a], [b])[k - i - 1];
          assert rest[k - i - 1] == s[k];
        }
      }
  }
}
