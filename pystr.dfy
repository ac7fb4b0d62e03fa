/**
 * The parts of Python's `str` semantics that the pipeline relies on:
 * `isspace` (which is also what the regular expression `\s` matches),
 * `strip`, `lower` and `title`, `split` with an explicit separator,
 * `join`, and the slice `p[1:-1]`.
 * Case mapping is modelled over ASCII letters; every other character is
 * treated as uncased and left as it is.
 */
module PyStr {
  import opened Wrappers
  import opened Seqs

  // ---------------------------------------------------------------- whitespace

  /** Python's `str.isspace` for one character; `re`'s `\s` matches the same set. */
  predicate IsSpace(c: char)
  {
    || '\t' <= c <= '\r'
    || '\U{001C}' <= c <= ' '
    || c == '\U{0085}' || c == '\U{00A0}' || c == '\U{1680}'
    || '\U{2000}' <= c <= '\U{200A}'
    || c == '\U{2028}' || c == '\U{2029}' || c == '\U{202F}' || c == '\U{205F}'
    || c == '\U{3000}'
  }

  predicate IsNotSpace(c: char)
  {
    !IsSpace(c)
  }

  /** `re.sub(r'\s+', '', s)`: every whitespace character deleted. */
  function RemoveWhitespace(s: string): (r: string)
    ensures forall i :: 0 <= i < |r| ==> !IsSpace(r[i])
  {
    FilterMembers(s, IsNotSpace);
    Filter(s, IsNotSpace)
  }

  /** `s.lstrip()`: the suffix of `s` left after dropping leading whitespace. */
  function StripStart(s: string): (r: string)
    ensures |r| <= |s| && r == s[|s| - |r|..]
    ensures forall k :: 0 <= k < |s| - |r| ==> IsSpace(s[k])
    ensures r == [] || !IsSpace(r[0])
  {
    if s != [] && IsSpace(s[0]) then StripStart(s[1..]) else s
  }

  /** `s.rstrip()`: the prefix of `s` left after dropping trailing whitespace. */
  function StripEnd(s: string): (r: string)
    ensures |r| <= |s| && r == s[..|r|]
    ensures forall k :: |r| <= k < |s| ==> IsSpace(s[k])
    ensures r == [] || !IsSpace(r[|r| - 1])
  {
    if s != [] && IsSpace(s[|s| - 1]) then StripEnd(s[..|s| - 1]) else s
  }

  /** `s.strip()`. */
  function Strip(s: string): (r: string)
    ensures r == [] || (!IsSpace(r[0]) && !IsSpace(r[|r| - 1]))
  {
    StripEnd(StripStart(s))
  }

  lemma StripStartInvisible(s: string)
    ensures RemoveWhitespace(StripStart(s)) == RemoveWhitespace(s)
  {
    var t := StripStart(s);
    var lead := s[..|s| - |t|];
    assert s == lead + t;
    FilterNone(lead, IsNotSpace);
    FilterAppend(lead, t, IsNotSpace);
  }

  lemma StripEndInvisible(s: string)
    ensures RemoveWhitespace(StripEnd(s)) == RemoveWhitespace(s)
  {
    var t := StripEnd(s);
    var trail := s[|t|..];
    assert s == t + trail;
    FilterNone(trail, IsNotSpace);
    FilterAppend(t, trail, IsNotSpace);
  }

  /** Stripping only removes whitespace: it is invisible once all whitespace is deleted. */
  lemma RemoveWhitespaceAfterStrip(s: string)
    ensures RemoveWhitespace(Strip(s)) == RemoveWhitespace(s)
  {
    StripStartInvisible(s);
    StripEndInvisible(StripStart(s));
  }

  // ---------------------------------------------------------------- case mapping

  predicate IsUpper(c: char)
  {
    'A' <= c <= 'Z'
  }

  predicate IsLower(c: char)
  {
    'a' <= c <= 'z'
  }

  /** Python's "cased" characters, over ASCII: the letters. */
  predicate IsCased(c: char)
  {
    IsUpper(c) || IsLower(c)
  }

  function LowerChar(c: char): (r: char)
    ensures !IsUpper(r) && IsCased(r) == IsCased(c)
  {
    if IsUpper(c) then (c as int + 32) as char else c
  }

  function UpperChar(c: char): (r: char)
    ensures !IsLower(r) && IsCased(r) == IsCased(c)
  {
    if IsLower(c) then (c as int - 32) as char else c
  }

  /** `s.lower()`. */
  function Lower(s: string): (r: string)
    ensures |r| == |s|
    ensures forall k :: 0 <= k < |s| ==> r[k] == LowerChar(s[k])
  {
    seq(|s|, k requires 0 <= k < |s| => LowerChar(s[k]))
  }

  /**
   * `s.title()`: a character that follows a cased character is lower-cased,
   * every other character is upper-cased.
   */
  function Title(s: string): (r: string)
    ensures |r| == |s|
  {
    seq(|s|, k requires 0 <= k < |s| =>
      if k > 0 && IsCased(s[k - 1]) then LowerChar(s[k]) else UpperChar(s[k]))
  }

  /** Lower-casing a lower-cased string changes nothing. */
  lemma LowerIdempotent(s: string)
    ensures Lower(Lower(s)) == Lower(s)
  {
  }

  /** Title-casing loses no information that lower-casing keeps. */
  lemma LowerOfTitle(s: string)
    ensures Lower(Title(s)) == Lower(s)
  {
  }

  /** Title-casing a title-cased string changes nothing. */
  lemma TitleIdempotent(s: string)
    ensures Title(Title(s)) == Title(s)
  {
  }

  /** The title-cased form depends only on the lower-cased form. */
  lemma TitleIgnoresCase(s: string, t: string)
    requires Lower(s) == Lower(t)
    ensures Title(s) == Title(t)
  {
    forall k | 0 <= k < |s|
      ensures Title(s)[k] == Title(t)[k]
    {
      SameLowerChar(s[k], t[k]);
      if k > 0 {
        SameLowerChar(s[k - 1], t[k - 1]);
      }
    }
  }

  /** Two characters with the same lower-case form agree in everything title-casing looks at. */
  lemma SameLowerChar(a: char, b: char)
    requires LowerChar(a) == LowerChar(b)
    ensures UpperChar(a) == UpperChar(b) && IsCased(a) == IsCased(b)
  {
  }

  // ---------------------------------------------------------------- split and join

  /** `sep` occurs in `s` starting at index `j`. */
  predicate OccursAt(s: string, sep: string, j: int)
  {
    0 <= j && j + |sep| <= |s| && s[j..j + |sep|] == sep
  }

  /** `sep` does not occur anywhere in `s`. */
  predicate Free(s: string, sep: string)
  {
    forall j :: 0 <= j <= |s| ==> !OccursAt(s, sep, j)
  }

  lemma OccursShift(s: string, sep: string)
    requires s != []
    ensures forall j :: j >= 1 ==> (OccursAt(s, sep, j) <==> OccursAt(s[1..], sep, j - 1))
  {
    forall j | j >= 1
      ensures OccursAt(s, sep, j) <==> OccursAt(s[1..], sep, j - 1)
    {
      if j + |sep| <= |s| {
        assert s[1..][j - 1..j - 1 + |sep|] == s[j..j + |sep|];
      }
    }
  }

  /** `s.find(sep)`: the first index at which `sep` occurs, if any. */
  function Find(s: string, sep: string): (r: Option<nat>)
    requires sep != []
    ensures r.Some? ==> OccursAt(s, sep, r.value)
    decreases |s|
  {
    if |s| < |sep| then None
    else if s[..|sep|] == sep then Some(0)
    else
      match Find(s[1..], sep)
      case None => None
      case Some(i) =>
        OccursShift(s, sep);
        Some(i + 1)
  }

  /** `Find` gives the first occurrence, and finds nothing exactly when there is none. */
  lemma {:induction false} FindFirst(s: string, sep: string)
    requires sep != []
    ensures Find(s, sep).Some? ==> forall j :: j < Find(s, sep).value ==> !OccursAt(s, sep, j)
    ensures Find(s, sep).None? <==> Free(s, sep)
    decreases |s|
  {
    if |s| >= |sep| && s[..|sep|] != sep {
      FindFirst(s[1..], sep);
      OccursShift(s, sep);
      assert !OccursAt(s, sep, 0) by { assert s[0..|sep|] == s[..|sep|]; }
    } else if |s| >= |sep| {
      assert OccursAt(s, sep, 0) by { assert s[0..|sep|] == s[..|sep|]; }
    }
  }

  /** `s.split(sep)` for a non-empty separator. */
  function Split(s: string, sep: string): (r: seq<string>)
    requires sep != []
    ensures |r| >= 1
    decreases |s|
  {
    match Find(s, sep)
    case None => [s]
    case Some(i) => [s[..i]] + Split(s[i + |sep|..], sep)
  }

  /** A one-character separator occurs exactly where that character stands. */
  lemma FreeOfChar(s: string, d: char)
    requires forall k :: 0 <= k < |s| ==> s[k] != d
    ensures Free(s, [d])
  {
    forall j | 0 <= j <= |s| ensures !OccursAt(s, [d], j) {
      if j < |s| {
        assert s[j..j + 1] == [s[j]];
      }
    }
  }

  /** Splitting on a one-character separator cuts at its first occurrence. */
  lemma SplitCharFirst(a: string, d: char, b: string)
    requires forall k :: 0 <= k < |a| ==> a[k] != d
    ensures Split(a + [d] + b, [d]) == [a] + Split(b, [d])
  {
    var s := a + [d] + b;
    FindFirst(s, [d]);
    assert OccursAt(s, [d], |a|) by { assert s[|a|..|a| + 1] == [d]; }
    forall j | 0 <= j < |a| ensures !OccursAt(s, [d], j) {
      assert s[j..j + 1] == [a[j]];
    }
    assert Find(s, [d]) == Some(|a|);
    assert s[..|a|] == a && s[|a| + 1..] == b;
  }

  /** `sep.join(parts)`. */
  function Join(sep: string, parts: seq<string>): (r: string)
  {
    if |parts| == 0 then ""
    else if |parts| == 1 then parts[0]
    else parts[0] + sep + Join(sep, parts[1..])
  }

  /** A joined string starts with the first part; with two parts or more, that part is followed by the separator. */
  lemma JoinStartsWithFirst(sep: string, parts: seq<string>)
    requires parts != []
    ensures |parts[0]| <= |Join(sep, parts)| && Join(sep, parts)[..|parts[0]|] == parts[0]
    ensures |parts| >= 2 ==> |Join(sep, parts)| >= |parts[0]| + |sep| && Join(sep, parts)[|parts[0]|..|parts[0]| + |sep|] == sep
  {
    if |parts| >= 2 {
      var r := Join(sep, parts);
      assert r == parts[0] + sep + Join(sep, parts[1..]);
      assert r[|parts[0]|..|parts[0]| + |sep|] == sep;
    }
  }

  /** Joining the pieces of a split with the same separator gives back the string. */
  lemma {:induction false} JoinSplit(s: string, sep: string)
    requires sep != []
    ensures Join(sep, Split(s, sep)) == s
    decreases |s|
  {
    match Find(s, sep)
    case None =>
      assert Split(s, sep) == [s];
    case Some(i) =>
      var rest := s[i + |sep|..];
      var tail := Split(rest, sep);
      assert Split(s, sep) == [s[..i]] + tail;
      JoinSplit(rest, sep);
      assert ([s[..i]] + tail)[1..] == tail;
      assert Join(sep, [s[..i]] + tail) == s[..i] + sep + Join(sep, tail);
      assert s == s[..i] + s[i..i + |sep|] + rest;
  }

  /** No piece of a split contains the separator. */
  lemma {:induction false} SplitPiecesFree(s: string, sep: string)
    requires sep != []
    ensures forall k :: 0 <= k < |Split(s, sep)| ==> Free(Split(s, sep)[k], sep)
    decreases |s|
  {
    FindFirst(s, sep);
    match Find(s, sep)
    case None =>
    case Some(i) =>
      var rest := s[i + |sep|..];
      SplitPiecesFree(rest, sep);
      forall j ensures !OccursAt(s[..i], sep, j) {
        if OccursAt(s[..i], sep, j) {
          assert s[..i][j..j + |sep|] == s[j..j + |sep|];
          assert OccursAt(s, sep, j);
        }
      }
      assert Split(s, sep) == [s[..i]] + Split(rest, sep);
  }

  /** A split has a single piece exactly when the separator does not occur. */
  lemma SplitSingleIff(s: string, sep: string)
    requires sep != []
    ensures |Split(s, sep)| == 1 <==> Free(s, sep)
  {
    FindFirst(s, sep);
  }

  /** A string without the separator splits into itself alone. */
  lemma SplitFree(s: string, sep: string)
    requires sep != [] && Free(s, sep)
    ensures Split(s, sep) == [s]
  {
    FindFirst(s, sep);
  }

  /** Appending one more part to a non-empty list adds one separator. */
  lemma {:induction false} JoinSnoc(sep: string, parts: seq<string>, last: string)
    requires parts != []
    ensures Join(sep, parts + [last]) == Join(sep, parts) + sep + last
  {
    if |parts| > 1 {
      assert (parts + [last])[1..] == parts[1..] + [last];
      JoinSnoc(sep, parts[1..], last);
    }
  }

  /** The Python slice `p[1:-1]`: one character cut off each end, empty when too short. */
  function Inner(p: string): (r: string)
    ensures |r| == if |p| >= 2 then |p| - 2 else 0
    ensures forall k :: 0 <= k < |r| ==> r[k] == p[k + 1]
  {
    if |p| >= 2 then p[1..|p| - 1] else ""
  }

  /** Putting the two cut-off characters back rebuilds the piece. */
  lemma InnerRewrap(p: string)
    requires |p| >= 2
    ensures [p[0]] + Inner(p) + [p[|p| - 1]] == p
  {
  }
}
