/** The JavaScript string built-ins the link resolver relies on
    (`includes`, `split` with a string separator, `slice`), written over
    `seq<char>`, with the leftmost-match search they share. */
module JsString {
  import opened Wrappers

  /** `p` occurs in `s` starting at position `i`. */
  predicate OccursAt(s: string, p: string, i: int) {
    0 <= i && i + |p| <= |s| && s[i..i + |p|] == p
  }

  /** `i` is the leftmost position at which `p` occurs in `s`. */
  ghost predicate FirstOccurrence(s: string, p: string, i: int) {
    OccursAt(s, p, i) && forall k :: 0 <= k < i ==> !OccursAt(s, p, k)
  }

  /** The leftmost occurrence of `p` at or after `from`, `None` when there is
      none: the search step inside `includes` and `split`. (Unlike
      `String.prototype.indexOf`, a `from` past the end is not clamped.) */
  function IndexOf(s: string, p: string, from: nat): (r: Option<nat>)
    ensures r.Some? ==> from <= r.value && OccursAt(s, p, r.value)
    ensures r.Some? ==> forall k :: from <= k < r.value ==> !OccursAt(s, p, k)
    ensures r.None? ==> forall k :: from <= k ==> !OccursAt(s, p, k)
    decreases |s| - from
  {
    if |s| < from + |p| then None
    else if s[from..from + |p|] == p then Some(from)
    else IndexOf(s, p, from + 1)
  }

  /** `s.includes(p)`. */
  function Contains(s: string, p: string): (r: bool)
    ensures r <==> exists i :: OccursAt(s, p, i)
  {
    IndexOf(s, p, 0).Some?
  }

  /** `s.slice(start)` for a non-negative `start`: everything after the first
      `start` characters, and the empty string when there are not that many. */
  function Slice(s: string, start: nat): (r: string)
    ensures start <= |s| ==> s == s[..start] + r
    ensures |s| <= start ==> r == []
  {
    if start < |s| then s[start..] else []
  }

  /** `s.split(sep)` for a non-empty string separator: the text between
      successive non-overlapping occurrences of `sep`, scanned left to right. */
  function Split(s: string, sep: string): (fields: seq<string>)
    requires sep != []
    ensures |fields| >= 1
    ensures |fields| >= 2 <==> Contains(s, sep)
    ensures forall j :: 0 <= j < |fields| ==> !Contains(fields[j], sep)
    decreases |s|
  {
    match IndexOf(s, sep, 0)
    case None => [s]
    case Some(i) =>
      PrefixHasNoOccurrence(s, sep, i);
      [s[..i]] + Split(s[i + |sep|..], sep)
  }

  /** Joins fields with `sep` in between: the inverse of `Split`. */
  function Join(fields: seq<string>, sep: string): string
    requires |fields| >= 1
  {
    if |fields| == 1 then fields[0] else fields[0] + sep + Join(fields[1..], sep)
  }

  /** Nothing before the first occurrence of `p` contains `p`. */
  lemma PrefixHasNoOccurrence(s: string, p: string, i: nat)
    requires p != [] && i <= |s|
    requires forall k :: 0 <= k < i ==> !OccursAt(s, p, k)
    ensures !Contains(s[..i], p)
  {
    forall k | OccursAt(s[..i], p, k)
      ensures false
    {
      assert s[..i][k..k + |p|] == s[k..k + |p|];
      assert OccursAt(s, p, k);
    }
  }

  /** Splitting loses nothing: joining the fields back gives the input. */
  lemma {:induction false} SplitJoin(s: string, sep: string)
    requires sep != []
    ensures Join(Split(s, sep), sep) == s
    decreases |s|
  {
    match IndexOf(s, sep, 0)
    case None =>
    case Some(i) =>
      var rest := s[i + |sep|..];
      SplitAtIndex(s, sep, i);
      SplitJoin(rest, sep);
      var fields := Split(s, sep);
      assert fields[0] == s[..i] && fields[1..] == Split(rest, sep);
      assert Join(fields, sep) == s[..i] + sep + Join(Split(rest, sep), sep);
      assert s == s[..i] + s[i..i + |sep|] + rest;
  }

  /** `indexOf` finds exactly the leftmost occurrence. */
  lemma IndexOfFindsFirst(s: string, p: string, i: int)
    requires FirstOccurrence(s, p, i)
    ensures IndexOf(s, p, 0) == Some(i)
  {
  }

  /** The first field ends at the first occurrence of `sep`, and the remaining
      fields are those of the text after it. */
  lemma SplitAtFirst(s: string, sep: string, i: int)
    requires sep != [] && FirstOccurrence(s, sep, i)
    ensures Split(s, sep) == [s[..i]] + Split(s[i + |sep|..], sep)
  {
    IndexOfFindsFirst(s, sep, i);
    SplitAtIndex(s, sep, i);
  }

  lemma SplitAtIndex(s: string, sep: string, i: nat)
    requires sep != [] && IndexOf(s, sep, 0) == Some(i)
    ensures Split(s, sep) == [s[..i]] + Split(s[i + |sep|..], sep)
  {
  }

  /** A text lacking the first character of `p` does not contain `p`. */
  lemma AbsentFirstChar(s: string, p: string)
    requires p != [] && p[0] !in s
    ensures !Contains(s, p)
  {
  }

  /** A text that starts with `p` has its first occurrence of `p` at 0. */
  lemma FirstOccurrenceAtStart(p: string, rest: string)
    ensures FirstOccurrence(p + rest, p, 0)
  {
    assert (p + rest)[..|p|] == p;
  }

  /** When `a` lacks the first character of `p` and `b` starts with `p`, the
      first occurrence of `p` in `a + b` is where `b` begins. */
  lemma FirstOccurrenceAfter(a: string, b: string, p: string)
    requires p != [] && p[0] !in a
    requires |p| <= |b| && b[..|p|] == p
    ensures FirstOccurrence(a + b, p, |a|)
  {
    var s := a + b;
    assert s[|a|..|a| + |p|] == b[..|p|];
    forall k | 0 <= k < |a|
      ensures !OccursAt(s, p, k)
    {
      assert s[k] == a[k];
    }
  }

  /** A text without `sep` is a single field. */
  lemma SplitWithout(s: string, sep: string)
    requires sep != [] && !Contains(s, sep)
    ensures Split(s, sep) == [s]
  {
  }
}
