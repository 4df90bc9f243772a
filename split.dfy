/**
 Splitting a string at every occurrence of a separator character, keeping
 empty segments: the behaviour of `boost::split` with a character predicate
 and no token compression. A string with k separators yields k + 1
 segments; the empty string yields one empty segment.
 */
module PathSplit {

  datatype Option<T> = None | Some(value: T)

  /** The path separator of a content URI. */
  const Separator: char := '/'

  /** Number of separators in `s`. */
  function SeparatorCount(s: string): nat
    decreases |s|
  {
    if s == [] then 0 else (if s[0] == Separator then 1 else 0) + SeparatorCount(s[1..])
  }

  /** A string has no separator exactly when its separator count is zero. */
  lemma {:induction false} NoSeparatorCount(s: string)
    ensures SeparatorCount(s) == 0 <==> Separator !in s
    decreases |s|
  {
    if s != [] {
      NoSeparatorCount(s[1..]);
      assert s == [s[0]] + s[1..];
    }
  }

  /** Rebuilds a string from its segments, putting one separator between
      consecutive segments. */
  function Join(parts: seq<string>): (s: string)
    requires |parts| >= 1
    decreases |parts|
  {
    if |parts| == 1 then parts[0] else parts[0] + [Separator] + Join(parts[1..])
  }

  /** True when `parts` are the separator-free segments of `s`: one more
      than there are separators, none holding a separator, and joining back
      into `s`. */
  ghost predicate SegmentsOf(s: string, parts: seq<string>) {
    |parts| == SeparatorCount(s) + 1 &&
    (forall i :: 0 <= i < |parts| ==> Separator !in parts[i]) &&
    Join(parts) == s
  }

  /** Segments of `[c] + t`, given the segments `rest` of `t`: a separator
      opens a new empty first segment, any other character extends the
      first segment. */
  function Prepend(c: char, rest: seq<string>): seq<string>
    requires |rest| >= 1
  {
    if c == Separator then [[]] + rest else [[c] + rest[0]] + rest[1..]
  }

  /** The segments of `s` between separators, in order, empty ones included. */
  function Split(s: string): (parts: seq<string>)
    ensures |parts| == SeparatorCount(s) + 1
    ensures forall i :: 0 <= i < |parts| ==> Separator !in parts[i]
    ensures Join(parts) == s
    decreases |s|
  {
    if s == [] then [[]]
    else
      var rest := Split(s[1..]);
      PrependSegments(s, rest);
      Prepend(s[0], rest)
  }

  /** Prepend turns the segments of `s[1..]` into the segments of `s`. */
  lemma PrependSegments(s: string, rest: seq<string>)
    requires s != [] && SegmentsOf(s[1..], rest)
    ensures SegmentsOf(s, Prepend(s[0], rest))
  {
    if s[0] == Separator {
      JoinCons([], rest);
    } else {
      JoinExtendHead(s[0], rest);
      var parts := Prepend(s[0], rest);
      forall i | 0 <= i < |parts| ensures Separator !in parts[i] {
        if i > 0 { assert parts[i] == rest[i]; }
      }
    }
  }

  /** Joining a leading segment puts a separator after it. */
  lemma JoinCons(head: string, rest: seq<string>)
    requires |rest| >= 1
    ensures Join([head] + rest) == head + [Separator] + Join(rest)
  {
    assert ([head] + rest)[1..] == rest;
  }

  /** Extending the first segment by a character extends the join by it. */
  lemma JoinExtendHead(c: char, rest: seq<string>)
    requires |rest| >= 1
    ensures Join([[c] + rest[0]] + rest[1..]) == [c] + Join(rest)
  {
    if |rest| > 1 {
      JoinCons([c] + rest[0], rest[1..]);
    }
  }

  /** A string without separators is a single segment. */
  lemma SplitWithoutSeparator(p: string)
    requires Separator !in p
    ensures Split(p) == [p]
  {
    NoSeparatorCount(p);
    var parts := Split(p);
    assert Join(parts) == parts[0];
  }

  /** A separator-free prefix followed by a separator becomes the first
      segment, and the rest is split on its own. */
  lemma {:induction false} SplitAfterPrefix(p: string, t: string)
    requires Separator !in p
    ensures Split(p + [Separator] + t) == [p] + Split(t)
    decreases |p|
  {
    var s := p + [Separator] + t;
    if p == [] {
      assert s[1..] == t;
    } else {
      var c, q := p[0], p[1..];
      assert c != Separator by { assert c in p; }
      assert Separator !in q by { TailHasNoSeparator(p); }
      assert s == [c] + (q + [Separator] + t);
      assert s[1..] == q + [Separator] + t;
      SplitAfterPrefix(q, t);
      var rest := [q] + Split(t);
      assert Split(s) == Prepend(c, rest);
      assert rest[1..] == Split(t);
      assert [c] + q == p;
    }
  }

  /** Dropping the first character cannot introduce a separator. */
  lemma TailHasNoSeparator(p: string)
    requires p != [] && Separator !in p
    ensures Separator !in p[1..]
  {
    forall c | c in p[1..] ensures c != Separator { assert c in p; }
  }

  /** Split undoes Join: segments free of separators come back unchanged. */
  lemma {:induction false} SplitJoin(parts: seq<string>)
    requires |parts| >= 1
    requires forall i :: 0 <= i < |parts| ==> Separator !in parts[i]
    ensures Split(Join(parts)) == parts
    decreases |parts|
  {
    if |parts| == 1 {
      SplitWithoutSeparator(parts[0]);
    } else {
      SplitAfterPrefix(parts[0], Join(parts[1..]));
      SplitJoin(parts[1..]);
      assert parts == [parts[0]] + parts[1..];
    }
  }

  /** Joining with one more segment appends a separator and that segment. */
  lemma {:induction false} JoinSnoc(init: seq<string>, last: string)
    requires |init| >= 1
    ensures Join(init + [last]) == Join(init) + [Separator] + last
    decreases |init|
  {
    assert (init + [last])[1..] == init[1..] + [last];
    if |init| > 1 {
      JoinSnoc(init[1..], last);
    }
  }

  /** Index of the last separator in `s`, or None when there is none. */
  function LastSeparator(s: string): (r: Option<nat>)
    ensures r.None? ==> Separator !in s
    ensures r.Some? ==> r.value < |s| && s[r.value] == Separator
    ensures r.Some? ==> forall j :: r.value < j < |s| ==> s[j] != Separator
    decreases |s|
  {
    if s == [] then None
    else if s[|s| - 1] == Separator then Some(|s| - 1)
    else
      assert s == s[..|s| - 1] + [s[|s| - 1]];
      LastSeparator(s[..|s| - 1])
  }

  /** Reference definition of the last segment: the text after the last
      separator, or the whole string when it holds none. */
  function AfterLastSeparator(s: string): string {
    match LastSeparator(s)
    case None => s
    case Some(i) => s[i + 1..]
  }

  /** A separator with none after it is the last one. */
  lemma LastSeparatorUnique(s: string, i: nat)
    requires i < |s| && s[i] == Separator
    requires forall j :: i < j < |s| ==> s[j] != Separator
    ensures LastSeparator(s) == Some(i)
    ensures AfterLastSeparator(s) == s[i + 1..]
  {
    assert s[i] in s;
  }

  /** The final element of a non-empty sequence of segments. */
  function Last(parts: seq<string>): string
    requires |parts| >= 1
  {
    parts[|parts| - 1]
  }

  /** Shape of the last segment: a separator-free suffix of `s`, preceded
      by a separator unless `s` holds none (and then it is all of `s`). */
  ghost predicate IsLastSegment(s: string, m: string) {
    |m| <= |s| && s[|s| - |m|..] == m && Separator !in m &&
    (Separator !in s ==> m == s) &&
    (Separator in s ==> |m| < |s| && s[|s| - |m| - 1] == Separator)
  }

  /** A string without separators is its own last segment. */
  lemma WholeIsLastSegment(s: string)
    requires SeparatorCount(s) == 0
    ensures IsLastSegment(s, s)
  {
    NoSeparatorCount(s);
    assert s[0..] == s;
  }

  /** What follows a separator, when it holds none, is the last segment. */
  lemma SuffixIsLastSegment(x: string, m: string)
    requires Separator !in m
    ensures IsLastSegment(x + [Separator] + m, m)
  {
    var s := x + [Separator] + m;
    assert s[|s| - |m|..] == m;
    assert s[|x|] == Separator;
    assert s[|x|] in s;
  }

  /** With two segments or more, the last one follows a separator. */
  lemma LastOfSeveralSegments(parts: seq<string>)
    requires |parts| > 1
    requires Separator !in Last(parts)
    ensures IsLastSegment(Join(parts), Last(parts))
  {
    var n := |parts|;
    var init := parts[..n - 1];
    assert parts == init + [Last(parts)];
    JoinSnoc(init, Last(parts));
    SuffixIsLastSegment(Join(init), Last(parts));
  }

  /** The last of the separator-free segments that join into `s` has the
      shape of a last segment. */
  lemma LastSegmentOf(s: string, parts: seq<string>)
    requires |parts| == SeparatorCount(s) + 1
    requires forall i :: 0 <= i < |parts| ==> Separator !in parts[i]
    requires Join(parts) == s
    ensures IsLastSegment(s, Last(parts))
  {
    if |parts| == 1 {
      WholeIsLastSegment(s);
    } else {
      LastOfSeveralSegments(parts);
    }
  }

  /** No position of the last segment holds a separator. */
  lemma NoSeparatorInLastSegment(s: string, m: string)
    requires IsLastSegment(s, m)
    ensures forall j :: |s| - |m| <= j < |s| ==> s[j] != Separator
  {
    var k := |s| - |m|;
    forall j | k <= j < |s| ensures s[j] != Separator {
      assert s[j] == m[j - k];
      assert m[j - k] in m;
    }
  }

  /** A string has only one last segment: the text after its last
      separator. */
  lemma LastSegmentIsAfterLastSeparator(s: string, m: string)
    requires IsLastSegment(s, m)
    ensures m == AfterLastSeparator(s)
  {
    if Separator in s {
      var i := |s| - |m| - 1;
      NoSeparatorInLastSegment(s, m);
      LastSeparatorUnique(s, i);
      assert s[i + 1..] == m;
    }
  }

  /** The last segment produced by Split (`back()` is always defined, since
      Split never returns an empty sequence). It is the text after the last
      separator: a separator-free suffix of `s`, preceded by a separator
      unless `s` holds none. */
  function LastSegment(s: string): (m: string)
    ensures IsLastSegment(s, m)
    ensures m == AfterLastSeparator(s)
  {
    var parts := Split(s);
    LastSegmentOf(s, parts);
    LastSegmentIsAfterLastSeparator(s, Last(parts));
    Last(parts)
  }
}
