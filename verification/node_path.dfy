/** Node's `path` module (POSIX flavour) on root-relative paths: `parse`, `format`,
    `join` and `relative`, the four calls the path mapper makes.

    A path string is read as its `/`-separated segments. The operations are exact for
    well-formed paths: every segment non-empty and neither `.` nor `..`, so there is no
    leading or trailing separator and nothing for Node's normalisation to resolve. */
module NodePath {
  import opened Strings

  const Sep: char := '/'
  const Parent: string := ".."

  /** Index of the last separator in `s`, or -1 when there is none. */
  function LastSep(s: string): (i: int)
    ensures -1 <= i < |s|
    ensures 0 <= i ==> s[i] == Sep
    ensures forall j :: i < j < |s| ==> s[j] != Sep
  {
    if |s| == 0 then -1
    else if s[|s| - 1] == Sep then |s| - 1
    else LastSep(s[..|s| - 1])
  }

  /** A string without any separator has no last separator. */
  lemma LastSepAbsent(s: string)
    requires Sep !in s
    ensures LastSep(s) == -1
  {
  }

  /** A segment that can stand between two separators: non-empty, without a separator. */
  predicate IsPlain(seg: string) {
    0 < |seg| && Sep !in seg
  }

  /** A segment of a normalised path: plain, and neither `.` nor `..`. */
  predicate IsName(seg: string) {
    IsPlain(seg) && seg != "." && seg != Parent
  }

  predicate AllPlain(segs: seq<string>) {
    forall k :: 0 <= k < |segs| ==> IsPlain(segs[k])
  }

  predicate AllNames(segs: seq<string>) {
    forall k :: 0 <= k < |segs| ==> IsName(segs[k])
  }

  /** `s` cut at every separator, from the last one backwards. */
  function Split(s: string): (segs: seq<string>)
    ensures 0 < |segs|
    decreases |s|
  {
    var i := LastSep(s);
    if i < 0 then
      LastSepNoneMeansAbsent(s);
      [s]
    else
      AfterLastSep(s);
      Split(s[..i]) + [s[i + 1..]]
  }

  /** Nothing after the last separator is a separator. */
  lemma AfterLastSep(s: string)
    requires 0 <= LastSep(s)
    ensures Sep !in s[LastSep(s) + 1..]
  {
    var i := LastSep(s);
    var tail := s[i + 1..];
    forall c | c in tail ensures c != Sep {
      var j :| 0 <= j < |tail| && tail[j] == c;
      assert s[i + 1 + j] == c;
    }
  }

  /** When no separator is found, there is none. */
  lemma LastSepNoneMeansAbsent(s: string)
    requires LastSep(s) < 0
    ensures Sep !in s
  {
    forall c | c in s ensures c != Sep {
      var j :| 0 <= j < |s| && s[j] == c;
      assert -1 < j;
    }
  }

  /** The segments of a path; the empty path has none. */
  function Segments(s: string): (segs: seq<string>)
    ensures s == "" <==> segs == []
  {
    if s == "" then [] else Split(s)
  }

  /** A normalised root-relative path. */
  predicate WellFormed(s: string) {
    AllNames(Segments(s))
  }

  /** The segments put back together with separators between them. */
  function JoinSegs(segs: seq<string>): string {
    if |segs| == 0 then ""
    else if |segs| == 1 then segs[0]
    else JoinSegs(segs[..|segs| - 1]) + [Sep] + segs[|segs| - 1]
  }

  /** A joined list of segments starts with its first segment. */
  lemma {:induction false} JoinSegsStartsWith(segs: seq<string>)
    requires 0 < |segs|
    ensures StartsWith(JoinSegs(segs), segs[0])
  {
    if 1 < |segs| {
      var front := segs[..|segs| - 1];
      var init := JoinSegs(front);
      var s := init + [Sep] + segs[|segs| - 1];
      JoinSegsStartsWith(front);
      assert StartsWith(s, init);
      StartsWithTrans(s, init, segs[0]);
    }
  }

  /** Splitting a joined list of plain segments gives the list back. */
  lemma {:induction false} SplitJoin(segs: seq<string>)
    requires AllPlain(segs)
    ensures Segments(JoinSegs(segs)) == segs
  {
    if |segs| == 0 {
    } else if |segs| == 1 {
      LastSepAbsent(segs[0]);
    } else {
      var front := segs[..|segs| - 1];
      var last := segs[|segs| - 1];
      assert AllPlain(front) by {
        forall k | 0 <= k < |front| ensures IsPlain(front[k]) {
          assert front[k] == segs[k];
        }
      }
      var init := JoinSegs(front);
      var s := JoinSegs(segs);
      assert s == init + [Sep] + last;
      JoinSegsStartsWith(front);
      var i := LastSep(s);
      assert s[|init|] == Sep;
      assert i == |init|;
      assert s[..i] == init;
      assert s[i + 1..] == last;
      SplitJoin(front);
      assert segs == front + [last];
    }
  }

  /** Joining the pieces of a split gives the string back. */
  lemma {:induction false} JoinSplit(s: string)
    ensures JoinSegs(Split(s)) == s
    decreases |s|
  {
    var i := LastSep(s);
    if 0 <= i {
      var front := Split(s[..i]);
      JoinSplit(s[..i]);
      var segs := front + [s[i + 1..]];
      assert segs[..|segs| - 1] == front;
      assert s == s[..i] + [Sep] + s[i + 1..];
    }
  }

  /** A path is determined by its segments. */
  lemma JoinSegments(s: string)
    ensures JoinSegs(Segments(s)) == s
  {
    if s != "" {
      JoinSplit(s);
    }
  }

  /** A path starts with its first segment. */
  lemma StartsWithFirstSegment(s: string)
    requires s != ""
    ensures StartsWith(s, Segments(s)[0])
  {
    JoinSegments(s);
    JoinSegsStartsWith(Segments(s));
  }

  /** Two paths with the same segments are the same path. */
  lemma SegmentsInjective(a: string, b: string)
    requires Segments(a) == Segments(b)
    ensures a == b
  {
    JoinSegments(a);
    JoinSegments(b);
  }

  /** The result of `path.parse`: the directory part and the last component. */
  datatype ParsedPath = ParsedPath(dir: string, base: string)

  /** `path.parse(s)`: `base` is everything after the last separator, `dir` everything before it. */
  function Parse(s: string): (p: ParsedPath)
    ensures Sep !in p.base
    ensures Sep in s ==> s == p.dir + [Sep] + p.base
    ensures Sep !in s ==> p == ParsedPath("", s)
  {
    var i := LastSep(s);
    if i < 0 then
      LastSepNoneMeansAbsent(s);
      ParsedPath("", s)
    else
      AfterLastSep(s);
      assert s == s[..i] + [Sep] + s[i + 1..];
      ParsedPath(s[..i], s[i + 1..])
  }

  /** `path.format({dir, base})`: the directory and the base with a separator between them,
      or the base alone when there is no directory. */
  function Format(dir: string, base: string): string {
    if dir == "" then base else dir + [Sep] + base
  }

  /** `path.parse` undoes `path.format` for any base without a separator. */
  lemma ParseFormat(dir: string, base: string)
    requires Sep !in base
    ensures Parse(Format(dir, base)) == ParsedPath(dir, base)
  {
    if dir == "" {
      LastSepAbsent(base);
    } else {
      var s := dir + [Sep] + base;
      var i := LastSep(s);
      assert s[|dir|] == Sep;
      assert s[..|dir|] == dir;
      assert s[|dir| + 1..] == base;
    }
  }

  /** Parsing a non-empty well-formed path gives a well-formed directory and a name,
      whose segments are the path's segments. */
  lemma ParseSegments(s: string)
    requires WellFormed(s) && s != ""
    ensures WellFormed(Parse(s).dir)
    ensures IsName(Parse(s).base)
    ensures Segments(Parse(s).dir) + [Parse(s).base] == Segments(s)
  {
    var segs := Segments(s);
    var i := LastSep(s);
    if 0 <= i {
      var front := Split(s[..i]);
      assert segs == front + [s[i + 1..]];
      assert s[..i] != "";
      assert segs[|segs| - 1] == s[i + 1..];
      forall k | 0 <= k < |front| ensures IsName(front[k]) {
        assert front[k] == segs[k];
      }
    } else {
      assert segs == [s];
      assert IsName(segs[0]);
    }
  }

  /** Formatting the parts `path.parse` returns gives a well-formed path back. */
  lemma FormatParse(s: string)
    requires WellFormed(s)
    ensures Format(Parse(s).dir, Parse(s).base) == s
  {
    var i := LastSep(s);
    if 0 <= i {
      ParseSegments(s);
      assert Parse(s).dir == s[..i];
    }
  }

  /** Formatting a directory given by plain segments with a plain base appends the base as a segment. */
  lemma FormatSegs(segs: seq<string>, base: string)
    requires AllPlain(segs) && IsPlain(base)
    ensures Format(JoinSegs(segs), base) == JoinSegs(segs + [base])
  {
    if segs != [] {
      JoinSegsStartsWith(segs);
      assert (segs + [base])[..|segs|] == segs;
    }
  }

  /** Names are plain segments. */
  lemma NamesArePlain(segs: seq<string>)
    requires AllNames(segs)
    ensures AllPlain(segs)
  {
  }

  /** Two lists of names concatenate to a list of names. */
  lemma AllNamesConcat(a: seq<string>, b: seq<string>)
    requires AllNames(a) && AllNames(b)
    ensures AllNames(a + b)
  {
    forall k | 0 <= k < |a + b| ensures IsName((a + b)[k]) {
      if k < |a| {
        assert (a + b)[k] == a[k];
      } else {
        assert (a + b)[k] == b[k - |a|];
      }
    }
  }

  /** Two lists of plain segments concatenate to a list of plain segments. */
  lemma AllPlainConcat(a: seq<string>, b: seq<string>)
    requires AllPlain(a) && AllPlain(b)
    ensures AllPlain(a + b)
  {
    forall k | 0 <= k < |a + b| ensures IsPlain((a + b)[k]) {
      if k < |a| {
        assert (a + b)[k] == a[k];
      } else {
        assert (a + b)[k] == b[k - |a|];
      }
    }
  }

  /** A plain base formatted onto a directory becomes its last segment. */
  lemma FormatAppendsSegment(dir: string, base: string)
    requires AllPlain(Segments(dir)) && IsPlain(base)
    ensures Segments(Format(dir, base)) == Segments(dir) + [base]
  {
    var ds := Segments(dir);
    JoinSegments(dir);
    FormatSegs(ds, base);
    AllPlainConcat(ds, [base]);
    SplitJoin(ds + [base]);
  }

  /** Formatting a name onto a well-formed directory gives a well-formed path that
      parses back into the two. */
  lemma FormatWellFormed(dir: string, base: string)
    requires WellFormed(dir) && IsName(base)
    ensures Segments(Format(dir, base)) == Segments(dir) + [base]
    ensures WellFormed(Format(dir, base))
    ensures Parse(Format(dir, base)) == ParsedPath(dir, base)
  {
    NamesArePlain(Segments(dir));
    FormatAppendsSegment(dir, base);
    AllNamesConcat(Segments(dir), [base]);
    ParseFormat(dir, base);
  }

  /** `path.join(a, b)`: the segments of `a` followed by those of `b`; `.` when there are none. */
  function Join(a: string, b: string): string {
    var segs := Segments(a) + Segments(b);
    if segs == [] then "." else JoinSegs(segs)
  }

  /** Joining two well-formed paths, the first non-empty, concatenates their segments. */
  lemma JoinConcats(a: string, b: string)
    requires WellFormed(a) && WellFormed(b) && a != ""
    ensures Segments(Join(a, b)) == Segments(a) + Segments(b)
    ensures WellFormed(Join(a, b))
  {
    var segs := Segments(a) + Segments(b);
    AllNamesConcat(Segments(a), Segments(b));
    NamesArePlain(segs);
    SplitJoin(segs);
  }

  /** Length of the longest common prefix of two segment lists. */
  function CommonPrefixLen(a: seq<string>, b: seq<string>): (n: nat)
    ensures n <= |a| && n <= |b|
    ensures a[..n] == b[..n]
    ensures n < |a| && n < |b| ==> a[n] != b[n]
  {
    if |a| == 0 || |b| == 0 || a[0] != b[0] then 0
    else
      var n := 1 + CommonPrefixLen(a[1..], b[1..]);
      assert a[..n] == [a[0]] + a[1..][..n - 1];
      assert b[..n] == [b[0]] + b[1..][..n - 1];
      n
  }

  /** A list whose common prefix with another is all of it is a prefix of that other list. */
  lemma CommonPrefixIsPrefix(a: seq<string>, b: seq<string>)
    requires CommonPrefixLen(a, b) == |a|
    ensures a <= b
  {
    assert a == a[..|a|];
  }

  /** `n` parent steps. */
  function Ups(n: nat): (r: seq<string>)
    ensures |r| == n
    ensures forall k :: 0 <= k < n ==> r[k] == Parent
  {
    if n == 0 then [] else [Parent] + Ups(n - 1)
  }

  /** The segments of the way from segments `f` to segments `t`: one `..` for every segment
      of `f` past the common prefix, then the rest of `t`. */
  function RelSegs(f: seq<string>, t: seq<string>): seq<string> {
    var n := CommonPrefixLen(f, t);
    Ups(|f| - n) + t[n..]
  }

  /** `path.relative(from, to)`. */
  function Relative(from: string, to: string): string {
    JoinSegs(RelSegs(Segments(from), Segments(to)))
  }

  /** Every segment of `Ups(n) + rest` is plain when `rest` is made of names. */
  lemma UpsThenNamesPlain(n: nat, rest: seq<string>)
    requires AllNames(rest)
    ensures AllPlain(Ups(n) + rest)
  {
    var segs := Ups(n) + rest;
    forall k | 0 <= k < |segs| ensures IsPlain(segs[k]) {
      if k < n {
        assert segs[k] == Parent;
      } else {
        assert segs[k] == rest[k - n];
      }
    }
  }

  /** Equal lists that end in one element each agree on the rest and on that element. */
  lemma SnocInjective(a: seq<string>, x: string, b: seq<string>, y: string)
    requires a + [x] == b + [y]
    ensures a == b && x == y
  {
    assert a == (a + [x])[..|a|];
    assert b == (b + [y])[..|b|];
  }

  /** A non-empty list is its first element followed by the rest. */
  lemma ConsTail(x: string, xs: seq<string>)
    requires 0 < |xs| && xs[0] == x
    ensures [x] + xs[1..] == xs
  {
  }

  /** A suffix of a list of names is a list of names. */
  lemma AllNamesSuffix(segs: seq<string>, n: nat)
    requires AllNames(segs) && n <= |segs|
    ensures AllNames(segs[n..])
  {
    forall k | 0 <= k < |segs| - n ensures IsName(segs[n..][k]) {
      assert segs[n..][k] == segs[n + k];
    }
  }

  /** The way to a list of names is a list of plain segments. */
  lemma RelSegsPlain(f: seq<string>, t: seq<string>)
    requires AllNames(t)
    ensures AllPlain(RelSegs(f, t))
  {
    var n := CommonPrefixLen(f, t);
    AllNamesSuffix(t, n);
    UpsThenNamesPlain(|f| - n, t[n..]);
  }

  /** The segments of a relative path to a well-formed path are those of the way there. */
  lemma RelativeSegments(from: string, to: string)
    requires WellFormed(to)
    ensures Segments(Relative(from, to)) == RelSegs(Segments(from), Segments(to))
  {
    RelSegsPlain(Segments(from), Segments(to));
    SplitJoin(RelSegs(Segments(from), Segments(to)));
  }

  /** The relative path from `a` to `a` joined with `b` is `b`. */
  lemma RelativeOfJoin(a: string, b: string)
    requires WellFormed(a) && WellFormed(b) && a != ""
    ensures Relative(a, Join(a, b)) == b
  {
    JoinConcats(a, b);
    var f := Segments(a);
    var t := Segments(Join(a, b));
    var n := CommonPrefixLen(f, t);
    assert n == |f|;
    assert RelSegs(f, t) == Segments(b);
    RelativeSegments(a, Join(a, b));
    SegmentsInjective(Relative(a, Join(a, b)), b);
  }

  /** A target outside `from` is reached by first climbing out of `from`. */
  lemma RelativeEscapes(from: string, to: string)
    requires WellFormed(from) && WellFormed(to)
    requires !(Segments(from) <= Segments(to))
    ensures var r := Segments(Relative(from, to)); 0 < |r| && r[0] == Parent
  {
    var f := Segments(from);
    var t := Segments(to);
    var n := CommonPrefixLen(f, t);
    if n == |f| {
      CommonPrefixIsPrefix(f, t);
      assert false;
    }
    RelativeSegments(from, to);
    assert Ups(|f| - n)[0] == Parent;
  }

  /** Relative to a one-segment directory `a`: the rest of `d` when `d` lies under `a`,
      otherwise one `..` followed by all of `d`. */
  lemma RelativeFromName(a: string, d: string)
    requires IsName(a) && WellFormed(d)
    ensures var ds := Segments(d);
            Segments(Relative(a, d)) == if 0 < |ds| && ds[0] == a then ds[1..] else [Parent] + ds
    ensures AllPlain(Segments(Relative(a, d)))
    ensures var ds := Segments(d); 0 < |ds| && ds[0] == a ==> WellFormed(Relative(a, d))
  {
    LastSepAbsent(a);
    var f := Segments(a);
    assert f == [a];
    var ds := Segments(d);
    var n := CommonPrefixLen(f, ds);
    RelativeSegments(a, d);
    RelSegsPlain(f, ds);
    if 0 < |ds| && ds[0] == a {
      assert n == 1;
      AllNamesSuffix(ds, 1);
    } else {
      assert n == 0;
      assert Ups(1) == [Parent];
    }
  }
}
