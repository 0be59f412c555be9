/** `getAltFile`: the switch between a JavaScript source file and its spec file.

    Paths are relative to the workspace root. A spec file `test/<dir>/<name>.spec.js`
    maps to its source `<dir>/<name>.js`, and a source file maps the other way. The
    test-directory check is a raw string prefix on the directory, so `tests/` and
    `testing/` count as test directories too. Anything else has no counterpart. */
module AltFile {
  import opened Wrappers
  import opened Strings
  import opened NodePath

  const TestDir: string := "test"
  const JsExt: string := ".js"
  const SpecJsExt: string := ".spec.js"
  const SpecMarker: string := ".spec"

  /** `.spec.js` is the `.spec` marker followed by `.js`. */
  lemma SpecJsExtParts()
    ensures SpecJsExt == SpecMarker + JsExt
    ensures SpecMarker + SpecJsExt == ".spec.spec.js"
  {
  }

  /** The directory string starts with `test`. */
  predicate InTestDir(p: ParsedPath) {
    StartsWith(p.dir, TestDir)
  }

  /** The guard of the spec-to-source rule. */
  predicate IsSpecRule(p: ParsedPath) {
    InTestDir(p) && EndsWith(p.base, SpecJsExt)
  }

  /** The guard of the source-to-spec rule. */
  predicate IsSourceRule(p: ParsedPath) {
    !InTestDir(p) && EndsWith(p.base, JsExt)
  }

  /** The counterpart of `filePath`, or `None` when neither rule applies. A counterpart
      exists exactly for `.js` files that are spec files whenever their directory starts
      with `test`, and it is always a `.js` file itself. */
  function GetAltFile(filePath: string): (r: Option<string>)
    ensures var p := Parse(filePath);
            r.Some? <==> EndsWith(p.base, JsExt) && (InTestDir(p) ==> EndsWith(p.base, SpecJsExt))
    ensures r.Some? ==> EndsWith(r.value, JsExt)
  {
    var p := Parse(filePath);
    SpecIsJs(p.base);
    if IsSpecRule(p) then
      var r := Format(Relative(TestDir, p.dir), SliceOffEnd(p.base, 8) + JsExt);
      FormatEndsWith(Relative(TestDir, p.dir), SliceOffEnd(p.base, 8), JsExt);
      Some(r)
    else if IsSourceRule(p) then
      var r := Format(Join(TestDir, p.dir), SliceOffEnd(p.base, 3) + SpecJsExt);
      FormatEndsWith(Join(TestDir, p.dir), SliceOffEnd(p.base, 3), SpecJsExt);
      SpecIsJs(SpecJsExt);
      EndsWithTrans(r, SpecJsExt, JsExt);
      Some(r)
    else
      None
  }

  /** Every spec file name is a `.js` file name. */
  lemma SpecIsJs(base: string)
    ensures EndsWith(base, SpecJsExt) ==> EndsWith(base, JsExt)
  {
    if EndsWith(base, SpecJsExt) {
      EndsWithTrans(base, SpecJsExt, JsExt);
    }
  }

  /** A formatted path ends with the extension its base ends with. */
  lemma FormatEndsWith(dir: string, stem: string, ext: string)
    ensures EndsWith(Format(dir, stem + ext), ext)
  {
    if dir == "" {
      EndsWithAppend(stem, ext);
    } else {
      assert Format(dir, stem + ext) == (dir + [Sep] + stem) + ext;
      EndsWithAppend(dir + [Sep] + stem, ext);
    }
  }

  /** The source name of a spec file name: its trailing `.spec.js` replaced by `.js`. */
  function SourceName(specBase: string): string
    requires EndsWith(specBase, SpecJsExt)
  {
    specBase[..|specBase| - |SpecJsExt|] + JsExt
  }

  /** The spec name of a source file name: its trailing `.js` replaced by `.spec.js`. */
  function SpecName(base: string): string
    requires EndsWith(base, JsExt)
  {
    base[..|base| - |JsExt|] + SpecJsExt
  }

  /** The source's `slice(0, -8)` followed by `.js` is the source name of a spec file name. */
  lemma SourceNameBySlice(base: string)
    requires EndsWith(base, SpecJsExt)
    ensures SliceOffEnd(base, 8) + JsExt == SourceName(base)
  {
  }

  /** The source's `slice(0, -3)` followed by `.spec.js` is the spec name of a source file name. */
  lemma SpecNameBySlice(base: string)
    requires EndsWith(base, JsExt)
    ensures SliceOffEnd(base, 3) + SpecJsExt == SpecName(base)
  {
  }

  /** Renaming a source file name to its spec name and back gives the source name. */
  lemma SourceNameOfSpecName(base: string)
    requires EndsWith(base, JsExt)
    ensures EndsWith(SpecName(base), SpecJsExt)
    ensures SourceName(SpecName(base)) == base
  {
    var stem := base[..|base| - |JsExt|];
    EndsWithAppend(stem, SpecJsExt);
    SliceOffAppended(stem, SpecJsExt);
    SliceOffSuffix(base, JsExt);
  }

  /** Renaming a spec file name to its source name and back gives the spec name. */
  lemma SpecNameOfSourceName(base: string)
    requires EndsWith(base, SpecJsExt)
    ensures EndsWith(SourceName(base), JsExt)
    ensures SpecName(SourceName(base)) == base
  {
    var stem := base[..|base| - |SpecJsExt|];
    EndsWithAppend(stem, JsExt);
    SliceOffAppended(stem, JsExt);
    SliceOffSuffix(base, SpecJsExt);
  }

  /** The spec name of a name that already ends in `.spec.js` carries the marker twice. */
  lemma SpecNameOfSpecFile(base: string)
    requires EndsWith(base, SpecJsExt)
    ensures SpecName(base) == base[..|base| - |SpecJsExt|] + ".spec.spec.js"
  {
    var stem := base[..|base| - |SpecJsExt|];
    SpecJsExtParts();
    assert base == (stem + SpecMarker) + JsExt by {
      SliceOffSuffix(base, SpecJsExt);
    }
    SliceOffAppended(stem + SpecMarker, JsExt);
    assert SpecName(base) == stem + (SpecMarker + SpecJsExt);
  }

  /** At most one rule applies to any path, so the mapping is deterministic. */
  lemma RulesExclusive(p: ParsedPath)
    ensures !(IsSpecRule(p) && IsSourceRule(p))
  {
  }

  /** `test` is a single well-formed segment. */
  lemma TestDirIsName()
    ensures IsName(TestDir) && Segments(TestDir) == [TestDir] && WellFormed(TestDir)
  {
    SplitJoin([TestDir]);
  }

  /** Replacing one `.js`-family extension by another keeps the name a well-formed segment. */
  lemma RenamedIsName(base: string, n: nat, ext: string)
    requires 0 < n && Sep !in base && Sep !in ext && 3 <= |ext|
    ensures IsName(SliceOffEnd(base, n) + ext)
  {
    var stem := SliceOffEnd(base, n);
    forall c | c in stem + ext ensures c != Sep {
      if c in stem {
        var j :| 0 <= j < |stem| && stem[j] == c;
        assert base[j] == c;
      }
    }
  }

  /** The result of the spec-to-source rule: the source name formatted onto the directory
      taken relative to `test`. */
  lemma SpecRuleResult(s: string)
    requires IsSpecRule(Parse(s))
    ensures GetAltFile(s) == Some(Format(Relative(TestDir, Parse(s).dir), SourceName(Parse(s).base)))
  {
    SourceNameBySlice(Parse(s).base);
  }

  /** The source name of a spec file name in a well-formed path is a name. */
  lemma SourceNameIsName(s: string)
    requires WellFormed(s) && EndsWith(Parse(s).base, SpecJsExt)
    ensures IsName(SourceName(Parse(s).base))
  {
    ParseSegments(s);
    RenamedIsName(Parse(s).base, 8, JsExt);
    SourceNameBySlice(Parse(s).base);
  }

  /** A spec file directly under the `test` directory maps to the source file at the same
      place with the `test` segment removed and the trailing `.spec.js` replaced by `.js`. */
  lemma SpecToSource(s: string)
    requires WellFormed(s)
    requires var ds := Segments(Parse(s).dir); 0 < |ds| && ds[0] == TestDir
    requires EndsWith(Parse(s).base, SpecJsExt)
    ensures GetAltFile(s).Some?
    ensures WellFormed(GetAltFile(s).value)
    ensures Segments(GetAltFile(s).value) == Segments(Parse(s).dir)[1..] + [SourceName(Parse(s).base)]
  {
    var p := Parse(s);
    var ds := Segments(p.dir);
    var rel := Relative(TestDir, p.dir);
    assert IsSpecRule(p) by {
      StartsWithFirstSegment(p.dir);
    }
    SpecRuleResult(s);
    assert Segments(rel) == ds[1..] && WellFormed(rel) by {
      ParseSegments(s);
      TestDirIsName();
      RelativeFromName(TestDir, p.dir);
    }
    SourceNameIsName(s);
    FormatWellFormed(rel, SourceName(p.base));
  }

  /** A spec file under a directory that merely starts with `test` (such as `tests/`) maps
      to a path that first climbs out of the workspace root with `..`. */
  lemma SpecOutsideTestDir(s: string)
    requires WellFormed(s)
    requires var ds := Segments(Parse(s).dir); 0 < |ds| && ds[0] != TestDir
    requires StartsWith(Parse(s).dir, TestDir) && EndsWith(Parse(s).base, SpecJsExt)
    ensures GetAltFile(s).Some?
    ensures Segments(GetAltFile(s).value) == [Parent] + Segments(Parse(s).dir) + [SourceName(Parse(s).base)]
  {
    var p := Parse(s);
    var rel := Relative(TestDir, p.dir);
    SpecRuleResult(s);
    assert Segments(rel) == [Parent] + Segments(p.dir) && AllPlain(Segments(rel)) by {
      ParseSegments(s);
      TestDirIsName();
      RelativeFromName(TestDir, p.dir);
    }
    SourceNameIsName(s);
    FormatAppendsSegment(rel, SourceName(p.base));
  }

  /** The result of the source-to-spec rule: the spec name under `test` joined with the directory. */
  lemma SourceRuleResult(s: string)
    requires IsSourceRule(Parse(s))
    ensures GetAltFile(s) == Some(Format(Join(TestDir, Parse(s).dir), SpecName(Parse(s).base)))
  {
    SpecNameBySlice(Parse(s).base);
  }

  /** A source file outside the test directories maps to the spec file at the same place
      under `test`, with the trailing `.js` replaced by `.spec.js`; fed back in, that path
      is classified by the spec-to-source rule. */
  lemma SourceToTest(s: string)
    requires WellFormed(s)
    requires IsSourceRule(Parse(s))
    ensures GetAltFile(s).Some?
    ensures WellFormed(GetAltFile(s).value)
    ensures Segments(GetAltFile(s).value) == [TestDir] + Segments(Parse(s).dir) + [SpecName(Parse(s).base)]
    ensures IsSpecRule(Parse(GetAltFile(s).value))
  {
    var p := Parse(s);
    var ds := Segments(p.dir);
    var base := SpecName(p.base);
    var dir := Join(TestDir, p.dir);
    SourceRuleResult(s);
    assert IsName(base) by {
      ParseSegments(s);
      RenamedIsName(p.base, 3, SpecJsExt);
      SpecNameBySlice(p.base);
    }
    assert Segments(dir) == [TestDir] + ds && WellFormed(dir) by {
      ParseSegments(s);
      TestDirIsName();
      JoinConcats(TestDir, p.dir);
    }
    FormatWellFormed(dir, base);
    assert StartsWith(dir, TestDir) by {
      StartsWithFirstSegment(dir);
    }
    SourceNameOfSpecName(p.base);
  }

  /** Going from a source file to its spec file and back gives the source file. */
  lemma RoundTrip(s: string)
    requires WellFormed(s)
    requires IsSourceRule(Parse(s))
    ensures GetAltFile(s).Some?
    ensures GetAltFile(GetAltFile(s).value) == Some(s)
  {
    var p := Parse(s);
    var ds := Segments(p.dir);
    SourceToTest(s);
    var t := GetAltFile(s).value;
    var q := Parse(t);
    var spec := SpecName(p.base);
    SourceNameOfSpecName(p.base);
    assert q.base == spec && Segments(q.dir) == [TestDir] + ds by {
      ParseSegments(t);
      SnocInjective(Segments(q.dir), q.base, [TestDir] + ds, spec);
    }
    SpecToSource(t);
    assert Segments(s) == ds + [p.base] by {
      ParseSegments(s);
    }
    SegmentsInjective(GetAltFile(t).value, s);
  }

  /** Going from a spec file under `test` to its source and back gives the spec file,
      as long as the source's directory does not itself start with `test`. */
  lemma ReverseRoundTrip(s: string)
    requires WellFormed(s)
    requires var ds := Segments(Parse(s).dir); 0 < |ds| && ds[0] == TestDir
    requires EndsWith(Parse(s).base, SpecJsExt)
    requires !StartsWith(JoinSegs(Segments(Parse(s).dir)[1..]), TestDir)
    ensures GetAltFile(s).Some?
    ensures GetAltFile(GetAltFile(s).value) == Some(s)
  {
    var p := Parse(s);
    var ds := Segments(p.dir);
    SpecToSource(s);
    var t := GetAltFile(s).value;
    var q := Parse(t);
    var src := SourceName(p.base);
    SpecNameOfSourceName(p.base);
    assert q.base == src && Segments(q.dir) == ds[1..] by {
      ParseSegments(t);
      SnocInjective(Segments(q.dir), q.base, ds[1..], src);
    }
    assert IsSourceRule(q) by {
      JoinSegments(q.dir);
    }
    SourceToTest(t);
    assert Segments(s) == ds + [p.base] by {
      ParseSegments(s);
    }
    ConsTail(TestDir, ds);
    SegmentsInjective(GetAltFile(t).value, s);
  }

  /** When the source's directory starts with `test` again (as for `test/testdata/a.spec.js`)
      and the source name is not itself a `.spec.js` name, the way back is lost: the source
      file has no counterpart. */
  lemma ReverseRoundTripLost(s: string)
    requires WellFormed(s)
    requires var ds := Segments(Parse(s).dir); 0 < |ds| && ds[0] == TestDir
    requires EndsWith(Parse(s).base, SpecJsExt) && !EndsWith(SourceName(Parse(s).base), SpecJsExt)
    requires StartsWith(JoinSegs(Segments(Parse(s).dir)[1..]), TestDir)
    ensures GetAltFile(s).Some?
    ensures GetAltFile(GetAltFile(s).value) == None
  {
    var p := Parse(s);
    var ds := Segments(p.dir);
    SpecToSource(s);
    var t := GetAltFile(s).value;
    var q := Parse(t);
    var src := SourceName(p.base);
    assert q.base == src && Segments(q.dir) == ds[1..] by {
      ParseSegments(t);
      SnocInjective(Segments(q.dir), q.base, ds[1..], src);
    }
    JoinSegments(q.dir);
    assert InTestDir(q);
  }

  /** A directory whose first segment merely starts with `test` (such as `testing/`) counts
      as a test directory, so a plain `.js` file there has no counterpart. */
  lemma SourceInTestLikeDirIgnored(s: string)
    requires WellFormed(s)
    requires var ds := Segments(Parse(s).dir); 0 < |ds| && StartsWith(ds[0], TestDir)
    requires EndsWith(Parse(s).base, JsExt) && !EndsWith(Parse(s).base, SpecJsExt)
    ensures GetAltFile(s) == None
  {
    var p := Parse(s);
    StartsWithFirstSegment(p.dir);
    StartsWithTrans(p.dir, Segments(p.dir)[0], TestDir);
  }

  /** Only the trailing `.js` is rewritten: a spec-named file outside the test directories
      keeps its `.spec` and gains another, becoming `<name>.spec.spec.js` under `test`. */
  lemma SpecNameOutsideTestDirDoubled(s: string)
    requires WellFormed(s)
    requires IsSourceRule(Parse(s)) && EndsWith(Parse(s).base, SpecJsExt)
    ensures GetAltFile(s).Some?
    ensures var segs := Segments(GetAltFile(s).value);
            0 < |segs| && segs[|segs| - 1] == Parse(s).base[..|Parse(s).base| - |SpecJsExt|] + ".spec.spec.js"
  {
    SourceToTest(s);
    SpecNameOfSpecFile(Parse(s).base);
  }
}
