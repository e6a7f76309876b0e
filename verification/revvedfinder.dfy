/** The revved-file finder: given a logical asset path, find the name of its
    content-fingerprinted ("revved") variant, either through a mapping from
    paths to revved paths or through a callback that expands glob patterns
    into the paths that exist on disk. */
module RevvedFinder {
  import opened Wrappers
  import opened Seqs
  import opened Paths

  /** What the finder was constructed with: a plain object is a mapping, a
      function is the expand callback (`_.isFunction(locator)`). */
  datatype Finder =
    | MappingFinder(mapping: map<string, string>)
    | ExpandFinder(expandfn: seq<string> -> seq<string>)

  /** `find` accepts one search directory or a list of them. */
  datatype SearchDirs = OneDir(dir: string) | DirList(dirs: seq<string>)

  function SearchPaths(searchDirs: SearchDirs): seq<string>
  {
    match searchDirs
    case OneDir(d) => [d]
    case DirList(ds) => ds
  }

  // ---------------------------------------------------------------------
  // regexpQuote

  /** The characters `regexpQuote` escapes. */
  predicate IsRegexpSpecial(c: char)
  {
    c in ".?*+^$[]\\(){}|-"
  }

  /** `regexpQuote(s)`: a backslash before every special character. */
  function RegexpQuote(s: string): (r: string)
    ensures |r| >= |s|
    decreases |s|
  {
    if s == "" then ""
    else (if IsRegexpSpecial(s[0]) then ['\\', s[0]] else [s[0]]) + RegexpQuote(s[1..])
  }

  /** The text a regular expression matches when it is made only of plain
      characters and escaped special characters; `None` for any other
      pattern (an unescaped special character, a dangling or other escape). */
  function LiteralOf(pattern: string): Option<string>
    decreases |pattern|
  {
    if pattern == "" then Some("")
    else if pattern[0] == '\\' then
      if |pattern| >= 2 && IsRegexpSpecial(pattern[1]) then
        match LiteralOf(pattern[2..])
        case Some(rest) => Some([pattern[1]] + rest)
        case None => None
      else None
    else if IsRegexpSpecial(pattern[0]) then None
    else
      match LiteralOf(pattern[1..])
      case Some(rest) => Some([pattern[0]] + rest)
      case None => None
  }

  /** A quoted string, read as a regular expression, matches exactly the
      string itself. */
  lemma {:induction false} QuoteIsLiteral(s: string)
    ensures LiteralOf(RegexpQuote(s)) == Some(s)
    decreases |s|
  {
    if s != "" {
      QuoteIsLiteral(s[1..]);
      var q := RegexpQuote(s);
      if IsRegexpSpecial(s[0]) {
        assert q[2..] == RegexpQuote(s[1..]);
      } else {
        assert q[1..] == RegexpQuote(s[1..]);
      }
      assert [s[0]] + s[1..] == s;
    }
  }

  /** A pattern of plain and escaped characters that matches `s` is the
      quoted form of `s`. */
  lemma {:induction false} LiteralIsQuote(pattern: string)
    requires LiteralOf(pattern).Some?
    ensures pattern == RegexpQuote(LiteralOf(pattern).value)
    decreases |pattern|
  {
    if pattern != "" {
      var s := LiteralOf(pattern).value;
      if pattern[0] == '\\' {
        LiteralIsQuote(pattern[2..]);
        assert s[1..] == LiteralOf(pattern[2..]).value;
        assert pattern == ['\\', pattern[1]] + pattern[2..];
      } else {
        LiteralIsQuote(pattern[1..]);
        assert s[1..] == LiteralOf(pattern[1..]).value;
        assert pattern == [pattern[0]] + pattern[1..];
      }
    }
  }

  /** Both directions together: `regexpQuote(s)` is the one pattern of
      plain and escaped characters that matches exactly `s`. */
  lemma RegexpQuoteIsLiteral(s: string, pattern: string)
    ensures LiteralOf(pattern) == Some(s) <==> pattern == RegexpQuote(s)
  {
    QuoteIsLiteral(s);
    if LiteralOf(pattern) == Some(s) {
      LiteralIsQuote(pattern);
    }
  }

  // ---------------------------------------------------------------------
  // revvedRx: a run of hex digits right next to the quoted basename

  predicate IsHexDigit(c: char)
  {
    '0' <= c <= '9' || 'a' <= c <= 'f' || 'A' <= c <= 'F'
  }

  /** `s` starts with `[0-9a-fA-F]+` followed by `tail`, trying every run
      length as a backtracking matcher does. */
  predicate HexRunThen(s: string, tail: string)
    decreases |s|
  {
    |s| > 0 && IsHexDigit(s[0]) && (StartsWith(s[1..], tail) || HexRunThen(s[1..], tail))
  }

  /** The first alternative of `revvedRx` matches at index `i`:
      hex digits, a dot, the basename. */
  predicate PrefixFormAt(f: string, base: string, i: nat)
    requires i <= |f|
  {
    HexRunThen(f[i..], "." + base)
  }

  /** The second alternative of `revvedRx` matches at index `i`:
      the basename, a dot, hex digits, the extension. */
  predicate SuffixFormAt(f: string, base: string, ext: string, i: nat)
    requires i <= |f|
  {
    StartsWith(f[i..], base + ".") && HexRunThen(f[i + |base| + 1..], ext)
  }

  /** `f.match(revvedRx)` tried from index `i` onwards. */
  predicate RevvedMatchFrom(f: string, base: string, ext: string, i: nat)
    requires i <= |f|
    decreases |f| - i
  {
    PrefixFormAt(f, base, i) || SuffixFormAt(f, base, ext, i)
    || (i < |f| && RevvedMatchFrom(f, base, ext, i + 1))
  }

  /** `f.match(revvedRx)` is truthy, with `revvedRx` built from the quoted
      `base` and `ext` (which stand for themselves by RegexpQuoteIsLiteral). */
  predicate RevvedMatch(f: string, base: string, ext: string)
  {
    RevvedMatchFrom(f, base, ext, 0)
  }

  /** `f[i..k]` is a non-empty run of hex digits. */
  ghost predicate IsHexRun(f: string, i: int, k: int)
  {
    0 <= i < k <= |f| && forall j :: i <= j < k ==> IsHexDigit(f[j])
  }

  /** `f[i..]` reads hex digits `f[i..k]`, then `.` and `base`. */
  ghost predicate PrefixForm(f: string, base: string, i: int, k: int)
  {
    IsHexRun(f, i, k) && StartsWith(f[k..], "." + base)
  }

  /** `f[i..]` reads `base`, `.`, hex digits ending at `k`, then `ext`. */
  ghost predicate SuffixForm(f: string, base: string, ext: string, i: int, k: int)
  {
    0 <= i && IsHexRun(f, i + |base| + 1, k) && StartsWith(f[i..], base + ".") && StartsWith(f[k..], ext)
  }

  /** A file name looks revved: somewhere in it a non-empty hex run sits
      right before `.base`, or right after `base.` and before `ext`. */
  ghost predicate LooksRevved(f: string, base: string, ext: string)
  {
    (exists i, k :: PrefixForm(f, base, i, k)) || (exists i, k :: SuffixForm(f, base, ext, i, k))
  }

  lemma {:induction false} HexRunThenIff(f: string, i: nat, tail: string)
    requires i <= |f|
    ensures HexRunThen(f[i..], tail) <==> exists k :: IsHexRun(f, i, k) && StartsWith(f[k..], tail)
    decreases |f| - i
  {
    if i < |f| && IsHexDigit(f[i]) {
      assert f[i..][1..] == f[i + 1..];
      HexRunThenIff(f, i + 1, tail);
      if HexRunThen(f[i..], tail) {
        if StartsWith(f[i + 1..], tail) {
          assert IsHexRun(f, i, i + 1);
        } else {
          var k :| IsHexRun(f, i + 1, k) && StartsWith(f[k..], tail);
          assert IsHexRun(f, i, k);
        }
      }
      forall k | IsHexRun(f, i, k) && StartsWith(f[k..], tail)
        ensures HexRunThen(f[i..], tail)
      {
        if k > i + 1 {
          assert IsHexRun(f, i + 1, k);
        }
      }
    } else if i < |f| {
      forall k ensures !IsHexRun(f, i, k) {
        if i < k <= |f| {
          assert !IsHexDigit(f[i]);
        }
      }
    }
  }

  lemma PrefixFormAtIff(f: string, base: string, i: nat)
    requires i <= |f|
    ensures PrefixFormAt(f, base, i) <==> exists k :: PrefixForm(f, base, i, k)
  {
    HexRunThenIff(f, i, "." + base);
    if PrefixFormAt(f, base, i) {
      var k :| IsHexRun(f, i, k) && StartsWith(f[k..], "." + base);
      assert PrefixForm(f, base, i, k);
    }
  }

  lemma SuffixFormAtIff(f: string, base: string, ext: string, i: nat)
    requires i <= |f|
    ensures SuffixFormAt(f, base, ext, i) <==> exists k :: SuffixForm(f, base, ext, i, k)
  {
    if i + |base| + 1 <= |f| {
      HexRunThenIff(f, i + |base| + 1, ext);
      if SuffixFormAt(f, base, ext, i) {
        var k :| IsHexRun(f, i + |base| + 1, k) && StartsWith(f[k..], ext);
        assert SuffixForm(f, base, ext, i, k);
      }
    } else {
      assert !StartsWith(f[i..], base + ".");
      forall k ensures !SuffixForm(f, base, ext, i, k) {
        assert !IsHexRun(f, i + |base| + 1, k);
      }
    }
  }

  lemma {:induction false} RevvedMatchFromIff(f: string, base: string, ext: string, i: nat)
    requires i <= |f|
    ensures RevvedMatchFrom(f, base, ext, i) <==>
            (exists j, k :: i <= j && PrefixForm(f, base, j, k))
            || (exists j, k :: i <= j && SuffixForm(f, base, ext, j, k))
    decreases |f| - i
  {
    PrefixFormAtIff(f, base, i);
    SuffixFormAtIff(f, base, ext, i);
    if i < |f| {
      RevvedMatchFromIff(f, base, ext, i + 1);
    }
    forall j, k | i <= j && PrefixForm(f, base, j, k) ensures RevvedMatchFrom(f, base, ext, i) {
      if j > i {
        assert i + 1 <= j;
      }
    }
    forall j, k | i <= j && SuffixForm(f, base, ext, j, k) ensures RevvedMatchFrom(f, base, ext, i) {
      if j > i {
        assert i + 1 <= j;
      }
    }
  }

  /** The left-to-right scan agrees with the declarative description. */
  lemma RevvedMatchIff(f: string, base: string, ext: string)
    ensures RevvedMatch(f, base, ext) <==> LooksRevved(f, base, ext)
  {
    RevvedMatchFromIff(f, base, ext, 0);
  }

  /** Both fingerprint layouts are recognised: `hash.base<anything>` and
      `base.hash.ext`, for any non-empty hex hash. */
  lemma RevvedNamesMatch(base: string, ext: string, hash: string, rest: string)
    requires hash != [] && forall j :: 0 <= j < |hash| ==> IsHexDigit(hash[j])
    ensures RevvedMatch(hash + "." + base + rest, base, ext)
    ensures RevvedMatch(base + "." + hash + ext, base, ext)
  {
    var f1 := hash + "." + base + rest;
    assert IsHexRun(f1, 0, |hash|) by {
      forall j | 0 <= j < |hash| ensures IsHexDigit(f1[j]) { assert f1[j] == hash[j]; }
    }
    assert f1[|hash|..][..|base| + 1] == "." + base;
    assert PrefixForm(f1, base, 0, |hash|);
    RevvedMatchIff(f1, base, ext);
    var f2 := base + "." + hash + ext;
    assert IsHexRun(f2, |base| + 1, |base| + 1 + |hash|) by {
      forall j | |base| + 1 <= j < |base| + 1 + |hash| ensures IsHexDigit(f2[j]) {
        assert f2[j] == hash[j - |base| - 1];
      }
    }
    assert f2[..|base| + 1] == base + ".";
    assert f2[|base| + 1 + |hash|..] == ext;
    assert SuffixForm(f2, base, ext, 0, |base| + 1 + |hash|);
    RevvedMatchIff(f2, base, ext);
  }

  // ---------------------------------------------------------------------
  // Mapping mode

  /** The mapping key looked up for search path `sp`. */
  function MappingKey(sp: string, file: string): string
  {
    Normalize(Join([sp, file]))
  }

  /** The directory of `file` as the mapping mode puts it back in front of
      a found name: nothing for `.`, else the directory and a `/`. */
  function DirPrefix(file: string): string
  {
    var dirname := Dirname(file);
    if dirname == "." then "" else dirname + "/"
  }

  /** The mapping has a truthy (non-empty) value for the key of `sp`. */
  predicate MappingHit(mapping: map<string, string>, file: string, sp: string)
  {
    var key := MappingKey(sp, file);
    key in mapping && mapping[key] != ""
  }

  /** What one search path contributes in mapping mode: the basename of the
      mapped value, behind the directory of `file`. */
  function MappingCandidate(mapping: map<string, string>, file: string, sp: string): seq<string>
  {
    if MappingHit(mapping, file, sp) then [DirPrefix(file) + Basename(mapping[MappingKey(sp, file)])] else []
  }

  function MappingStep(mapping: map<string, string>, file: string): string -> seq<string>
  {
    sp => MappingCandidate(mapping, file, sp)
  }

  function MappingCandidates(mapping: map<string, string>, file: string, searchPaths: seq<string>): seq<string>
  {
    ConcatMap(searchPaths, MappingStep(mapping, file))
  }

  /** `getCandidatesFromMapping`. */
  method GetCandidatesFromMapping(finder: Finder, file: string, searchPaths: seq<string>)
    returns (candidates: seq<string>)
    requires finder.MappingFinder?
    ensures candidates == MappingCandidates(finder.mapping, file, searchPaths)
  {
    ghost var step := MappingStep(finder.mapping, file);
    candidates := [];
    var i := 0;
    while i < |searchPaths|
      invariant 0 <= i <= |searchPaths|
      invariant candidates == ConcatMap(searchPaths[..i], step)
    {
      var found := LookUpOnePath(finder.mapping, file, searchPaths[i]);
      ConcatMapPrefix(searchPaths, i, step);
      candidates := candidates + found;
      i := i + 1;
    }
    assert searchPaths[..i] == searchPaths;
  }

  /** The body of the search-path loop of `getCandidatesFromMapping`: look
      up `join(sp, file)` and, on a truthy entry, put the basename of the
      value behind the directory of `file` (computed here; it is the same
      for every search path). */
  method LookUpOnePath(mapping: map<string, string>, file: string, sp: string)
    returns (found: seq<string>)
    ensures found == MappingStep(mapping, file)(sp)
  {
    var dirname := Dirname(file);
    var filepath := if dirname == "." then "" else dirname + "/";
    var key := Normalize(Join([sp, file]));
    found := [];
    if key in mapping && mapping[key] != "" {
      var cfile := Basename(mapping[key]);
      found := [filepath + cfile];
    }
  }

  /** The key looked up is `join(sp, file)` itself (`join` already
      normalizes). */
  lemma MappingKeyIsJoin(sp: string, file: string)
    ensures MappingKey(sp, file) == Join([sp, file])
  {
    JoinIsNormal([sp, file]);
  }

  /** Mapping mode yields at most one candidate per search path, none at all
      exactly when no search path's key has a truthy entry, and otherwise
      first the one for the first search path whose key has one. */
  lemma MappingCandidatesSpec(mapping: map<string, string>, file: string, searchPaths: seq<string>)
    ensures |MappingCandidates(mapping, file, searchPaths)| <= |searchPaths|
    ensures MappingCandidates(mapping, file, searchPaths) == [] <==>
            forall j :: 0 <= j < |searchPaths| ==> !MappingHit(mapping, file, searchPaths[j])
    ensures forall k ::
              (0 <= k < |searchPaths| && MappingHit(mapping, file, searchPaths[k]) &&
               forall j :: 0 <= j < k ==> !MappingHit(mapping, file, searchPaths[j]))
              ==>
              (MappingCandidates(mapping, file, searchPaths) != [] &&
               MappingCandidates(mapping, file, searchPaths)[0]
                 == DirPrefix(file) + Basename(mapping[MappingKey(searchPaths[k], file)]))
  {
    var f := MappingStep(mapping, file);
    ConcatMapAtMostOne(searchPaths, f);
    ConcatMapEmpty(searchPaths, f);
    forall k | 0 <= k < |searchPaths| && MappingHit(mapping, file, searchPaths[k]) &&
               forall j :: 0 <= j < k ==> !MappingHit(mapping, file, searchPaths[j])
      ensures MappingCandidates(mapping, file, searchPaths) != [] &&
              MappingCandidates(mapping, file, searchPaths)[0]
                == DirPrefix(file) + Basename(mapping[MappingKey(searchPaths[k], file)])
    {
      ConcatMapFirst(searchPaths, f, k);
    }
  }

  // ---------------------------------------------------------------------
  // Disk mode

  /** The stem and extension of `file` the disk mode matches on. */
  function Stem(file: string): string
  {
    BasenameSuffix(file, Extname(file))
  }

  /** The two glob patterns sent to the expand callback for search path
      `sp`, both under `sp` and the directory of `file`: the stem, `.`, a
      star and the extension (suffix form), then a star, `.`, the stem and
      the extension (prefix form). */
  function SearchPatterns(sp: string, file: string): (patterns: seq<string>)
    ensures patterns == [Join([sp, Dirname(file), Stem(file) + ".*" + Extname(file)]),
                         Join([sp, Dirname(file), "*." + Stem(file) + Extname(file)])]
  {
    var ext := Extname(file);
    var base := Stem(file);
    var dirname := Dirname(file);
    [Join([sp, dirname, base + ".*" + ext]), Join([sp, dirname, "*." + base + ext])]
  }

  /** A search path whose first pattern starts with `#` (a glob comment)
      is skipped without calling the callback. */
  predicate SkipsQuery(sp: string, file: string)
  {
    StartsWith(SearchPatterns(sp, file)[0], "#")
  }

  /** A found path brought back to the form of the query: its basename,
      behind the query's directory when the query has a `/`. */
  function Requalify(file: string, found: string): string
  {
    if '/' in file then Dirname(file) + "/" + Basename(found) else Basename(found)
  }

  function RequalifyStep(file: string): string -> seq<string>
  {
    found => [Requalify(file, found)]
  }

  function RevvedFilter(base: string, ext: string): string -> seq<string>
  {
    f => if RevvedMatch(f, base, ext) then [f] else []
  }

  /** `files.filter(f => f.match(revvedRx))`. */
  function KeepRevved(files: seq<string>, base: string, ext: string): seq<string>
  {
    ConcatMap(files, RevvedFilter(base, ext))
  }

  /** What one search path contributes in disk mode. */
  function DiskCandidates(expandfn: seq<string> -> seq<string>, file: string, sp: string): seq<string>
  {
    if SkipsQuery(sp, file) then []
    else
      var good := KeepRevved(expandfn(SearchPatterns(sp, file)), Stem(file), Extname(file));
      ConcatMap(good, RequalifyStep(file))
  }

  function DiskStep(expandfn: seq<string> -> seq<string>, file: string): string -> seq<string>
  {
    sp => DiskCandidates(expandfn, file, sp)
  }

  function FsCandidates(expandfn: seq<string> -> seq<string>, file: string, searchPaths: seq<string>): seq<string>
  {
    ConcatMap(searchPaths, DiskStep(expandfn, file))
  }

  /** `getCandidatesFromFS`. */
  method GetCandidatesFromFS(finder: Finder, file: string, searchPaths: seq<string>)
    returns (candidates: seq<string>)
    requires finder.ExpandFinder?
    ensures candidates == FsCandidates(finder.expandfn, file, searchPaths)
  {
    ghost var disk := DiskStep(finder.expandfn, file);
    candidates := [];
    var i := 0;
    while i < |searchPaths|
      invariant 0 <= i <= |searchPaths|
      invariant candidates == ConcatMap(searchPaths[..i], disk)
    {
      var sp := searchPaths[i];
      var found := SearchOnePath(finder.expandfn, file, sp);
      ConcatMapPrefix(searchPaths, i, disk);
      candidates := candidates + found;
      i := i + 1;
    }
    assert searchPaths[..i] == searchPaths;
  }

  /** The body of the search-path loop of `getCandidatesFromFS`: query the
      two patterns unless the first is a glob comment, keep the revved
      names and requalify them. The extension, stem and directory of
      `file`, which the loop shares, are computed here; they are the same
      for every search path. */
  method SearchOnePath(expandfn: seq<string> -> seq<string>, file: string, sp: string)
    returns (found: seq<string>)
    ensures found == DiskStep(expandfn, file)(sp)
  {
    var extname := Extname(file);
    var basename := BasenameSuffix(file, extname);
    var dirname := Dirname(file);
    var searchString := Join([sp, dirname, basename + ".*" + extname]);
    var prefixSearchString := Join([sp, dirname, "*." + basename + extname]);
    assert [searchString, prefixSearchString] == SearchPatterns(sp, file);
    found := [];
    if !StartsWith(searchString, "#") {
      var files := expandfn([searchString, prefixSearchString]);
      var goodFiles := KeepRevved(files, basename, extname);
      var j := 0;
      while j < |goodFiles|
        invariant 0 <= j <= |goodFiles|
        invariant found == ConcatMap(goodFiles[..j], RequalifyStep(file))
      {
        ConcatMapPrefix(goodFiles, j, RequalifyStep(file));
        var goodFileName := Basename(goodFiles[j]);
        if '/' !in file {
          found := found + [goodFileName];
        } else {
          found := found + [dirname + "/" + goodFileName];
        }
        j := j + 1;
      }
      assert goodFiles[..j] == goodFiles;
    }
  }

  /** When every search path is skipped, the callback is never called and
      nothing is found, whatever it would have answered. */
  lemma FsCandidatesAllSkipped(file: string, searchPaths: seq<string>)
    requires forall j :: 0 <= j < |searchPaths| ==> SkipsQuery(searchPaths[j], file)
    ensures forall e :: FsCandidates(e, file, searchPaths) == []
  {
    forall e: seq<string> -> seq<string> ensures FsCandidates(e, file, searchPaths) == [] {
      ConcatMapEmpty(searchPaths, DiskStep(e, file));
    }
  }

  /** The callback is consulted only through the two patterns of each
      search path that is not skipped: two callbacks that agree on those
      queries yield the same candidates. */
  lemma {:induction false} FsCandidatesDependOnQueries(e1: seq<string> -> seq<string>, e2: seq<string> -> seq<string>,
                                                       file: string, searchPaths: seq<string>)
    requires forall j :: 0 <= j < |searchPaths| && !SkipsQuery(searchPaths[j], file) ==>
               e1(SearchPatterns(searchPaths[j], file)) == e2(SearchPatterns(searchPaths[j], file))
    ensures FsCandidates(e1, file, searchPaths) == FsCandidates(e2, file, searchPaths)
    decreases |searchPaths|
  {
    if searchPaths != [] {
      forall j | 0 <= j < |searchPaths[1..]| && !SkipsQuery(searchPaths[1..][j], file)
        ensures e1(SearchPatterns(searchPaths[1..][j], file)) == e2(SearchPatterns(searchPaths[1..][j], file))
      {
        assert searchPaths[1..][j] == searchPaths[j + 1];
      }
      FsCandidatesDependOnQueries(e1, e2, file, searchPaths[1..]);
      assert DiskCandidates(e1, file, searchPaths[0]) == DiskCandidates(e2, file, searchPaths[0]);
    }
  }

  /** Only names that look revved survive the filter, and all of them do,
      in their order. */
  lemma KeepRevvedSpec(files: seq<string>, base: string, ext: string)
    ensures forall f :: f in KeepRevved(files, base, ext) <==> f in files && RevvedMatch(f, base, ext)
    ensures forall a, b :: files == a + b ==>
              KeepRevved(files, base, ext) == KeepRevved(a, base, ext) + KeepRevved(b, base, ext)
  {
    var g := RevvedFilter(base, ext);
    forall a, b | files == a + b
      ensures KeepRevved(files, base, ext) == KeepRevved(a, base, ext) + KeepRevved(b, base, ext)
    {
      ConcatMapAppend(a, b, g);
    }
    forall f | f in KeepRevved(files, base, ext) ensures f in files && RevvedMatch(f, base, ext) {
      ConcatMapOrigin(files, g, f);
    }
    forall f | f in files && RevvedMatch(f, base, ext) ensures f in KeepRevved(files, base, ext) {
      var j :| 0 <= j < |files| && files[j] == f;
      ConcatMapAppend(files[..j], files[j..], g);
      assert files[..j] + files[j..] == files;
      assert files[j..] == [files[j]] + files[j + 1..];
      ConcatMapAppend([files[j]], files[j + 1..], g);
      assert ConcatMap([files[j]], g) == g(files[j]) + ConcatMap([files[j]][1..], g);
    }
  }

  /** Every disk-mode candidate is the requalified name of a file that the
      callback returned for a search path that was not skipped, and that
      looks revved. */
  lemma FsCandidateOrigin(expandfn: seq<string> -> seq<string>, file: string, searchPaths: seq<string>, c: string)
    requires c in FsCandidates(expandfn, file, searchPaths)
    ensures exists j, f :: 0 <= j < |searchPaths| && !SkipsQuery(searchPaths[j], file)
                        && f in expandfn(SearchPatterns(searchPaths[j], file))
                        && RevvedMatch(f, Stem(file), Extname(file))
                        && c == Requalify(file, f)
  {
    ConcatMapOrigin(searchPaths, DiskStep(expandfn, file), c);
    var j :| 0 <= j < |searchPaths| && c in DiskCandidates(expandfn, file, searchPaths[j]);
    var sp := searchPaths[j];
    var good := KeepRevved(expandfn(SearchPatterns(sp, file)), Stem(file), Extname(file));
    ConcatMapOrigin(good, RequalifyStep(file), c);
    var n :| 0 <= n < |good| && c in RequalifyStep(file)(good[n]);
    KeepRevvedSpec(expandfn(SearchPatterns(sp, file)), Stem(file), Extname(file));
    assert good[n] in good;
  }

  /** The callback's results for search path `sp` that pass the
      fingerprint filter. */
  function KeptResults(expandfn: seq<string> -> seq<string>, file: string, sp: string): seq<string>
  {
    KeepRevved(expandfn(SearchPatterns(sp, file)), Stem(file), Extname(file))
  }

  /** A search path contributes nothing exactly when it is skipped or none
      of the callback's results passes the filter; otherwise its first
      candidate is its first kept result, requalified. */
  lemma DiskCandidatesSpec(expandfn: seq<string> -> seq<string>, file: string, sp: string)
    ensures DiskCandidates(expandfn, file, sp) == [] <==>
            SkipsQuery(sp, file) || KeptResults(expandfn, file, sp) == []
    ensures DiskCandidates(expandfn, file, sp) != [] ==>
            DiskCandidates(expandfn, file, sp)[0] == Requalify(file, KeptResults(expandfn, file, sp)[0])
  {
    if !SkipsQuery(sp, file) {
      var good := KeptResults(expandfn, file, sp);
      assert DiskCandidates(expandfn, file, sp) == ConcatMap(good, RequalifyStep(file));
      if good != [] {
        assert ConcatMap(good, RequalifyStep(file))
            == [Requalify(file, good[0])] + ConcatMap(good[1..], RequalifyStep(file));
      }
    }
  }

  /** Every fingerprinted result of a query that is made becomes a
      candidate: the converse of FsCandidateOrigin. */
  lemma FsCandidateComplete(expandfn: seq<string> -> seq<string>, file: string, searchPaths: seq<string>,
                            j: nat, f: string)
    requires j < |searchPaths| && !SkipsQuery(searchPaths[j], file)
    requires f in expandfn(SearchPatterns(searchPaths[j], file)) && RevvedMatch(f, Stem(file), Extname(file))
    ensures Requalify(file, f) in FsCandidates(expandfn, file, searchPaths)
  {
    var sp := searchPaths[j];
    KeepRevvedSpec(expandfn(SearchPatterns(sp, file)), Stem(file), Extname(file));
    var good := KeptResults(expandfn, file, sp);
    assert f in good;
    var n :| 0 <= n < |good| && good[n] == f;
    ConcatMapIn(good, RequalifyStep(file), n, Requalify(file, f));
    assert Requalify(file, f) in DiskStep(expandfn, file)(sp);
    ConcatMapIn(searchPaths, DiskStep(expandfn, file), j, Requalify(file, f));
  }

  /** A search path that yields a disk candidate. */
  predicate DiskHit(expandfn: seq<string> -> seq<string>, file: string, sp: string)
  {
    !SkipsQuery(sp, file) && KeptResults(expandfn, file, sp) != []
  }

  /** Disk mode: no candidate exactly when no search path yields a kept
      result; otherwise the first candidate is the first kept result of the
      first search path that has one, requalified. */
  lemma FsCandidatesSpec(expandfn: seq<string> -> seq<string>, file: string, searchPaths: seq<string>)
    ensures FsCandidates(expandfn, file, searchPaths) == [] <==>
            forall j :: 0 <= j < |searchPaths| ==> !DiskHit(expandfn, file, searchPaths[j])
    ensures forall k ::
              (0 <= k < |searchPaths| && DiskHit(expandfn, file, searchPaths[k]) &&
               forall j :: 0 <= j < k ==> !DiskHit(expandfn, file, searchPaths[j]))
              ==>
              (FsCandidates(expandfn, file, searchPaths) != [] &&
               FsCandidates(expandfn, file, searchPaths)[0]
                 == Requalify(file, KeptResults(expandfn, file, searchPaths[k])[0]))
  {
    var step := DiskStep(expandfn, file);
    forall j | 0 <= j < |searchPaths|
      ensures step(searchPaths[j]) == [] <==> !DiskHit(expandfn, file, searchPaths[j])
    {
      DiskCandidatesSpec(expandfn, file, searchPaths[j]);
    }
    ConcatMapEmpty(searchPaths, step);
    forall k | 0 <= k < |searchPaths| && DiskHit(expandfn, file, searchPaths[k]) &&
               forall j :: 0 <= j < k ==> !DiskHit(expandfn, file, searchPaths[j])
      ensures FsCandidates(expandfn, file, searchPaths) != [] &&
              FsCandidates(expandfn, file, searchPaths)[0]
                == Requalify(file, KeptResults(expandfn, file, searchPaths[k])[0])
    {
      DiskCandidatesSpec(expandfn, file, searchPaths[k]);
      ConcatMapFirst(searchPaths, step, k);
    }
  }

  // ---------------------------------------------------------------------
  // find

  function Candidates(finder: Finder, file: string, searchPaths: seq<string>): seq<string>
  {
    match finder
    case MappingFinder(m) => MappingCandidates(m, file, searchPaths)
    case ExpandFinder(e) => FsCandidates(e, file, searchPaths)
  }

  /** `getRevvedCandidates`: the mapping if there is one, else the disk. */
  method GetRevvedCandidates(finder: Finder, file: string, searchPaths: seq<string>)
    returns (candidates: seq<string>)
    ensures candidates == Candidates(finder, file, searchPaths)
  {
    if finder.MappingFinder? {
      candidates := GetCandidatesFromMapping(finder, file, searchPaths);
    } else {
      candidates := GetCandidatesFromFS(finder, file, searchPaths);
    }
  }

  /** End of the run of slashes of `s` that starts at `i`. */
  function SlashRunEnd(s: string, i: nat): (n: nat)
    requires i <= |s|
    ensures i <= n <= |s|
    ensures forall j :: i <= j < n ==> s[j] == '/'
    ensures n == |s| || s[n] != '/'
    decreases |s| - i
  {
    if i < |s| && s[i] == '/' then SlashRunEnd(s, i + 1) else i
  }

  /** The leading run of slashes of `s` and what follows it. */
  function SplitLeadingSlashes(s: string): (parts: (string, string))
    ensures parts.0 + parts.1 == s
    ensures forall j :: 0 <= j < |parts.0| ==> parts.0[j] == '/'
    ensures parts.1 == "" || parts.1[0] != '/'
  {
    var n := SlashRunEnd(s, 0);
    assert s[..n] + s[n..] == s;
    (s[..n], s[n..])
  }

  /** The candidates `getRevvedCandidates` yields for a relative name, over
      the search paths of `searchDirs`. */
  function Lookup(finder: Finder, searchDirs: SearchDirs): string -> seq<string>
  {
    file => Candidates(finder, file, SearchPaths(searchDirs))
  }

  /** What `find` returns, given the candidates `lookup` yields for the
      reference without its leading slashes. */
  function Resolve(ofile: string, lookup: string -> seq<string>): string
  {
    if Contains(ofile, "://") || ofile == "" then ofile
    else
      var parts := SplitLeadingSlashes(ofile);
      var filepaths := lookup(parts.1);
      if filepaths == [] || filepaths[0] == "" then ofile else parts.0 + filepaths[0]
  }

  /** `find(ofile, searchDirs)`. */
  method Find(finder: Finder, ofile: string, searchDirs: SearchDirs) returns (r: string)
    ensures r == Resolve(ofile, Lookup(finder, searchDirs))
  {
    var file := ofile;
    var searchPaths := if searchDirs.OneDir? then [searchDirs.dir] else searchDirs.dirs;
    if Contains(ofile, "://") || ofile == "" {
      return ofile;
    }
    var absolute := false;
    var prefix := "";
    if file[0] == '/' {
      absolute := true;
      var parts := SplitLeadingSlashes(file);
      prefix, file := parts.0, parts.1;
    }
    var filepaths := GetRevvedCandidates(finder, file, searchPaths);
    assert filepaths == Lookup(finder, searchDirs)(file);
    if filepaths == [] || filepaths[0] == "" {
      return ofile;
    }
    var filepath := filepaths[0];
    if absolute {
      filepath := prefix + filepath;
    }
    return filepath;
  }

  // ---------------------------------------------------------------------
  // Properties of find

  lemma {:induction false} SlashRunEndOf(p: string, rel: string, i: nat)
    requires i <= |p|
    requires forall j :: 0 <= j < |p| ==> p[j] == '/'
    requires rel == "" || rel[0] != '/'
    ensures SlashRunEnd(p + rel, i) == |p|
    decreases |p| - i
  {
    if i < |p| {
      assert (p + rel)[i] == p[i];
      SlashRunEndOf(p, rel, i + 1);
    } else if rel != "" {
      assert (p + rel)[i] == rel[0];
    }
  }

  lemma SplitLeadingSlashesOf(p: string, rel: string)
    requires forall j :: 0 <= j < |p| ==> p[j] == '/'
    requires rel == "" || rel[0] != '/'
    ensures SplitLeadingSlashes(p + rel) == (p, rel)
  {
    SlashRunEndOf(p, rel, 0);
    assert (p + rel)[..|p|] == p && (p + rel)[|p|..] == rel;
  }

  lemma {:induction false} SchemeNotInSlashes(p: string, rel: string)
    requires forall j :: 0 <= j < |p| ==> p[j] == '/'
    ensures Contains(p + rel, "://") <==> Contains(rel, "://")
    decreases |p|
  {
    if p != "" {
      assert (p + rel)[1..] == p[1..] + rel;
      assert (p + rel)[0] == '/' && "://"[0] == ':';
      assert !StartsWith(p + rel, "://");
      SchemeNotInSlashes(p[1..], rel);
    } else {
      assert p + rel == rel;
    }
  }

  /** An absolute reference resolves like its relative part, with exactly
      its leading slashes put back in front. */
  lemma ResolveAbsolute(lookup: string -> seq<string>, slashes: string, rel: string)
    requires slashes != "" && forall j :: 0 <= j < |slashes| ==> slashes[j] == '/'
    requires rel != "" && rel[0] != '/'
    ensures Resolve(slashes + rel, lookup) == slashes + Resolve(rel, lookup)
  {
    SchemeNotInSlashes(slashes, rel);
    SplitLeadingSlashesOf(slashes, rel);
    SplitLeadingSlashesOf("", rel);
    assert "" + rel == rel;
    var cs := lookup(rel);
    if !Contains(rel, "://") && cs != [] && cs[0] != "" {
      assert "" + cs[0] == cs[0];
    }
  }

  lemma CandidatesAppend(finder: Finder, file: string, a: seq<string>, b: seq<string>)
    ensures Candidates(finder, file, a + b) == Candidates(finder, file, a) + Candidates(finder, file, b)
  {
    match finder
    case MappingFinder(m) => ConcatMapAppend(a, b, MappingStep(m, file));
    case ExpandFinder(e) => ConcatMapAppend(a, b, DiskStep(e, file));
  }

  /** Search paths are tried in order: once the earlier ones yield a
      candidate, the later ones cannot change the result. */
  lemma ResolveEarlierPathsWin(finder: Finder, ofile: string, a: seq<string>, b: seq<string>)
    requires Candidates(finder, SplitLeadingSlashes(ofile).1, a) != []
    ensures Resolve(ofile, Lookup(finder, DirList(a + b))) == Resolve(ofile, Lookup(finder, DirList(a)))
  {
    var rel := SplitLeadingSlashes(ofile).1;
    CandidatesAppend(finder, rel, a, b);
    assert Lookup(finder, DirList(a + b))(rel)[0] == Lookup(finder, DirList(a))(rel)[0];
  }

  /** An external reference (one containing `://`) and the empty
      reference come back unchanged, whatever the locator yields. */
  lemma ResolvePassThrough(lookup: string -> seq<string>, ofile: string)
    requires Contains(ofile, "://") || ofile == ""
    ensures Resolve(ofile, lookup) == ofile
  {
  }

  /** A reference for which no candidate is yielded comes back unchanged. */
  lemma ResolveNothingFound(lookup: string -> seq<string>, ofile: string)
    requires lookup(SplitLeadingSlashes(ofile).1) == []
    ensures Resolve(ofile, lookup) == ofile
  {
  }

  /** A reference that is neither external nor empty, and for which the
      first candidate is a non-empty `c`, resolves to its leading slashes
      followed by `c`. */
  lemma ResolveFound(lookup: string -> seq<string>, ofile: string, c: string)
    requires ofile != "" && !Contains(ofile, "://")
    requires lookup(SplitLeadingSlashes(ofile).1) != [] && lookup(SplitLeadingSlashes(ofile).1)[0] == c
    requires c != ""
    ensures Resolve(ofile, lookup) == SplitLeadingSlashes(ofile).0 + c
  {
  }

  lemma BasenameOfName(s: string)
    requires '/' !in s
    ensures Basename(s) == s
  {
    var b := NameBounds(s);
  }

  /** The name the callback reports in disk mode for a bare file name
      and fingerprint `hash`, in either layout. */
  function RevvedName(file: string, hash: string, suffixForm: bool): string
  {
    if suffixForm then Stem(file) + "." + hash + Extname(file)
    else hash + "." + Stem(file) + Extname(file)
  }

  /** A revved name built from a bare file name has no `/`, and it passes
      the fingerprint filter. */
  lemma RevvedNameIsKept(file: string, hash: string, suffixForm: bool)
    requires '/' !in file
    requires hash != [] && forall j :: 0 <= j < |hash| ==> IsHexDigit(hash[j])
    ensures '/' !in RevvedName(file, hash, suffixForm)
    ensures RevvedMatch(RevvedName(file, hash, suffixForm), Stem(file), Extname(file))
  {
    var ext := Extname(file);
    var base := Stem(file);
    BasenameExtname(file);
    BasenameOfName(file);
    assert '/' !in base + ext;
    assert '/' !in base by { forall c | c in base ensures c != '/' { assert c in base + ext; } }
    assert '/' !in ext by { forall c | c in ext ensures c != '/' { assert c in base + ext; } }
    assert '/' !in hash by {
      forall c | c in hash ensures c != '/' {
        var j :| 0 <= j < |hash| && hash[j] == c;
        assert IsHexDigit(hash[j]);
      }
    }
    RevvedNamesMatch(base, ext, hash, ext);
  }

  /** The only search path then contributes exactly that name. */
  lemma DiskBareNameCandidates(expandfn: seq<string> -> seq<string>, file: string, sp: string, hash: string, suffixForm: bool)
    requires '/' !in file
    requires hash != [] && forall j :: 0 <= j < |hash| ==> IsHexDigit(hash[j])
    requires !SkipsQuery(sp, file)
    requires expandfn(SearchPatterns(sp, file)) == [RevvedName(file, hash, suffixForm)]
    ensures FsCandidates(expandfn, file, [sp]) == [RevvedName(file, hash, suffixForm)]
  {
    var found := RevvedName(file, hash, suffixForm);
    RevvedNameIsKept(file, hash, suffixForm);
    BasenameOfName(found);
    var g := RevvedFilter(Stem(file), Extname(file));
    assert KeepRevved([found], Stem(file), Extname(file)) == g(found) + ConcatMap([found][1..], g);
    var q := RequalifyStep(file);
    assert Requalify(file, found) == found;
    assert ConcatMap([found], q) == q(found) + ConcatMap([found][1..], q);
    assert DiskCandidates(expandfn, file, sp) == ConcatMap([found], q);
    var step := DiskStep(expandfn, file);
    assert FsCandidates(expandfn, file, [sp]) == step(sp) + ConcatMap([sp][1..], step);
  }

  /** Disk mode, a bare file name: whichever fingerprint layout the
      callback reports for the only search path, `find` returns that name. */
  lemma ResolveDiskBareName(expandfn: seq<string> -> seq<string>, file: string, sp: string, hash: string, suffixForm: bool)
    requires file != "" && '/' !in file && !Contains(file, "://")
    requires hash != [] && forall j :: 0 <= j < |hash| ==> IsHexDigit(hash[j])
    requires !SkipsQuery(sp, file)
    requires expandfn(SearchPatterns(sp, file)) == [RevvedName(file, hash, suffixForm)]
    ensures Resolve(file, Lookup(ExpandFinder(expandfn), OneDir(sp))) == RevvedName(file, hash, suffixForm)
  {
    var found := RevvedName(file, hash, suffixForm);
    DiskBareNameCandidates(expandfn, file, sp, hash, suffixForm);
    SplitLeadingSlashesOf("", file);
    assert "" + file == file;
    ResolveFound(Lookup(ExpandFinder(expandfn), OneDir(sp)), file, found);
    assert "" + found == found;
  }

  /** Mapping mode: the first search path whose key has a truthy entry
      decides; `find` returns the query's directory and the basename of the
      mapped value, behind the leading slashes of the query. */
  lemma ResolveMapping(mapping: map<string, string>, ofile: string, searchPaths: seq<string>, k: nat)
    requires ofile != "" && !Contains(ofile, "://")
    requires k < |searchPaths| && MappingHit(mapping, SplitLeadingSlashes(ofile).1, searchPaths[k])
    requires forall j :: 0 <= j < k ==> !MappingHit(mapping, SplitLeadingSlashes(ofile).1, searchPaths[j])
    ensures var parts := SplitLeadingSlashes(ofile);
            var c := DirPrefix(parts.1) + Basename(mapping[MappingKey(searchPaths[k], parts.1)]);
            Resolve(ofile, Lookup(MappingFinder(mapping), DirList(searchPaths))) == if c == "" then ofile else parts.0 + c
  {
    MappingCandidatesSpec(mapping, SplitLeadingSlashes(ofile).1, searchPaths);
  }

  /** Disk mode: the first search path with a kept result decides; `find`
      returns its first kept result, requalified, behind the leading slashes
      of the query. */
  lemma ResolveDisk(expandfn: seq<string> -> seq<string>, ofile: string, searchPaths: seq<string>, k: nat)
    requires ofile != "" && !Contains(ofile, "://")
    requires k < |searchPaths| && DiskHit(expandfn, SplitLeadingSlashes(ofile).1, searchPaths[k])
    requires forall j :: 0 <= j < k ==> !DiskHit(expandfn, SplitLeadingSlashes(ofile).1, searchPaths[j])
    ensures var parts := SplitLeadingSlashes(ofile);
            var c := Requalify(parts.1, KeptResults(expandfn, parts.1, searchPaths[k])[0]);
            Resolve(ofile, Lookup(ExpandFinder(expandfn), DirList(searchPaths))) == if c == "" then ofile else parts.0 + c
  {
    FsCandidatesSpec(expandfn, SplitLeadingSlashes(ofile).1, searchPaths);
  }

  /** Both forms of `revvedRx` put a dot right before the stem or right
      before the hex run; a name whose every dot is followed by neither is
      rejected. */
  lemma NoDotBeforeHashOrStem(f: string, base: string, ext: string)
    requires base != ""
    requires forall j :: 0 <= j < |f| && f[j] == '.' ==>
               j + 1 < |f| && !IsHexDigit(f[j + 1]) && f[j + 1] != base[0]
    ensures !RevvedMatch(f, base, ext)
  {
    RevvedMatchIff(f, base, ext);
    forall i, k ensures !PrefixForm(f, base, i, k) {
      if IsHexRun(f, i, k) && k < |f| && f[k] == '.' {
        assert f[k + 1] != ("." + base)[1];
      }
    }
    forall i, k ensures !SuffixForm(f, base, ext, i, k) {
      if 0 <= i && i + |base| < |f| && f[i + |base|] == '.' {
        assert !IsHexDigit(f[i + |base| + 1]);
      }
    }
  }

  /** Names without a hex run next to the stem are rejected: `bar-fred.html`
      and `fred.html` for the query `fred.html`. */
  lemma UnrevvedNamesRejected()
    ensures !RevvedMatch("bar-fred.html", "fred", ".html")
    ensures !RevvedMatch("fred.html", "fred", ".html")
  {
    NoDotBeforeHashOrStem("bar-fred.html", "fred", ".html");
    NoDotBeforeHashOrStem("fred.html", "fred", ".html");
  }
}
