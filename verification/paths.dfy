/** The POSIX flavour of Node's `path` module, as far as the revved-file
    finder and the step configuration generators use it: `join`,
    `normalize`, `dirname`, `basename` (with and without a suffix) and
    `extname`. Paths are `/`-separated strings. */
module Paths {
  import opened Seqs

  /** `s.split('/')`: the pieces between slashes, empty ones included. */
  function Split(s: string): (parts: seq<string>)
    ensures |parts| >= 1
    decreases |s|
  {
    if s == "" then [""]
    else
      var rest := Split(s[1..]);
      if s[0] == '/' then [""] + rest
      else [[s[0]] + rest[0]] + rest[1..]
  }

  /** `parts.join('/')`. */
  function Unsplit(parts: seq<string>): string
    decreases |parts|
  {
    if parts == [] then ""
    else if |parts| == 1 then parts[0]
    else parts[0] + "/" + Unsplit(parts[1..])
  }

  /** A path segment as `normalize` keeps it. */
  predicate IsName(seg: string)
  {
    seg != "" && seg != "." && '/' !in seg
  }

  /** The segment stack `normalize` builds: every segment a name, the `..`
      segments (allowed only for relative paths) all in front. */
  ghost predicate Canonical(segs: seq<string>, allowAboveRoot: bool)
  {
    && (forall i :: 0 <= i < |segs| ==> IsName(segs[i]))
    && (forall i, j :: 0 <= i < j < |segs| && segs[j] == ".." ==> segs[i] == "..")
    && (!allowAboveRoot ==> ".." !in segs)
  }

  /** The segment loop of `normalize`: empty and `.` segments vanish, `..`
      removes the previous name, or is kept (relative paths only) when
      there is no name left to remove. */
  function NormalizeSegments(stack: seq<string>, segs: seq<string>, allowAboveRoot: bool): seq<string>
    decreases |segs|
  {
    if segs == [] then stack
    else
      var seg := segs[0];
      if seg == "" || seg == "." then NormalizeSegments(stack, segs[1..], allowAboveRoot)
      else if seg == ".." then
        if stack != [] && stack[|stack| - 1] != ".." then
          NormalizeSegments(stack[..|stack| - 1], segs[1..], allowAboveRoot)
        else if allowAboveRoot then NormalizeSegments(stack + [".."], segs[1..], allowAboveRoot)
        else NormalizeSegments(stack, segs[1..], allowAboveRoot)
      else NormalizeSegments(stack + [seg], segs[1..], allowAboveRoot)
  }

  /** `path.normalize(p)`: resolves `.` and `..`, collapses repeated
      slashes, keeps one leading and one trailing slash. */
  function Normalize(p: string): (r: string)
    ensures r != ""
  {
    if p == "" then "."
    else
      var isAbsolute := p[0] == '/';
      var trailingSeparator := p[|p| - 1] == '/';
      var path := Unsplit(NormalizeSegments([], Split(p), !isAbsolute));
      if path == "" then
        (if isAbsolute then "/" else if trailingSeparator then "./" else ".")
      else
        (if isAbsolute then "/" else "") + path + (if trailingSeparator then "/" else "")
  }

  /** The non-empty strings of `parts`, in order. */
  function NonEmpty(parts: seq<string>): (r: seq<string>)
    ensures forall i :: 0 <= i < |r| ==> r[i] != ""
    decreases |parts|
  {
    if parts == [] then []
    else if parts[0] == "" then NonEmpty(parts[1..])
    else [parts[0]] + NonEmpty(parts[1..])
  }

  /** `path.join(...parts)`: the non-empty arguments joined by `/` and
      normalized; `.` when there are none. */
  function Join(parts: seq<string>): (r: string)
    ensures r != ""
  {
    var joined := NonEmpty(parts);
    if joined == [] then "." else Normalize(Unsplit(joined))
  }

  /** Length of `p[..n]` once its trailing slashes are dropped, without
      going below `lo`. */
  function TrimmedEnd(p: string, n: nat, lo: nat): (m: nat)
    requires n <= |p|
    ensures m <= n
    ensures m <= lo || p[m - 1] != '/'
    ensures forall j :: m <= j < n ==> p[j] == '/'
    ensures n <= lo ==> m == n
    ensures lo <= n ==> lo <= m
    decreases n
  {
    if n <= lo || p[n - 1] != '/' then n else TrimmedEnd(p, n - 1, lo)
  }

  /** Index of the last `c` in `p[..n]`, or -1 if there is none. */
  function LastIndexBelow(p: string, c: char, n: nat): (i: int)
    requires n <= |p|
    ensures -1 <= i < n
    ensures i >= 0 ==> p[i] == c
    ensures forall j :: i < j < n ==> p[j] != c
    decreases n
  {
    if n == 0 then -1 else if p[n - 1] == c then n - 1 else LastIndexBelow(p, c, n - 1)
  }

  /** `path.dirname(p)`. */
  function Dirname(p: string): (r: string)
    ensures r != ""
  {
    if p == "" then "."
    else
      var hasRoot := p[0] == '/';
      var n := TrimmedEnd(p, |p|, 1);
      var e := LastIndexBelow(p, '/', n);
      if e < 1 then (if hasRoot then "/" else ".")
      else if hasRoot && e == 1 then "//"
      else p[..e]
  }

  /** Start and end of the last name of `p` (trailing slashes ignored). */
  function NameBounds(p: string): (b: (nat, nat))
    ensures b.0 <= b.1 <= |p|
    ensures forall j :: b.0 <= j < b.1 ==> p[j] != '/'
    ensures b.0 > 0 ==> p[b.0 - 1] == '/'
    ensures forall j :: b.1 <= j < |p| ==> p[j] == '/'
    ensures b.1 == 0 || p[b.1 - 1] != '/'
  {
    var n := TrimmedEnd(p, |p|, 0);
    (LastIndexBelow(p, '/', n) + 1, n)
  }

  /** `path.basename(p)`: the last name, without trailing slashes. */
  function Basename(p: string): (r: string)
    ensures '/' !in r
  {
    var b := NameBounds(p);
    p[b.0..b.1]
  }

  /** `path.extname(p)`: from the last `.` of the last name on, unless that
      dot opens the name or the name is `..`. */
  function Extname(p: string): (r: string)
    ensures r == "" || (r[0] == '.' && |r| < |Basename(p)| && Basename(p)[|Basename(p)| - |r|..] == r)
  {
    var b := Basename(p);
    var d := LastIndexBelow(b, '.', |b|);
    if d <= 0 || b == ".." then "" else b[d..]
  }

  /** `path.basename(p, suffix)`: the last name with `suffix` cut off when it
      ends with it (and is longer). Node's scan has two quirks kept here:
      `suffix == p` gives "", and a name that is itself a proper tail of
      `suffix` is returned with its trailing slashes. */
  function BasenameSuffix(p: string, suffix: string): (r: string)
    ensures suffix == "" ==> r == Basename(p)
    ensures suffix != "" && |suffix| < |Basename(p)| && Basename(p)[|Basename(p)| - |suffix|..] == suffix
            ==> r + suffix == Basename(p)
    ensures || r == Basename(p)
            || r + suffix == Basename(p)
            || r == ""
            || (StartsWith(r, Basename(p)) && forall j :: |Basename(p)| <= j < |r| ==> r[j] == '/')
  {
    if suffix == "" || |suffix| > |p| then Basename(p)
    else if suffix == p then ""
    else
      var bounds := NameBounds(p);
      var b := p[bounds.0..bounds.1];
      if |suffix| < |b| && b[|b| - |suffix|..] == suffix then b[..|b| - |suffix|]
      else if |b| < |suffix| && suffix[|suffix| - |b|..] == b then p[bounds.0..]
      else b
  }

  // ---------------------------------------------------------------------
  // Properties

  /** The file name `basename(p, extname(p))` followed by `extname(p)` is the
      whole last name: the finder's split of a name into stem and
      extension loses nothing. */
  lemma BasenameExtname(p: string)
    ensures BasenameSuffix(p, Extname(p)) + Extname(p) == Basename(p)
  {
    var ext := Extname(p);
    if ext != "" {
      var bounds := NameBounds(p);
      var b := p[bounds.0..bounds.1];
      assert b == Basename(p);
      assert |ext| < |b| <= |p|;
      assert b[..|b| - |ext|] + ext == b;
    }
  }

  /** A relative path that does not end in `/` is its directory, a `/` and
      its last name; without any `/` its directory is `.`. */
  lemma DirnameBasename(p: string)
    requires p != "" && p[0] != '/' && p[|p| - 1] != '/'
    ensures '/' !in p ==> Dirname(p) == "." && Basename(p) == p
    ensures '/' in p ==> Dirname(p) + "/" + Basename(p) == p
  {
    var n := TrimmedEnd(p, |p|, 1);
    assert n == |p|;
    var e := LastIndexBelow(p, '/', n);
    assert NameBounds(p) == (e + 1, |p|);
    if '/' in p {
      var k :| 0 <= k < |p| && p[k] == '/';
      assert e >= k;
      assert p[..e] + "/" + p[e + 1..] == p;
    } else {
      assert e == -1;
    }
  }

  // --- split and join of segments

  lemma {:induction false} SplitNoSlash(s: string)
    requires '/' !in s
    ensures Split(s) == [s]
    decreases |s|
  {
    if s != "" {
      assert '/' !in s[1..] by {
        forall c | c in s[1..] ensures c != '/' { assert c in s; }
      }
      SplitNoSlash(s[1..]);
      assert [s[0]] + s[1..] == s;
    }
  }

  lemma {:induction false} SplitSlash(x: string, y: string)
    ensures Split(x + "/" + y) == Split(x) + Split(y)
    decreases |x|
  {
    if x == "" {
      assert x + "/" + y == "/" + y;
      assert ("/" + y)[1..] == y;
    } else {
      assert (x + "/" + y)[1..] == x[1..] + "/" + y;
      SplitSlash(x[1..], y);
    }
  }

  /** Joining names with `/` and splitting again gives the names back. */
  lemma {:induction false} SplitUnsplit(parts: seq<string>)
    requires |parts| >= 1
    requires forall i :: 0 <= i < |parts| ==> '/' !in parts[i]
    ensures Split(Unsplit(parts)) == parts
    decreases |parts|
  {
    if |parts| == 1 {
      SplitNoSlash(parts[0]);
    } else {
      SplitSlash(parts[0], Unsplit(parts[1..]));
      SplitNoSlash(parts[0]);
      SplitUnsplit(parts[1..]);
    }
  }

  /** Joined names are empty only when there are none; otherwise the joined
      string starts and ends with a name character. */
  lemma {:induction false} UnsplitEnds(parts: seq<string>)
    requires forall i :: 0 <= i < |parts| ==> IsName(parts[i])
    ensures (Unsplit(parts) == "") == (parts == [])
    ensures parts != [] ==> Unsplit(parts)[0] != '/'
    ensures parts != [] ==> Unsplit(parts)[|Unsplit(parts)| - 1] != '/'
    decreases |parts|
  {
    if |parts| == 1 {
      assert parts[0][0] in parts[0];
      assert parts[0][|parts[0]| - 1] in parts[0];
    } else if |parts| > 1 {
      UnsplitEnds(parts[1..]);
      assert parts[0][0] in parts[0];
    }
  }

  lemma {:induction false} SplitHasNoSlash(s: string)
    ensures forall i :: 0 <= i < |Split(s)| ==> '/' !in Split(s)[i]
    decreases |s|
  {
    if s != "" {
      SplitHasNoSlash(s[1..]);
      var rest := Split(s[1..]);
      if s[0] != '/' {
        assert '/' !in [s[0]] + rest[0];
      }
    }
  }

  // --- the segment loop

  lemma {:induction false} NormalizeSegmentsAppend(stack: seq<string>, a: seq<string>, b: seq<string>, allow: bool)
    ensures NormalizeSegments(stack, a + b, allow) == NormalizeSegments(NormalizeSegments(stack, a, allow), b, allow)
    decreases |a|
  {
    if a == [] {
      assert a + b == b;
    } else {
      assert (a + b)[0] == a[0];
      assert (a + b)[1..] == a[1..] + b;
      var seg := a[0];
      if seg == "" || seg == "." {
        NormalizeSegmentsAppend(stack, a[1..], b, allow);
      } else if seg == ".." {
        if stack != [] && stack[|stack| - 1] != ".." {
          NormalizeSegmentsAppend(stack[..|stack| - 1], a[1..], b, allow);
        } else if allow {
          NormalizeSegmentsAppend(stack + [".."], a[1..], b, allow);
        } else {
          NormalizeSegmentsAppend(stack, a[1..], b, allow);
        }
      } else {
        NormalizeSegmentsAppend(stack + [seg], a[1..], b, allow);
      }
    }
  }

  /** Segments free of `/` always leave a canonical stack behind. */
  lemma {:induction false} NormalizeSegmentsCanonical(stack: seq<string>, segs: seq<string>, allow: bool)
    requires Canonical(stack, allow)
    requires forall i :: 0 <= i < |segs| ==> '/' !in segs[i]
    ensures Canonical(NormalizeSegments(stack, segs, allow), allow)
    decreases |segs|
  {
    if segs != [] {
      var seg := segs[0];
      forall i | 0 <= i < |segs[1..]| ensures '/' !in segs[1..][i] {
        assert segs[1..][i] == segs[i + 1];
      }
      if seg == "" || seg == "." {
        NormalizeSegmentsCanonical(stack, segs[1..], allow);
      } else if seg == ".." {
        if stack != [] && stack[|stack| - 1] != ".." {
          NormalizeSegmentsCanonical(stack[..|stack| - 1], segs[1..], allow);
        } else if allow {
          var s' := stack + [".."];
          forall i, j | 0 <= i < j < |s'| && s'[j] == ".." ensures s'[i] == ".." {
            if j < |stack| {
            } else if stack != [] {
              assert stack[|stack| - 1] == "..";
              if i < |stack| - 1 { assert stack[i] == ".."; }
            }
          }
          NormalizeSegmentsCanonical(s', segs[1..], allow);
        } else {
          NormalizeSegmentsCanonical(stack, segs[1..], allow);
        }
      } else {
        var s' := stack + [seg];
        assert IsName(seg);
        NormalizeSegmentsCanonical(s', segs[1..], allow);
      }
    }
  }

  /** A canonical stack followed by segments that keep it canonical is
      left exactly as it is. */
  lemma {:induction false} NormalizeSegmentsKeeps(stack: seq<string>, segs: seq<string>, allow: bool)
    requires Canonical(stack + segs, allow)
    ensures NormalizeSegments(stack, segs, allow) == stack + segs
    decreases |segs|
  {
    if segs == [] {
      assert stack + segs == stack;
    } else {
      var seg := segs[0];
      var all := stack + segs;
      assert all[|stack|] == seg;
      assert IsName(seg);
      assert stack + [seg] + segs[1..] == all;
      if seg == ".." {
        assert allow;
        if stack != [] {
          assert all[|stack| - 1] == "..";
        }
      }
      NormalizeSegmentsKeeps(stack + [seg], segs[1..], allow);
    }
  }

  /** The three results `normalize` gives when no name is left are fixed
      points. */
  lemma NormalizeShortForms()
    ensures Normalize("/") == "/" && Normalize("./") == "./" && Normalize(".") == "."
  {
    SplitNoSlash(".");
    SplitSlash(".", "");
    assert "./" == "." + "/" + "";
    SplitSlash("", "");
    assert "/" == "" + "/" + "";
  }

  lemma SplitLeadingSlash(y: string)
    ensures Split("/" + y) == [""] + Split(y)
  {
    SplitSlash("", y);
    assert "" + "/" + y == "/" + y;
  }

  lemma SplitTrailingSlash(x: string)
    ensures Split(x + "/") == Split(x) + [""]
  {
    SplitSlash(x, "");
    assert x + "/" + "" == x + "/";
  }

  lemma SplitBothSlashes(path: string)
    ensures Split("/" + path + "/") == [""] + Split(path) + [""]
  {
    SplitTrailingSlash(path);
    SplitLeadingSlash(path + "/");
    assert "/" + path + "/" == "/" + (path + "/");
  }

  /** A leading and a trailing `/` each add one empty piece to the split. */
  lemma SplitFramed(path: string, isAbsolute: bool, trailing: bool)
    ensures Split((if isAbsolute then "/" else "") + path + (if trailing then "/" else ""))
         == (if isAbsolute then [""] else []) + Split(path) + (if trailing then [""] else [])
  {
    if isAbsolute && trailing {
      SplitBothSlashes(path);
    } else if isAbsolute {
      SplitLeadingSlash(path);
      assert "/" + path + "" == "/" + path;
    } else if trailing {
      SplitTrailingSlash(path);
      assert "" + path + "/" == path + "/";
    } else {
      assert "" + path + "" == path;
    }
  }

  /** The segment loop drops the empty pieces around a canonical list and
      keeps the list. */
  lemma NormalizeSegmentsFramed(pre: seq<string>, segs: seq<string>, post: seq<string>, allow: bool)
    requires pre == [] || pre == [""]
    requires post == [] || post == [""]
    requires Canonical(segs, allow)
    ensures NormalizeSegments([], pre + segs + post, allow) == segs
  {
    NormalizeSegmentsAppend([], pre, segs + post, allow);
    assert pre + (segs + post) == pre + segs + post;
    assert NormalizeSegments([], pre, allow) == [];
    NormalizeSegmentsAppend([], segs, post, allow);
    assert [] + segs == segs;
    NormalizeSegmentsKeeps([], segs, allow);
  }

  /** A canonical, non-empty segment list joined with `/`, with the leading
      and trailing slash `normalize` puts back, normalizes to itself. */
  lemma NormalizeRebuilt(segs: seq<string>, isAbsolute: bool, trailing: bool)
    requires segs != [] && Canonical(segs, !isAbsolute)
    ensures var r := (if isAbsolute then "/" else "") + Unsplit(segs) + (if trailing then "/" else "");
            Normalize(r) == r
  {
    var path := Unsplit(segs);
    UnsplitEnds(segs);
    var r := (if isAbsolute then "/" else "") + path + (if trailing then "/" else "");
    var pre: seq<string> := if isAbsolute then [""] else [];
    var post: seq<string> := if trailing then [""] else [];
    assert r[0] == '/' <==> isAbsolute;
    assert r[|r| - 1] == '/' <==> trailing;
    SplitUnsplit(segs);
    SplitFramed(path, isAbsolute, trailing);
    NormalizeSegmentsFramed(pre, segs, post, !isAbsolute);
  }

  /** `normalize` is idempotent: its results are already normal. */
  lemma NormalizeIdempotent(p: string)
    ensures Normalize(Normalize(p)) == Normalize(p)
  {
    NormalizeShortForms();
    if p != "" {
      var isAbsolute := p[0] == '/';
      var trailing := p[|p| - 1] == '/';
      var segs := NormalizeSegments([], Split(p), !isAbsolute);
      SplitHasNoSlash(p);
      NormalizeSegmentsCanonical([], Split(p), !isAbsolute);
      UnsplitEnds(segs);
      if segs != [] {
        NormalizeRebuilt(segs, isAbsolute, trailing);
      }
    }
  }

  /** What `join` returns is already normal, so normalizing it again (as the
      mapping lookup of the finder does) changes nothing. */
  lemma JoinIsNormal(parts: seq<string>)
    ensures Normalize(Join(parts)) == Join(parts)
  {
    var joined := NonEmpty(parts);
    if joined == [] {
      SplitNoSlash(".");
    } else {
      NormalizeIdempotent(Unsplit(joined));
    }
  }

  // --- climbing out of a directory with `..`

  /** `k` copies of `../`. */
  function Ups(k: nat): string
  {
    if k == 0 then "" else "../" + Ups(k - 1)
  }

  /** `k` segments `..`. */
  function Dots(k: nat): seq<string>
  {
    seq(k, _ => "..")
  }

  lemma {:induction false} SplitUps(k: nat, y: string)
    ensures Split(Ups(k) + y) == Dots(k) + Split(y)
  {
    if k == 0 {
      assert Ups(0) + y == y;
      assert Dots(0) + Split(y) == Split(y);
    } else {
      var z := Ups(k - 1) + y;
      calc {
        Split(Ups(k) + y);
      == { assert Ups(k) + y == ".." + "/" + z; }
        Split(".." + "/" + z);
      == { SplitSlash("..", z); }
        Split("..") + Split(z);
      == { SplitNoSlash(".."); SplitUps(k - 1, y); }
        [".."] + (Dots(k - 1) + Split(y));
      == { assert Dots(k) == [".."] + Dots(k - 1); }
        Dots(k) + Split(y);
      }
    }
  }

  /** Each `..` removes the name on top of a stack of names. */
  lemma {:induction false} NormalizeSegmentsPops(stack: seq<string>, k: nat, allow: bool)
    requires k <= |stack|
    requires forall i :: 0 <= i < |stack| ==> stack[i] != ".."
    ensures NormalizeSegments(stack, Dots(k), allow) == stack[..|stack| - k]
  {
    if k > 0 {
      assert Dots(k)[0] == ".." && Dots(k)[1..] == Dots(k - 1);
      var popped := stack[..|stack| - 1];
      NormalizeSegmentsPops(popped, k - 1, allow);
      assert popped[..|popped| - (k - 1)] == stack[..|stack| - k];
    }
  }

  /** The pieces of a directory of names, the climbs out of it and the
      path that follows. */
  lemma SplitClimb(names: seq<string>, rest: string)
    requires names != []
    requires forall i :: 0 <= i < |names| ==> IsName(names[i])
    ensures Split(Unsplit(names) + "/" + (Ups(|names|) + rest)) == names + Dots(|names|) + Split(rest)
  {
    SplitUnsplit(names);
    SplitSlash(Unsplit(names), Ups(|names|) + rest);
    SplitUps(|names|, rest);
  }

  /** On the segment stack, the names are pushed and the `..` pop them all. */
  lemma NormalizeSegmentsClimb(names: seq<string>, segs: seq<string>)
    requires forall i :: 0 <= i < |names| ==> IsName(names[i]) && names[i] != ".."
    ensures NormalizeSegments([], names + Dots(|names|) + segs, true) == NormalizeSegments([], segs, true)
  {
    NormalizeSegmentsAppend([], names + Dots(|names|), segs, true);
    NormalizeSegmentsAppend([], names, Dots(|names|), true);
    assert [] + names == names;
    NormalizeSegmentsKeeps([], names, true);
    NormalizeSegmentsPops(names, |names|, true);
    assert names[..0] == [];
  }

  /** Non-empty parts are all kept. */
  lemma {:induction false} NonEmptyKeeps(parts: seq<string>)
    requires forall i :: 0 <= i < |parts| ==> parts[i] != ""
    ensures NonEmpty(parts) == parts
    decreases |parts|
  {
    if parts != [] {
      NonEmptyKeeps(parts[1..]);
      assert [parts[0]] + parts[1..] == parts;
    }
  }

  /** `join` of two non-empty parts normalizes them joined by `/`. */
  lemma JoinTwo(d: string, x: string)
    requires d != "" && x != ""
    ensures Join([d, x]) == Normalize(d + "/" + x)
  {
    NonEmptyKeeps([d, x]);
    assert Unsplit([d, x]) == d + "/" + Unsplit([x]);
  }

  /** `join` of one non-empty part normalizes it. */
  lemma JoinOne(x: string)
    requires x != ""
    ensures Join([x]) == Normalize(x)
  {
    NonEmptyKeeps([x]);
  }

  /** Two relative paths with the same segment stack and the same kind of
      ending normalize alike. */
  lemma NormalizeSameSegments(p: string, q: string)
    requires p != "" && q != "" && p[0] != '/' && q[0] != '/'
    requires p[|p| - 1] == q[|q| - 1]
    requires NormalizeSegments([], Split(p), true) == NormalizeSegments([], Split(q), true)
    ensures Normalize(p) == Normalize(q)
  {
  }

  /** The path a directory of names and its climbs make starts with a
      name character and ends like `rest`. */
  lemma ClimbEnds(names: seq<string>, rest: string)
    requires names != []
    requires forall i :: 0 <= i < |names| ==> IsName(names[i])
    requires rest != ""
    ensures var p := Unsplit(names) + "/" + (Ups(|names|) + rest);
            p[0] != '/' && p[|p| - 1] == rest[|rest| - 1]
  {
    var d := Unsplit(names);
    UnsplitEnds(names);
    var p := d + "/" + (Ups(|names|) + rest);
    assert p[0] == d[0];
    assert p == (d + "/" + Ups(|names|)) + rest;
  }

  /** `normalize` lets the climbs cancel the names. */
  lemma NormalizeClimb(names: seq<string>, rest: string)
    requires names != []
    requires forall i :: 0 <= i < |names| ==> IsName(names[i]) && names[i] != ".."
    requires rest != "" && rest[0] != '/'
    ensures Normalize(Unsplit(names) + "/" + (Ups(|names|) + rest)) == Normalize(rest)
  {
    var p := Unsplit(names) + "/" + (Ups(|names|) + rest);
    ClimbEnds(names, rest);
    SplitClimb(names, rest);
    NormalizeSegmentsClimb(names, Split(rest));
    NormalizeSameSegments(p, rest);
  }

  /** Joining a relative directory made of plain names with a path that
      climbs out of each of them by `../` gives the path alone: `join`
      lets every `..` cancel the name before it. */
  lemma JoinClimbsOut(names: seq<string>, rest: string)
    requires names != []
    requires forall i :: 0 <= i < |names| ==> IsName(names[i]) && names[i] != ".."
    requires rest != "" && rest[0] != '/'
    ensures Join([Unsplit(names), Ups(|names|) + rest]) == Join([rest])
  {
    UnsplitEnds(names);
    JoinTwo(Unsplit(names), Ups(|names|) + rest);
    NormalizeClimb(names, rest);
    JoinOne(rest);
  }

  lemma UnsplitTwo(a: string, b: string)
    ensures Unsplit([a, b]) == a + "/" + b
  {
    assert Unsplit([a, b][1..]) == b;
  }

  lemma UnsplitThree(a: string, b: string, c: string)
    ensures Unsplit([a, b, c]) == a + "/" + b + "/" + c
  {
    assert [a, b, c][1..] == [b, c];
    UnsplitTwo(b, c);
  }

  /** `images/misc/test.png` is already normal. */
  lemma ImagesPathIsNormal()
    ensures Join(["images/misc/test.png"]) == "images/misc/test.png"
  {
    var segs := ["images", "misc", "test.png"];
    var r := "images/misc/test.png";
    UnsplitThree("images", "misc", "test.png");
    assert "images" + "/" + "misc" + "/" + "test.png" == r;
    assert Canonical(segs, true);
    NormalizeRebuilt(segs, false, false);
    assert "" + r + "" == r;
    JoinOne(r);
  }

  lemma SearchPathSegments()
    ensures Unsplit(["temp", "foo"]) == "temp/foo"
  {
    UnsplitTwo("temp", "foo");
  }

  lemma UpsTwo(rest: string)
    ensures Ups(2) + rest == "../../" + rest
  {
    assert Ups(1) == "../" + Ups(0);
  }

  /** The search path `temp/foo` and the reference
      `../../images/misc/test.png` join to the reference's own path. */
  lemma JoinClimbsOutOfSearchPath()
    ensures Join(["temp/foo", "../../images/misc/test.png"]) == "images/misc/test.png"
  {
    SearchPathSegments();
    UpsTwo("images/misc/test.png");
    assert "../../" + "images/misc/test.png" == "../../images/misc/test.png";
    assert IsName("temp") && IsName("foo");
    JoinClimbsOut(["temp", "foo"], "images/misc/test.png");
    ImagesPathIsNormal();
  }
}
