/** Glob matching of paths split into segments (file_system.ex) and the literal root of a glob
    pattern (dataset.ex). */
module Glob {

  // ---- the matcher ---------------------------------------------------------------------------------------

  predicate NoNewline(s: string) { '\n' !in s }

  /** The expression a segment pattern compiles to: `*` becomes `.*`, which stops at a newline, and the
      closing `$` also accepts one final newline. */
  predicate RegexMatches(name: string, pat: string)
    decreases |pat|
  {
    if pat == "" then name == "" || name == "\n"
    else if pat[0] == '*' then
      exists n :: 0 <= n <= |name| && NoNewline(name[..n]) && RegexMatches(name[n..], pat[1..])
    else name != "" && name[0] == pat[0] && RegexMatches(name[1..], pat[1..])
  }

  predicate MatchSegment(name: string, pat: string) {
    if pat == "*" then true
    else if '*' in pat then RegexMatches(name, pat)
    else name == pat
  }

  predicate MatchParts(path: seq<string>, pat: seq<string>)
    decreases |pat|
  {
    if path == [] && pat == [] then true
    else if pat == ["**"] then true
    else if pat != [] && pat[0] == "**" then
      exists n :: 0 <= n <= |path| && MatchParts(path[n..], pat[1..])
    else if path != [] && pat != [] then MatchSegment(path[0], pat[0]) && MatchParts(path[1..], pat[1..])
    else false
  }

  // ---- what a glob means -----------------------------------------------------------------------------------

  ghost function Concat<T>(runs: seq<seq<T>>): seq<T> {
    if runs == [] then [] else runs[0] + Concat(runs[1..])
  }

  /** How pattern items accept: which are stars, what run a star takes, and what one item the others take. */
  datatype Rules<!T, !P> = Rules(star: P -> bool, run: seq<T> -> bool, one: (T, P) -> bool)

  /** `runs` cuts `xs` so that each starred pattern item gets a run it takes and each other exactly one
      item it accepts. */
  ghost predicate Cuts<T, P>(rules: Rules<T, P>, xs: seq<T>, ps: seq<P>, runs: seq<seq<T>>) {
    && |runs| == |ps| && Concat(runs) == xs
    && forall i :: 0 <= i < |ps| ==> Takes(rules, ps[i], runs[i])
  }

  predicate Takes<T, P>(rules: Rules<T, P>, p: P, run: seq<T>) {
    if rules.star(p) then rules.run(run) else |run| == 1 && rules.one(run[0], p)
  }

  ghost predicate Fits<T(!new), P>(rules: Rules<T, P>, xs: seq<T>, ps: seq<P>) {
    exists runs :: Cuts(rules, xs, ps, runs)
  }

  /** Within a segment: `*` takes any characters. */
  function AnyCharacters(): Rules<char, char> {
    Rules(c => c == '*', (run: string) => true, (a, b) => a == b)
  }

  /** Within a segment, on one line: `*` takes any characters but newlines. */
  function OneLine(): Rules<char, char> {
    Rules(c => c == '*', run => NoNewline(run), (a, b) => a == b)
  }

  /** The segment is the pattern with each `*` replaced by some characters. */
  ghost predicate SegmentFits(name: string, pat: string) {
    Fits(AnyCharacters(), name, pat)
  }

  /** What the matcher accepts: a literal pattern itself, a lone `*` anything, and any other pattern with
      each `*` replaced by characters other than newlines, where one final newline is forgiven. */
  ghost predicate SegmentAccepts(name: string, pat: string) {
    if '*' !in pat then name == pat else pat == "*" || LineFits(name, pat)
  }

  ghost predicate LineFits(name: string, pat: string) {
    exists base :: Fits(OneLine(), base, pat) && (name == base || name == base + "\n")
  }

  /** Across segments: `**` takes any run of segments, every other item one segment. */
  ghost function Across(one: (string, string) -> bool): Rules<string, string> {
    Rules(p => p == "**", (run: seq<string>) => true, one)
  }

  /** The path is the pattern with each `**` replaced by some segments and each other item by one
      segment the matcher accepts for it. */
  ghost predicate PathAccepts(path: seq<string>, pat: seq<string>) {
    Fits(Across((name, p) => SegmentAccepts(name, p)), path, pat)
  }

  /** The same with segments that fit in the plain sense. */
  ghost predicate PathFits(path: seq<string>, pat: seq<string>) {
    Fits(Across((name, p) => SegmentFits(name, p)), path, pat)
  }

  // ---- one pattern item at a time --------------------------------------------------------------------------

  lemma NothingLeft<T(!new), P>(rules: Rules<T, P>, xs: seq<T>)
    ensures Fits(rules, xs, []) <==> xs == []
  {
    var none: seq<seq<T>> := [];
    assert xs == [] ==> Cuts(rules, xs, [], none);
  }

  lemma Extend<T(!new), P>(rules: Rules<T, P>, run: seq<T>, xs: seq<T>, ps: seq<P>)
    requires ps != [] && Fits(rules, xs, ps[1..]) && Takes(rules, ps[0], run)
    ensures Fits(rules, run + xs, ps)
  {
    var runs :| Cuts(rules, xs, ps[1..], runs);
    assert ([run] + runs)[1..] == runs;
    forall i | 0 <= i < |ps|
      ensures Takes(rules, ps[i], ([run] + runs)[i])
    {
      assert i > 0 ==> ps[i] == ps[1..][i - 1];
    }
    assert Cuts(rules, run + xs, ps, [run] + runs);
  }

  lemma Shorten<T(!new), P>(rules: Rules<T, P>, xs: seq<T>, ps: seq<P>) returns (run: seq<T>, rest: seq<T>)
    requires ps != [] && Fits(rules, xs, ps)
    ensures xs == run + rest && Fits(rules, rest, ps[1..]) && Takes(rules, ps[0], run)
  {
    var runs :| Cuts(rules, xs, ps, runs);
    run, rest := runs[0], Concat(runs[1..]);
    assert forall i :: 0 <= i < |ps[1..]| ==> ps[1..][i] == ps[i + 1] && runs[1..][i] == runs[i + 1];
    assert Cuts(rules, rest, ps[1..], runs[1..]);
  }

  lemma LoneStar<T(!new), P>(rules: Rules<T, P>, xs: seq<T>, p: P)
    requires rules.star(p) && rules.run(xs)
    ensures Fits(rules, xs, [p])
  {
    NothingLeft(rules, []);
    assert [p][1..] == [];
    Extend(rules, xs, [], [p]);
    assert xs + [] == xs;
  }

  // ---- segments ------------------------------------------------------------------------------------------------

  lemma {:induction false} RegexHitFits(name: string, pat: string) returns (base: string)
    requires RegexMatches(name, pat)
    ensures Fits(OneLine(), base, pat) && (name == base || name == base + "\n")
    decreases |pat|
  {
    if pat == "" {
      NothingLeft(OneLine(), "");
      base := "";
    } else {
      var n :| 0 <= n <= |name| && RegexMatches(name[n..], pat[1..]) &&
                (if pat[0] == '*' then NoNewline(name[..n]) else n == 1 && name[0] == pat[0]);
      var rest := RegexHitFits(name[n..], pat[1..]);
      Extend(OneLine(), name[..n], rest, pat);
      base := name[..n] + rest;
      assert name == name[..n] + name[n..];
    }
  }

  lemma {:induction false} FitIsRegexHit(base: string, name: string, pat: string)
    requires Fits(OneLine(), base, pat) && (name == base || name == base + "\n")
    ensures RegexMatches(name, pat)
    decreases |pat|
  {
    if pat == "" {
      NothingLeft(OneLine(), base);
    } else {
      var run, rest := Shorten(OneLine(), base, pat);
      assert name[..|run|] == run;
      assert name[|run|..] == rest || name[|run|..] == rest + "\n";
      FitIsRegexHit(rest, name[|run|..], pat[1..]);
    }
  }

  /** A segment matches exactly when it is accepted, whatever characters it holds. */
  lemma SegmentIsExact(name: string, pat: string)
    ensures MatchSegment(name, pat) <==> SegmentAccepts(name, pat)
  {
    if '*' in pat && pat != "*" {
      if RegexMatches(name, pat) {
        var base := RegexHitFits(name, pat);
      }
      if LineFits(name, pat) {
        var base :| Fits(OneLine(), base, pat) && (name == base || name == base + "\n");
        FitIsRegexHit(base, name, pat);
      }
    }
  }

  lemma {:induction false} LiteralFits(name: string, pat: string)
    requires '*' !in pat
    ensures SegmentFits(name, pat) <==> name == pat
    decreases |pat|
  {
    if pat == "" {
      NothingLeft(AnyCharacters(), name);
    } else {
      if SegmentFits(name, pat) {
        var run, rest := Shorten(AnyCharacters(), name, pat);
        LiteralFits(rest, pat[1..]);
        assert name == [pat[0]] + pat[1..];
      }
      if name == pat {
        LiteralFits(pat[1..], pat[1..]);
        Extend(AnyCharacters(), [pat[0]], pat[1..], pat);
        assert name == [pat[0]] + pat[1..];
      }
    }
  }

  /** Without newlines in it, a segment fits on one line exactly when it fits. */
  lemma {:induction false} PlainLine(name: string, pat: string)
    requires NoNewline(name)
    ensures Fits(OneLine(), name, pat) <==> SegmentFits(name, pat)
    decreases |pat|
  {
    if pat == "" {
      NothingLeft(OneLine(), name);
      NothingLeft(AnyCharacters(), name);
    } else {
      if SegmentFits(name, pat) {
        var run, rest := Shorten(AnyCharacters(), name, pat);
        PlainLine(rest, pat[1..]);
        Extend(OneLine(), run, rest, pat);
      }
      if Fits(OneLine(), name, pat) {
        var run, rest := Shorten(OneLine(), name, pat);
        PlainLine(rest, pat[1..]);
        Extend(AnyCharacters(), run, rest, pat);
      }
    }
  }

  lemma FinalNewline(base: string)
    ensures !NoNewline(base + "\n")
  {
    assert (base + "\n")[|base|] == '\n';
  }

  /** So a segment without newlines matches exactly when it is the pattern with each `*` replaced by some
      characters. */
  lemma PlainSegmentIsExact(name: string, pat: string)
    requires NoNewline(name)
    ensures MatchSegment(name, pat) <==> SegmentFits(name, pat)
  {
    SegmentIsExact(name, pat);
    if '*' !in pat {
      LiteralFits(name, pat);
    } else if pat == "*" {
      LoneStar(AnyCharacters(), name, '*');
    } else {
      PlainLine(name, pat);
      forall base | Fits(OneLine(), base, pat) && (name == base || name == base + "\n")
        ensures name == base
      {
        FinalNewline(base);
      }
    }
  }

  /** With a newline in the name it may not: `a*` does not find "a\nb", and `a*b` finds "ab\n". */
  lemma NewlinesBreakSegments()
    ensures SegmentFits("a\nb", "a*") && !MatchSegment("a\nb", "a*")
    ensures MatchSegment("ab\n", "a*b") && !SegmentFits("ab\n", "a*b")
  {
    LoneStar(AnyCharacters(), "\nb", '*');
    assert "a*"[1..] == "*";
    Extend(AnyCharacters(), "a", "\nb", "a*");
    assert "a" + "\nb" == "a\nb";
    NewlineStopsStar();
    FinalNewlineMatches();
    if SegmentFits("ab\n", "a*b") {
      EndsAlike("ab\n", "a*b");
    }
  }

  lemma NewlineStopsStar()
    ensures !RegexMatches("a\nb", "a*")
  {
    assert "a\nb"[1..] == "\nb" && "a*"[1..] == "*" && "*"[1..] == "";
    forall n | 0 <= n <= 2 ensures !(NoNewline("\nb"[..n]) && RegexMatches("\nb"[n..], "")) {
      if n > 0 {
        assert "\nb"[..n][0] == '\n';
      }
    }
  }

  lemma FinalNewlineMatches()
    ensures RegexMatches("ab\n", "a*b")
  {
    assert "ab\n"[1..] == "b\n" && "a*b"[1..] == "*b" && "*b"[1..] == "b" && "b"[1..] == "" && "b\n"[1..] == "\n";
    assert RegexMatches("b\n", "b");
    assert "b\n"[0..] == "b\n" && NoNewline("b\n"[..0]);
    assert RegexMatches("b\n", "*b");
  }

  /** A last literal character of the pattern is the last character of whatever fits it. */
  lemma {:induction false} EndsAlike(name: string, pat: string)
    requires pat != "" && pat[|pat| - 1] != '*' && SegmentFits(name, pat)
    ensures name != "" && name[|name| - 1] == pat[|pat| - 1]
    decreases |pat|
  {
    var run, rest := Shorten(AnyCharacters(), name, pat);
    if |pat| == 1 {
      NothingLeft(AnyCharacters(), rest);
    } else {
      EndsAlike(rest, pat[1..]);
    }
  }

  // ---- paths -----------------------------------------------------------------------------------------------------

  /** On the segments of this path the matcher decides as `one` does. */
  ghost predicate DecidesAs(path: seq<string>, one: (string, string) -> bool) {
    forall i, p :: 0 <= i < |path| ==> (MatchSegment(path[i], p) <==> one(path[i], p))
  }

  lemma {:induction false} PathMatches(path: seq<string>, pat: seq<string>, one: (string, string) -> bool)
    requires DecidesAs(path, one)
    ensures MatchParts(path, pat) <==> Fits(Across(one), path, pat)
    decreases |pat|, 1
  {
    if pat == [] {
      NothingLeft(Across(one), path);
    } else if pat == ["**"] {
      LoneStar(Across(one), path, "**");
    } else {
      if MatchParts(path, pat) {
        HitFits(path, pat, one);
      }
      if Fits(Across(one), path, pat) {
        FitHits(path, pat, one);
      }
    }
  }

  lemma HitFits(path: seq<string>, pat: seq<string>, one: (string, string) -> bool)
    requires DecidesAs(path, one) && pat != [] && pat != ["**"] && MatchParts(path, pat)
    ensures Fits(Across(one), path, pat)
    decreases |pat|, 0
  {
    var n :| 0 <= n <= |path| && MatchParts(path[n..], pat[1..]) &&
              (pat[0] != "**" ==> n == 1 && MatchSegment(path[0], pat[0]));
    assert path == path[..n] + path[n..];
    PathMatches(path[n..], pat[1..], one);
    Extend(Across(one), path[..n], path[n..], pat);
  }

  lemma FitHits(path: seq<string>, pat: seq<string>, one: (string, string) -> bool)
    requires DecidesAs(path, one) && pat != [] && pat != ["**"] && Fits(Across(one), path, pat)
    ensures MatchParts(path, pat)
    decreases |pat|, 0
  {
    var run, rest := Shorten(Across(one), path, pat);
    assert path[|run|..] == rest;
    PathMatches(rest, pat[1..], one);
  }

  /** A path is accepted exactly when each `**` can be given a run of segments, possibly empty, and every
      other pattern segment exactly one segment it accepts. */
  lemma GlobIsExact(path: seq<string>, pat: seq<string>)
    ensures MatchParts(path, pat) <==> PathAccepts(path, pat)
  {
    var one: (string, string) -> bool := (name, p) => SegmentAccepts(name, p);
    forall i, p | 0 <= i < |path|
      ensures MatchSegment(path[i], p) <==> one(path[i], p)
    {
      SegmentIsExact(path[i], p);
    }
    PathMatches(path, pat, one);
  }

  /** Without newlines in the path: exactly one segment that is the pattern segment with each `*` replaced
      by some characters. */
  lemma PlainGlobIsExact(path: seq<string>, pat: seq<string>)
    requires forall i :: 0 <= i < |path| ==> NoNewline(path[i])
    ensures MatchParts(path, pat) <==> PathFits(path, pat)
  {
    var one: (string, string) -> bool := (name, p) => SegmentFits(name, p);
    forall i, p | 0 <= i < |path|
      ensures MatchSegment(path[i], p) <==> one(path[i], p)
    {
      PlainSegmentIsExact(path[i], p);
    }
    PathMatches(path, pat, one);
  }

  // ---- the literal root ------------------------------------------------------------------------------------------

  predicate IsGlob(segment: string) { '*' in segment || '?' in segment }

  function LiteralParts(pat: seq<string>): seq<string> {
    if pat == [] || IsGlob(pat[0]) then [] else [pat[0]] + LiteralParts(pat[1..])
  }

  /** `glob_root`, as the segments of the path it joins. */
  function GlobRoot(pat: seq<string>): seq<string> {
    if LiteralParts(pat) == [] then ["/"] else LiteralParts(pat)
  }

  /** The root is the longest prefix of the pattern whose segments have neither a `*` nor a `?`. */
  lemma {:induction false} LiteralPartsAreLongest(pat: seq<string>)
    ensures var n := |LiteralParts(pat)|;
      && n <= |pat| && LiteralParts(pat) == pat[..n]
      && (forall i :: 0 <= i < n ==> '*' !in pat[i] && '?' !in pat[i])
      && (n < |pat| ==> '*' in pat[n] || '?' in pat[n])
  {
    if pat != [] && !IsGlob(pat[0]) {
      LiteralPartsAreLongest(pat[1..]);
      var n := |LiteralParts(pat[1..])|;
      assert pat[..n + 1] == [pat[0]] + pat[1..][..n];
    }
  }

  lemma {:induction false} LiteralPartsLead(path: seq<string>, pat: seq<string>)
    requires MatchParts(path, pat)
    ensures LiteralParts(pat) <= path
  {
    if pat != [] && !IsGlob(pat[0]) {
      LiteralPartsLead(path[1..], pat[1..]);
      assert path == [path[0]] + path[1..];
    }
  }

  /** The root leads to every accepted path, unless the pattern starts with a wildcard: then the root
      is "/" and leads only to the absolute ones. */
  lemma {:induction false} RootLeadsToMatches(path: seq<string>, pat: seq<string>)
    requires MatchParts(path, pat)
    ensures GlobRoot(pat) <= path <==> (pat != [] && !IsGlob(pat[0])) || (path != [] && path[0] == "/")
  {
    LiteralPartsLead(path, pat);
    assert path != [] ==> path == [path[0]] + path[1..];
  }

  /** A relative pattern whose first segment is `*` finds files that are not under its root. */
  lemma RelativeGlobHasNoRoot()
    ensures MatchParts(["data", "x"], ["*", "x"]) && !(GlobRoot(["*", "x"]) <= ["data", "x"])
  {
    var path, pat := ["data", "x"], ["*", "x"];
    assert path[1..] == ["x"] && pat[1..] == ["x"] && path[1..][1..] == [] && pat[1..][1..] == [];
    assert MatchParts(["x"], ["x"]);
    RootLeadsToMatches(path, pat);
  }
}
