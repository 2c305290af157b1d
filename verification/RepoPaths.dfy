/** Repository-relative paths: cleaning, joining and the check that they stay inside the repository. */
module RepoPaths {
  import opened Text
  import opened Options

  predicate IsSpace(c: char) {
    || c in {' ', '\t', '\n', '\r', '\U{0B}', '\U{0C}', '\U{85}', '\U{A0}', '\U{1680}',
             '\U{2028}', '\U{2029}', '\U{202F}', '\U{205F}', '\U{3000}'}
    || '\U{2000}' <= c <= '\U{200A}'
  }

  function TrimLeft(s: string): string {
    if s != "" && IsSpace(s[0]) then TrimLeft(s[1..]) else s
  }

  function TrimRight(s: string): string {
    if s != "" && IsSpace(s[|s| - 1]) then TrimRight(s[..|s| - 1]) else s
  }

  function TrimSpace(s: string): string {
    TrimRight(TrimLeft(s))
  }

  /** The pieces between slashes; always at least one. */
  function Split(s: string): (r: seq<string>)
    ensures r != [] && forall i :: 0 <= i < |r| ==> '/' !in r[i]
  {
    if s == "" then [""]
    else
      var rest := Split(s[1..]);
      if s[0] == '/' then [""] + rest else [[s[0]] + rest[0]] + rest[1..]
  }

  function Join(segments: seq<string>): string {
    if segments == [] then ""
    else if |segments| == 1 then segments[0]
    else segments[0] + "/" + Join(segments[1..])
  }

  lemma {:induction false} SplitPiece(s: string)
    requires '/' !in s
    ensures Split(s) == [s]
  {
    if s != "" {
      SplitPiece(s[1..]);
      assert [s[0]] + s[1..] == s;
    }
  }

  lemma {:induction false} SplitAtSlash(s: string, rest: string)
    requires '/' !in s
    ensures Split(s + "/" + rest) == [s] + Split(rest)
  {
    var t := s + "/" + rest;
    if s == "" {
      assert t[1..] == rest;
    } else {
      SplitAtSlash(s[1..], rest);
      assert t[1..] == s[1..] + "/" + rest;
      assert [s[0]] + s[1..] == s;
    }
  }

  lemma {:induction false} SplitJoin(segments: seq<string>)
    requires segments != [] && forall i :: 0 <= i < |segments| ==> '/' !in segments[i]
    ensures Split(Join(segments)) == segments
  {
    if |segments| == 1 {
      SplitPiece(segments[0]);
    } else {
      SplitJoin(segments[1..]);
      SplitAtSlash(segments[0], Join(segments[1..]));
    }
  }

  lemma {:induction false} JoinStartsWith(segments: seq<string>)
    requires segments != []
    ensures Join(segments) == segments[0] || HasPrefix(Join(segments), segments[0] + "/")
    ensures |segments| > 1 ==> HasPrefix(Join(segments), segments[0] + "/")
  {
    if |segments| > 1 {
      assert Join(segments)[..|segments[0]| + 1] == segments[0] + "/";
    }
  }

  // ---- filepath.Clean on a relative path ----

  /** One segment after the ones resolved so far. */
  function Push(stack: seq<string>, segment: string): seq<string> {
    if segment == "" || segment == "." then stack
    else if segment == ".." && stack != [] && stack[|stack| - 1] != ".." then stack[..|stack| - 1]
    else stack + [segment]
  }

  function Resolve(segments: seq<string>): seq<string> {
    if segments == [] then []
    else Push(Resolve(segments[..|segments| - 1]), segments[|segments| - 1])
  }

  function Clean(path: string): string {
    var out := Resolve(Split(path));
    if out == [] then "." else Join(out)
  }

  predicate IsAbs(path: string) {
    HasPrefix(path, "/")
  }

  /** `cleanRepoRel`; `None` is the error "path escapes repository". An absolute path stays absolute under
      `filepath.Clean` and is refused, so only relative ones need cleaning here. */
  function CleanRepoRel(rel: string): Option<string> {
    var trimmed := TrimSpace(rel);
    if IsAbs(trimmed) then None
    else
      var clean := Clean(trimmed);
      if Escapes(clean) then None else Some(clean)
  }

  predicate Escapes(clean: string) {
    clean == "." || clean == "" || clean == ".." || HasPrefix(clean, "../")
  }

  /** `filepath.Join` leaves out empty elements. */
  function JoinPaths(base: string, ref: string): string {
    if base == "" && ref == "" then ""
    else if ref == "" then Clean(base)
    else if base == "" then Clean(ref)
    else Clean(base + "/" + ref)
  }

  function JoinRepoRel(base: string, ref: string): Option<string> {
    CleanRepoRel(JoinPaths(base, ref))
  }

  // ---- when a path stays inside ----

  function Delta(segment: string): int {
    if segment == "" || segment == "." then 0 else if segment == ".." then -1 else 1
  }

  /** How many directories deep one stands after following the segments. */
  function Level(segments: seq<string>): int {
    if segments == [] then 0 else Level(segments[..|segments| - 1]) + Delta(segments[|segments| - 1])
  }

  function LevelAt(segments: seq<string>, i: nat): int
    requires i <= |segments|
  {
    Level(segments[..i])
  }

  /** Following the segments never leaves the starting directory, not even for a moment. */
  ghost predicate NeverAbove(segments: seq<string>) {
    forall i {:trigger LevelAt(segments, i)} :: 0 <= i <= |segments| ==> LevelAt(segments, i) >= 0
  }

  predicate IsName(segment: string) {
    segment != "" && segment != "." && segment != ".." && '/' !in segment
  }

  lemma SameLevel(segments: seq<string>, n: nat, i: nat)
    requires i <= n <= |segments|
    ensures LevelAt(segments[..n], i) == LevelAt(segments, i)
  {
    assert segments[..n][..i] == segments[..i];
  }

  lemma NeverAboveNext(segments: seq<string>)
    requires segments != []
    ensures NeverAbove(segments) <==> NeverAbove(segments[..|segments| - 1]) && Level(segments) >= 0
  {
    var n := |segments| - 1;
    assert segments[..n + 1] == segments;
    forall i | 0 <= i <= n ensures LevelAt(segments[..n], i) == LevelAt(segments, i) { SameLevel(segments, n, i); }
    assert LevelAt(segments, n + 1) == Level(segments);
  }

  lemma {:induction false} ResolveNames(segments: seq<string>)
    requires forall i :: 0 <= i < |segments| ==> '/' !in segments[i]
    ensures NeverAbove(segments) ==> |Resolve(segments)| == Level(segments)
    ensures NeverAbove(segments) ==> forall i :: 0 <= i < |Resolve(segments)| ==> IsName(Resolve(segments)[i])
    ensures !NeverAbove(segments) ==> Resolve(segments) != [] && Resolve(segments)[0] == ".."
  {
    if segments != [] {
      var n := |segments| - 1;
      var front := segments[..n];
      ResolveNames(front);
      NeverAboveNext(segments);
      if !NeverAbove(front) {
        StuckAbove(Resolve(front), segments[n]);
      }
    }
  }

  lemma StuckAbove(stack: seq<string>, segment: string)
    requires stack != [] && stack[0] == ".."
    ensures Push(stack, segment) != [] && Push(stack, segment)[0] == ".."
  {
  }

  lemma StartsWithPiece(s: string, piece: string)
    requires '/' !in piece && HasPrefix(s, piece + "/")
    ensures Split(s)[0] == piece
  {
    var rest := s[|piece| + 1..];
    assert s == piece + "/" + rest;
    SplitAtSlash(piece, rest);
  }

  lemma SinglePiece(s: string)
    ensures s in {".", "", ".."} ==> Split(s) == [s]
  {
    if s in {".", "", ".."} {
      SplitPiece(s);
    }
  }

  lemma EscapeStartsBadly(s: string)
    requires Escapes(s)
    ensures !IsName(Split(s)[0])
  {
    SinglePiece(s);
    if HasPrefix(s, "../") { StartsWithPiece(s, ".."); }
  }

  lemma NamesDoNotEscape(names: seq<string>)
    requires names != [] && forall i :: 0 <= i < |names| ==> IsName(names[i])
    ensures !Escapes(Join(names)) && Split(Join(names)) == names
  {
    SplitJoin(names);
    if Escapes(Join(names)) { EscapeStartsBadly(Join(names)); }
  }

  lemma {:induction false} ResolveOfNames(names: seq<string>)
    requires forall i :: 0 <= i < |names| ==> IsName(names[i])
    ensures Resolve(names) == names
  {
    if names != [] {
      ResolveOfNames(names[..|names| - 1]);
    }
  }

  lemma CleanAccepts(trimmed: string)
    ensures !Escapes(Clean(trimmed)) <==> NeverAbove(Split(trimmed)) && Level(Split(trimmed)) > 0
    ensures !Escapes(Clean(trimmed)) ==>
      var names := Split(Clean(trimmed));
      |names| == Level(Split(trimmed)) && (forall i :: 0 <= i < |names| ==> IsName(names[i]))
      && Clean(Clean(trimmed)) == Clean(trimmed)
  {
    var segments := Split(trimmed);
    var out := Resolve(segments);
    ResolveNames(segments);
    if NeverAbove(segments) {
      if out != [] {
        NamesDoNotEscape(out);
        ResolveOfNames(out);
      }
    } else {
      JoinStartsWith(out);
    }
  }

  /** A path is accepted exactly when it is relative, never climbs above the repository on its way and ends
      below it; the result is then its list of plain names. */
  lemma CleanRepoRelAccepts(rel: string)
    ensures var segments := Split(TrimSpace(rel));
      CleanRepoRel(rel).Some? <==> !IsAbs(TrimSpace(rel)) && NeverAbove(segments) && Level(segments) > 0
    ensures CleanRepoRel(rel).Some? ==>
      var names := Split(CleanRepoRel(rel).value);
      |names| == Level(Split(TrimSpace(rel))) && (forall i :: 0 <= i < |names| ==> IsName(names[i]))
      && Clean(CleanRepoRel(rel).value) == CleanRepoRel(rel).value
  {
    CleanAccepts(TrimSpace(rel));
  }

  // ---- where a reference leads ----

  /** `k` times "..". */
  function Ups(k: nat): seq<string> {
    seq(k, i => "..")
  }

  lemma ResolveNext(segments: seq<string>, segment: string)
    ensures Resolve(segments + [segment]) == Push(Resolve(segments), segment)
  {
    assert (segments + [segment])[..|segments|] == segments;
  }

  lemma {:induction false} ResolveUps(base: seq<string>, k: nat)
    requires k <= |base| && forall i :: 0 <= i < |base| ==> IsName(base[i])
    ensures Resolve(base + Ups(k)) == base[..|base| - k]
  {
    if k == 0 {
      ResolveOfNames(base);
      assert base + Ups(0) == base && base[..|base|] == base;
    } else {
      ResolveUps(base, k - 1);
      assert base + Ups(k) == base + Ups(k - 1) + [".."];
      ResolveNext(base + Ups(k - 1), "..");
      assert base[..|base| - k + 1][..|base| - k] == base[..|base| - k];
    }
  }

  lemma {:induction false} ResolveDown(segments: seq<string>, names: seq<string>)
    requires forall i :: 0 <= i < |names| ==> IsName(names[i])
    ensures Resolve(segments + names) == Resolve(segments) + names
  {
    if names == [] {
      assert segments + names == segments && Resolve(segments) + names == Resolve(segments);
    } else {
      var n := |names| - 1;
      ResolveDown(segments, names[..n]);
      ResolveLast(segments, names);
      assert Resolve(segments) + names == Resolve(segments) + names[..n] + [names[n]];
    }
  }

  lemma {:induction false} JoinConcat(a: seq<string>, b: seq<string>)
    requires a != [] && b != []
    ensures Join(a + b) == Join(a) + "/" + Join(b)
  {
    assert (a + b)[1..] == a[1..] + b;
    if |a| > 1 {
      JoinConcat(a[1..], b);
      assert Join(a) + "/" + Join(b) == a[0] + "/" + (Join(a[1..]) + "/" + Join(b));
    }
  }

  lemma JoinIsEmptyIff(segments: seq<string>)
    requires forall i :: 0 <= i < |segments| ==> segments[i] != ""
    ensures Join(segments) == "" <==> segments == []
    ensures segments != [] ==> Join(segments)[0] == segments[0][0]
  {
  }

  lemma JoinPathsOfSegments(base: seq<string>, ref: seq<string>)
    requires base + ref != []
    requires forall i :: 0 <= i < |base| ==> base[i] != "" && '/' !in base[i]
    requires forall i :: 0 <= i < |ref| ==> ref[i] != "" && '/' !in ref[i]
    ensures JoinPaths(Join(base), Join(ref)) == Clean(Join(base + ref)) && Split(Join(base + ref)) == base + ref
  {
    JoinIsEmptyIff(base);
    JoinIsEmptyIff(ref);
    SplitJoin(base + ref);
    if base == [] {
      assert base + ref == ref;
    } else if ref == [] {
      assert base + ref == base;
    } else {
      JoinConcat(base, ref);
    }
  }

  lemma NamesAreClean(names: seq<string>)
    requires names != [] && (forall i :: 0 <= i < |names| ==> IsName(names[i])) && TrimSpace(Join(names)) == Join(names)
    ensures CleanRepoRel(Join(names)) == Some(Join(names))
  {
    JoinIsEmptyIff(names);
    NamesDoNotEscape(names);
    ResolveOfNames(names);
  }

  lemma ResolveUpAndDown(base: seq<string>, k: nat, rest: seq<string>)
    requires k <= |base| && (forall i :: 0 <= i < |base| ==> IsName(base[i]))
    requires forall i :: 0 <= i < |rest| ==> IsName(rest[i])
    ensures Resolve(base + (Ups(k) + rest)) == base[..|base| - k] + rest
  {
    assert base + (Ups(k) + rest) == base + Ups(k) + rest;
    ResolveUps(base, k);
    ResolveDown(base + Ups(k), rest);
  }

  /** A reference that goes up `k` directories and then down by names leads, from a directory, to the names that are
      left of its own, followed by those. */
  lemma ReferenceLeadsTo(base: seq<string>, k: nat, rest: seq<string>)
    requires k <= |base| && (forall i :: 0 <= i < |base| ==> IsName(base[i]))
    requires forall i :: 0 <= i < |rest| ==> IsName(rest[i])
    requires var out := base[..|base| - k] + rest; out != [] && TrimSpace(Join(out)) == Join(out)
    ensures JoinRepoRel(Join(base), Join(Ups(k) + rest)) == Some(Join(base[..|base| - k] + rest))
  {
    var out := base[..|base| - k] + rest;
    JoinPathsOfSegments(base, Ups(k) + rest);
    ResolveUpAndDown(base, k, rest);
    NamesAreClean(out);
  }

  /** Empty segments, "." and a name followed by ".." make no difference. */
  lemma DetoursAreIgnored(a: seq<string>, name: string, b: seq<string>)
    requires IsName(name)
    ensures Resolve(a + [""] + b) == Resolve(a + ["."] + b) == Resolve(a + [name, ".."] + b) == Resolve(a + b)
  {
    ResolveNext(a, "");
    ResolveNext(a, ".");
    ResolveNext(a, name);
    ResolveNext(a + [name], "..");
    assert a + [name] + [".."] == a + [name, ".."];
    assert (Resolve(a) + [name])[..|Resolve(a)|] == Resolve(a);
    ResolveAlike(a, a + [""], b);
    ResolveAlike(a, a + ["."], b);
    ResolveAlike(a, a + [name, ".."], b);
  }

  lemma {:induction false} ResolveAlike(a: seq<string>, a': seq<string>, b: seq<string>)
    requires Resolve(a) == Resolve(a')
    ensures Resolve(a + b) == Resolve(a' + b)
  {
    if b == [] {
      assert a + b == a && a' + b == a';
    } else {
      var n := |b| - 1;
      ResolveAlike(a, a', b[..n]);
      ResolveLast(a, b);
      ResolveLast(a', b);
    }
  }

  lemma WithoutLast<T>(a: seq<T>, b: seq<T>)
    requires b != []
    ensures (a + b)[..|a + b| - 1] == a + b[..|b| - 1] && (a + b)[|a + b| - 1] == b[|b| - 1]
  {
  }

  lemma ResolveLast(a: seq<string>, b: seq<string>)
    requires b != []
    ensures Resolve(a + b) == Push(Resolve(a + b[..|b| - 1]), b[|b| - 1])
  {
    WithoutLast(a, b);
  }

  // ---- trimming ----

  predicate AllSpace(s: string) {
    forall i :: 0 <= i < |s| ==> IsSpace(s[i])
  }

  lemma {:induction false} TrimLeftSplits(s: string)
    ensures var r := TrimLeft(s); |r| <= |s| && s[|s| - |r|..] == r && AllSpace(s[..|s| - |r|])
    ensures TrimLeft(s) != "" ==> !IsSpace(TrimLeft(s)[0])
  {
    if s != "" && IsSpace(s[0]) {
      TrimLeftSplits(s[1..]);
      var k := |s| - |TrimLeft(s)|;
      assert s[1..][..k - 1] == s[1..k] && s[1..][k - 1..] == s[k..];
      forall i | 0 <= i < k ensures IsSpace(s[..k][i]) {
        if i > 0 { assert s[1..][..k - 1][i - 1] == s[i]; }
      }
    } else {
      assert s[..0] == "";
    }
  }

  lemma {:induction false} TrimRightSplits(s: string)
    ensures var r := TrimRight(s); |r| <= |s| && s[..|r|] == r && AllSpace(s[|r|..])
    ensures TrimRight(s) != "" ==> !IsSpace(TrimRight(s)[|TrimRight(s)| - 1])
  {
    if s != "" && IsSpace(s[|s| - 1]) {
      var n := |s| - 1;
      TrimRightSplits(s[..n]);
      var k := |TrimRight(s)|;
      assert s[..n][..k] == s[..k] && s[..n][k..] == s[k..n];
      forall i | 0 <= i < |s| - k ensures IsSpace(s[k..][i]) {
        if i < n - k { assert s[..n][k..][i] == s[k + i]; }
      }
    }
  }

  /** Trimming takes away white space at both ends, all of it and nothing else. */
  lemma TrimSpaceSplits(s: string) returns (left: string, right: string)
    ensures s == left + TrimSpace(s) + right && AllSpace(left) && AllSpace(right)
    ensures var t := TrimSpace(s); t != "" ==> !IsSpace(t[0]) && !IsSpace(t[|t| - 1])
  {
    var l, t := TrimLeft(s), TrimSpace(s);
    TrimLeftSplits(s);
    TrimRightSplits(l);
    left, right := s[..|s| - |l|], l[|t|..];
    assert t != "" ==> t[0] == l[0];
    calc {
      s;
      left + l;
      left + (t + right);
      left + t + right;
    }
  }

  /** So a text without white space at its ends is left as it is. */
  lemma NothingToTrim(s: string)
    requires s != "" ==> !IsSpace(s[0]) && !IsSpace(s[|s| - 1])
    ensures TrimSpace(s) == s
  {
  }
}
