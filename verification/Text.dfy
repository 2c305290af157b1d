/** Strings as the Go code handles them: prefixes, suffixes, first occurrences, byte order and
    the sorted key lists the planner and the cache return. */
module Text {

  predicate HasPrefix(s: string, p: string) {
    |p| <= |s| && s[..|p|] == p
  }

  predicate HasSuffix(s: string, p: string) {
    |p| <= |s| && s[|s| - |p|..] == p
  }

  function TrimPrefix(s: string, p: string): string {
    if HasPrefix(s, p) then s[|p|..] else s
  }

  function TrimSuffix(s: string, p: string): string {
    if HasSuffix(s, p) then s[..|s| - |p|] else s
  }

  /** Lower case for ASCII letters. */
  function ToLower(s: string): string {
    if s == "" then "" else [if 'A' <= s[0] <= 'Z' then s[0] - 'A' + 'a' else s[0]] + ToLower(s[1..])
  }

  ghost function Elems(s: seq<string>): set<string> {
    set x | x in s
  }

  lemma ElemsCons(x: string, s: seq<string>)
    ensures Elems([x] + s) == {x} + Elems(s)
  {
    forall y ensures y in [x] + s <==> y == x || y in s {
      if y in s {
        var i :| 0 <= i < |s| && s[i] == y;
        assert ([x] + s)[i + 1] == y;
      }
      if y == x { assert ([x] + s)[0] == y; }
    }
  }

  lemma ElemsAppend(s: seq<string>, x: string)
    ensures Elems(s + [x]) == Elems(s) + {x}
  {
  }

  lemma ElemsTake(s: seq<string>, i: nat)
    requires i < |s|
    ensures Elems(s[..i + 1]) == Elems(s[..i]) + {s[i]}
  {
    assert s[..i + 1] == s[..i] + [s[i]];
    ElemsAppend(s[..i], s[i]);
  }

  /** The order of Go's string comparison. */
  predicate Less(a: string, b: string) {
    b != "" && (a == "" || a[0] < b[0] || (a[0] == b[0] && Less(a[1..], b[1..])))
  }

  /** The first place where two texts differ decides, and of two that do not differ before one ends the shorter one is
      less. */
  lemma {:induction false} LessIff(a: string, b: string)
    ensures Less(a, b) <==> exists k :: DecidedAt(a, b, k)
  {
    if b == "" {
      forall k ensures !DecidedAt(a, b, k) { }
    } else if a == "" {
      assert DecidedAt(a, b, 0);
    } else if a[0] == b[0] {
      LessIff(a[1..], b[1..]);
      if k :| DecidedAt(a[1..], b[1..], k) {
        assert a[..k + 1] == [a[0]] + a[1..][..k] && b[..k + 1] == [b[0]] + b[1..][..k];
        assert DecidedAt(a, b, k + 1);
      }
      forall k | DecidedAt(a, b, k) ensures DecidedAt(a[1..], b[1..], k - 1) {
        assert a[1..][..k - 1] == a[..k][1..] && b[1..][..k - 1] == b[..k][1..];
      }
    } else {
      assert a[..0] == b[..0];
      assert a[0] < b[0] ==> DecidedAt(a, b, 0);
      forall k | DecidedAt(a, b, k) ensures k == 0 {
        FirstOfTake(a, k);
        FirstOfTake(b, k);
      }
    }
  }

  lemma FirstOfTake(s: string, k: nat)
    requires k <= |s|
    ensures k > 0 ==> s[..k][0] == s[0]
  {
  }

  predicate DecidedAt(a: string, b: string, k: int) {
    0 <= k <= |a| && k < |b| && a[..k] == b[..k] && (k == |a| || a[k] < b[k])
  }

  /** Letter by letter, and nothing but the capitals A to Z changes. */
  lemma {:induction false} ToLowerIs(s: string)
    ensures |ToLower(s)| == |s|
    ensures forall i :: 0 <= i < |s| ==>
      ToLower(s)[i] == if 'A' <= s[i] <= 'Z' then (s[i] as int + 32) as char else s[i]
  {
    if s != "" {
      ToLowerIs(s[1..]);
    }
  }

  lemma {:induction false} ToLowerConcat(a: string, b: string)
    ensures ToLower(a + b) == ToLower(a) + ToLower(b)
  {
    if a == "" {
      assert a + b == b;
    } else {
      ToLowerConcat(a[1..], b);
      assert (a + b)[1..] == a[1..] + b;
    }
  }

  lemma {:induction false} LessTotal(a: string, b: string)
    ensures a == b || Less(a, b) || Less(b, a)
  {
    if a != "" && b != "" && a[0] == b[0] {
      LessTotal(a[1..], b[1..]);
      assert a == [a[0]] + a[1..] && b == [b[0]] + b[1..];
    }
  }

  lemma {:induction false} LessTransitive(a: string, b: string, c: string)
    requires Less(a, b) && Less(b, c)
    ensures Less(a, c)
  {
    if a != "" && a[0] == b[0] && b[0] == c[0] {
      LessTransitive(a[1..], b[1..], c[1..]);
    }
  }

  lemma {:induction false} LessIrreflexive(a: string)
    ensures !Less(a, a)
  {
    if a != "" {
      LessIrreflexive(a[1..]);
    }
  }

  /** Strictly increasing, hence also free of duplicates. */
  ghost predicate Sorted(s: seq<string>) {
    forall i, j :: 0 <= i < j < |s| ==> Less(s[i], s[j])
  }

  function Insert(s: seq<string>, x: string): (r: seq<string>)
    requires Sorted(s)
    ensures Sorted(r) && Elems(r) == Elems(s) + {x}
  {
    if s == [] then [x]
    else if s[0] == x then s
    else if Less(x, s[0]) then
      assert forall k :: 0 < k < |s| ==> Less(x, s[k]) by {
        forall k | 0 < k < |s| ensures Less(x, s[k]) { LessTransitive(x, s[0], s[k]); }
      }
      [x] + s
    else
      assert Less(s[0], x) by { LessTotal(s[0], x); }
      var rest := Insert(s[1..], x);
      assert forall k :: 0 <= k < |rest| ==> Less(s[0], rest[k]) by {
        forall k | 0 <= k < |rest| ensures Less(s[0], rest[k]) {
          assert rest[k] in Elems(rest);
          assert rest[k] == x || rest[k] in s[1..];
        }
      }
      assert s == [s[0]] + s[1..];
      ElemsCons(s[0], rest);
      ElemsCons(s[0], s[1..]);
      [s[0]] + rest
  }

  /** A sorted list is determined by its elements, so a list built from a map does not depend
      on the order in which the map was iterated. */
  lemma {:induction false} SortedIsUnique(a: seq<string>, b: seq<string>)
    requires Sorted(a) && Sorted(b) && Elems(a) == Elems(b)
    ensures a == b
  {
    assert b == [] || b[0] in Elems(b);
    if a == [] {
    } else {
      assert a[0] in Elems(a);
      var i :| 0 <= i < |b| && b[i] == a[0];
      assert b[0] in Elems(b);
      var j :| 0 <= j < |a| && a[j] == b[0];
      if i > 0 && j > 0 {
        LessTransitive(a[0], b[0], a[0]);
        LessIrreflexive(a[0]);
        assert false;
      }
      assert a[0] == b[0];
      forall x | x in a[1..] ensures x in b[1..] { TailMember(a, b, x); }
      forall x | x in b[1..] ensures x in a[1..] { TailMember(b, a, x); }
      SortedIsUnique(a[1..], b[1..]);
      assert a == [a[0]] + a[1..] && b == [b[0]] + b[1..];
    }
  }

  lemma TailMember(a: seq<string>, b: seq<string>, x: string)
    requires Sorted(a) && a != [] && b != [] && Elems(a) == Elems(b) && a[0] == b[0]
    requires x in a[1..]
    ensures x in b[1..]
  {
    var i :| 0 <= i < |a| - 1 && a[1..][i] == x;
    LessIrreflexive(x);
    assert x in Elems(a);
    var k :| 0 <= k < |b| && b[k] == x;
    assert b[1..][k - 1] == x;
  }

  /** The keys of a set in order: `sortedKeys`. */
  method SortedKeys(m: set<string>) returns (keys: seq<string>)
    ensures Sorted(keys) && Elems(keys) == m
  {
    keys := [];
    var rest := m;
    while rest != {}
      invariant rest <= m && Sorted(keys) && Elems(keys) == m - rest
      decreases rest
    {
      var k :| k in rest;
      keys := Insert(keys, k);
      rest := rest - {k};
    }
  }

  method SortedUniqueStrings(values: seq<string>) returns (keys: seq<string>)
    ensures Sorted(keys) && Elems(keys) == Elems(values) - {""}
  {
    var seen: set<string> := {};
    var i := 0;
    while i < |values|
      invariant 0 <= i <= |values| && seen == Elems(values[..i]) - {""}
    {
      ElemsTake(values, i);
      if values[i] != "" {
        seen := seen + {values[i]};
      }
      i := i + 1;
    }
    assert values[..i] == values;
    keys := SortedKeys(seen);
  }

  /** The unique list `SortedKeys` returns. */
  ghost function SortedSeq(m: set<string>): (s: seq<string>)
    ensures Sorted(s) && Elems(s) == m
  {
    if m == {} then []
    else
      var k :| k in m;
      Insert(SortedSeq(m - {k}), k)
  }
}
