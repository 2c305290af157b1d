/** Merging override manifests into the embedded ones: each override replaces the first object with its
    identifier, and overrides without such an object go to a file of their own. */
module OverrideMerge {

  import opened Options

  /** A parsed YAML object. `typed` objects decode to a Kubernetes object of the scheme. */
  datatype Node = Node(apiVersion: string, kind: string, namespace: string, name: string, rest: string, typed: bool)

  /** A YAML file as parsed; `None` when it does not parse. */
  type File = Option<seq<Node>>

  function GetObjectIdentifier(n: Node): string {
    n.apiVersion + n.kind + n.namespace + n.name
  }

  /** The objects of a manifest, if the scheme knows them all. */
  function ConvertYamlToObjects(manifest: seq<Node>): (r: Option<seq<Node>>)
    ensures r.Some? <==> forall j :: 0 <= j < |manifest| ==> manifest[j].typed
    ensures r.Some? ==> r.value == manifest
  {
    if forall j :: 0 <= j < |manifest| ==> manifest[j].typed then Some(manifest) else None
  }

  // ---- what the merge should produce ----

  /** `id` identifies an object before place (i, j), in file order. */
  ghost predicate Before(fs: seq<File>, i: nat, j: nat, id: string) {
    exists a: nat, b: nat :: Earlier(a, b, i, j) && Is(fs, a, b, id)
  }

  predicate Earlier(a: nat, b: nat, i: nat, j: nat) {
    a < i || (a == i && b < j)
  }

  predicate At(fs: seq<File>, a: nat, b: nat) {
    a < |fs| && fs[a].Some? && b < |fs[a].value|
  }

  predicate Is(fs: seq<File>, a: nat, b: nat, id: string) {
    At(fs, a, b) && GetObjectIdentifier(fs[a].value[b]) == id
  }

  ghost predicate Occurs(fs: seq<File>, id: string) {
    exists a: nat, b: nat :: Is(fs, a, b, id)
  }

  predicate Has(os: seq<Node>, id: string) {
    exists k :: 0 <= k < |os| && GetObjectIdentifier(os[k]) == id
  }

  /** Of several overrides with one identifier the last wins. */
  function LastIndex(os: seq<Node>, id: string): (k: nat)
    requires Has(os, id)
    ensures k < |os| && GetObjectIdentifier(os[k]) == id
    ensures forall l :: k < l < |os| ==> GetObjectIdentifier(os[l]) != id
  {
    if GetObjectIdentifier(os[|os| - 1]) == id then |os| - 1 else LastIndex(os[..|os| - 1], id)
  }

  /** The object at (i, j) gives way to an override: the first with its identifier. */
  ghost predicate Replaced(fs: seq<File>, os: seq<Node>, i: nat, j: nat)
    requires At(fs, i, j)
  {
    var id := GetObjectIdentifier(fs[i].value[j]);
    Has(os, id) && !Before(fs, i, j, id)
  }

  ghost function MergedNode(fs: seq<File>, os: seq<Node>, i: nat, j: nat): Node
    requires At(fs, i, j)
  {
    if Replaced(fs, os, i, j) then os[LastIndex(os, GetObjectIdentifier(fs[i].value[j]))] else fs[i].value[j]
  }

  ghost function MergedFile(fs: seq<File>, os: seq<Node>, i: nat): seq<Node>
    requires i < |fs| && fs[i].Some?
  {
    seq(|fs[i].value|, j requires 0 <= j < |fs[i].value| => MergedNode(fs, os, i, j))
  }

  /** For each of the first `k` overrides that replaces nothing, the index of the override written for it. */
  ghost function ExtraIndices(fs: seq<File>, os: seq<Node>, k: nat): (r: seq<nat>)
    requires k <= |os|
    ensures forall p :: 0 <= p < |r| ==> r[p] < |os|
  {
    if k == 0 then []
    else
      var id := GetObjectIdentifier(os[k - 1]);
      ExtraIndices(fs, os, k - 1) + (if Occurs(fs, id) then [] else [LastIndex(os, id)])
  }

  ghost function ExtraFile(fs: seq<File>, os: seq<Node>, k: nat): (r: seq<Node>)
    requires k <= |os|
  {
    var extra := ExtraIndices(fs, os, k);
    seq(|extra|, p requires 0 <= p < |extra| => os[extra[p]])
  }

  ghost predicate AllParse(fs: seq<File>) {
    forall i :: 0 <= i < |fs| ==> fs[i].Some?
  }

  ghost function MergedFiles(fs: seq<File>, os: seq<Node>): seq<seq<Node>>
    requires AllParse(fs)
  {
    seq(|fs|, i requires 0 <= i < |fs| => MergedFile(fs, os, i))
  }

  ghost function Merged(fs: seq<File>, os: seq<Node>): seq<seq<Node>>
    requires AllParse(fs)
  {
    MergedFiles(fs, os)
    + (if ExtraFile(fs, os, |os|) == [] then [] else [ExtraFile(fs, os, |os|)])
  }

  function Flat(fs: seq<seq<Node>>): seq<Node> {
    if fs == [] then [] else Flat(fs[..|fs| - 1]) + fs[|fs| - 1]
  }

  ghost predicate AllTyped(fs: seq<seq<Node>>) {
    forall i :: 0 <= i < |fs| ==> ConvertYamlToObjects(fs[i]).Some?
  }

  ghost predicate Convertible(fs: seq<File>, overrides: File) {
    overrides.Some? && AllParse(fs) && AllTyped(Merged(fs, overrides.value))
  }

  // ---- the merge ----

  /** `overrideMap` maps the identifiers of `os` to the last override with each. */
  ghost predicate Indexed(os: seq<Node>, overrideMap: map<string, Node>) {
    && (forall id :: id in overrideMap <==> Has(os, id))
    && (forall id :: id in overrideMap ==> overrideMap[id] == os[LastIndex(os, id)])
  }

  lemma IndexNext(os: seq<Node>, k: nat, overrideMap: map<string, Node>)
    requires k < |os| && Indexed(os[..k], overrideMap)
    ensures Indexed(os[..k + 1], overrideMap[GetObjectIdentifier(os[k]) := os[k]])
  {
    var before, now, id := os[..k], os[..k + 1], GetObjectIdentifier(os[k]);
    assert now[..k] == before && now[k] == os[k];
    forall other ensures Has(now, other) <==> other == id || Has(before, other) {
      assert Has(now, other) && other != id ==> exists l :: 0 <= l < k && GetObjectIdentifier(before[l]) == other;
      if Has(before, other) {
        assert now[LastIndex(before, other)] == before[LastIndex(before, other)];
      }
    }
  }

  /** The overrides by identifier, and their identifiers in input order. */
  method IndexOverrides(os: seq<Node>) returns (overrideMap: map<string, Node>, order: seq<string>)
    ensures Indexed(os, overrideMap)
    ensures |order| == |os| && forall k :: 0 <= k < |os| ==> order[k] == GetObjectIdentifier(os[k])
  {
    overrideMap, order := map[], [];
    for k := 0 to |os|
      invariant Indexed(os[..k], overrideMap)
      invariant |order| == k && forall l :: 0 <= l < k ==> order[l] == GetObjectIdentifier(os[l])
    {
      var id := GetObjectIdentifier(os[k]);
      IndexNext(os, k, overrideMap);
      overrideMap := overrideMap[id := os[k]];
      order := order + [id];
    }
    assert os[..|os|] == os;
  }

  /** The identifiers found before place (i, j). */
  ghost function Seen(fs: seq<File>, i: nat, j: nat): (r: set<string>)
    ensures forall id :: id in r <==> Before(fs, i, j, id)
  {
    var r := set a: nat, b: nat | a < |fs| && fs[a].Some? && b < |fs[a].value| && Earlier(a, b, i, j)
                 :: GetObjectIdentifier(fs[a].value[b]);
    assert forall a: nat, b: nat, id :: Is(fs, a, b, id) && Earlier(a, b, i, j) ==> id in r;
    r
  }

  /** The identifier at place (i, j) is seen next, and its object replaced if it is seen for the first time. */
  lemma SeeNext(fs: seq<File>, os: seq<Node>, all: map<string, Node>, i: nat, j: nat)
    requires At(fs, i, j) && Indexed(os, all)
    ensures var n := fs[i].value[j]; var id := GetObjectIdentifier(n);
            && Seen(fs, i, j + 1) == Seen(fs, i, j) + {id}
            && MergedFile(fs, os, i)[j] == if id in all && id !in Seen(fs, i, j) then all[id] else n
  {
    var id := GetObjectIdentifier(fs[i].value[j]);
    forall other ensures Before(fs, i, j + 1, other) <==> Before(fs, i, j, other) || other == id {
      assert Before(fs, i, j + 1, other) && other != id ==> exists a: nat, b: nat ::
          Earlier(a, b, i, j) && Is(fs, a, b, other);
      assert forall a: nat, b: nat :: Earlier(a, b, i, j) ==> Earlier(a, b, i, j + 1);
      assert Earlier(i, j, i, j + 1) && Is(fs, i, j, id);
    }
  }

  lemma SeeNextFile(fs: seq<File>, i: nat)
    requires i < |fs| && fs[i].Some?
    ensures Seen(fs, i + 1, 0) == Seen(fs, i, |fs[i].value|)
  {
    var n := |fs[i].value|;
    assert forall a: nat, b: nat :: At(fs, a, b) ==> (Earlier(a, b, i + 1, 0) <==> Earlier(a, b, i, n));
  }

  /** One object: what it becomes, and what is left of the overrides. */
  method MergeOne(n: Node, overrides: map<string, Node>, ghost all: map<string, Node>, ghost seen: set<string>)
    returns (merged: Node, overrideMap: map<string, Node>)
    requires overrides == all - seen
    ensures var id := GetObjectIdentifier(n);
            && merged == (if id in all && id !in seen then all[id] else n)
            && overrideMap == all - (seen + {id})
  {
    var id := GetObjectIdentifier(n);
    merged, overrideMap := n, overrides;
    if id in overrideMap {
      merged := overrideMap[id];
      overrideMap := overrideMap - {id};
    }
  }

  method MergeFile(fs: seq<File>, i: nat, ghost os: seq<Node>, ghost all: map<string, Node>,
                   overrides: map<string, Node>)
    returns (nodes: seq<Node>, overrideMap: map<string, Node>)
    requires i < |fs| && fs[i].Some? && Indexed(os, all) && overrides == all - Seen(fs, i, 0)
    ensures nodes == MergedFile(fs, os, i) && overrideMap == all - Seen(fs, i + 1, 0)
  {
    nodes, overrideMap := fs[i].value, overrides;
    ghost var merged := MergedFile(fs, os, i);
    for j := 0 to |nodes|
      invariant |nodes| == |merged|
      invariant overrideMap == all - Seen(fs, i, j)
      invariant nodes[..j] == merged[..j] && nodes[j..] == fs[i].value[j..]
    {
      SeeNext(fs, os, all, i, j);
      assert nodes[j] == nodes[j..][0] == fs[i].value[j];
      var n;
      n, overrideMap := MergeOne(nodes[j], overrideMap, all, Seen(fs, i, j));
      nodes := nodes[j := n];
    }
    SeeNextFile(fs, i);
  }

  lemma SeenAtEnd(fs: seq<File>, id: string)
    ensures id in Seen(fs, |fs|, 0) <==> Occurs(fs, id)
  {
    assert forall a: nat, b: nat :: Is(fs, a, b, id) ==> Earlier(a, b, |fs|, 0);
  }

  lemma ExtraFileNext(fs: seq<File>, os: seq<Node>, all: map<string, Node>, k: nat)
    requires k < |os| && Indexed(os, all)
    ensures var id := GetObjectIdentifier(os[k]);
            && id in all
            && ExtraFile(fs, os, k + 1) == ExtraFile(fs, os, k) + if id in Seen(fs, |fs|, 0) then [] else [all[id]]
  {
    assert Has(os, GetObjectIdentifier(os[k]));
    SeenAtEnd(fs, GetObjectIdentifier(os[k]));
  }

  lemma {:induction false} ExtraIsEmptyIff(fs: seq<File>, os: seq<Node>, k: nat)
    requires k <= |os|
    ensures ExtraIndices(fs, os, k) == [] <==> forall l :: 0 <= l < k ==> Occurs(fs, GetObjectIdentifier(os[l]))
  {
    if k > 0 {
      ExtraIsEmptyIff(fs, os, k - 1);
    }
  }

  lemma ExtraIsEmptyWhenNoneLeft(fs: seq<File>, os: seq<Node>, all: map<string, Node>)
    requires Indexed(os, all)
    ensures ExtraFile(fs, os, |os|) == [] <==> all - Seen(fs, |fs|, 0) == map[]
  {
    var left := all - Seen(fs, |fs|, 0);
    forall id ensures id in left <==> Has(os, id) && !Occurs(fs, id) {
      SeenAtEnd(fs, id);
    }
    forall k | 0 <= k < |os| ensures Has(os, GetObjectIdentifier(os[k])) {
    }
    ExtraIsEmptyIff(fs, os, |os|);
    forall id | Has(os, id) ensures GetObjectIdentifier(os[LastIndex(os, id)]) == id {
    }
  }

  /** The overrides left over, in input order. */
  method CollectExtra(ghost fs: seq<File>, ghost os: seq<Node>, ghost all: map<string, Node>, order: seq<string>,
                      overrideMap: map<string, Node>)
    returns (n: seq<Node>)
    requires Indexed(os, all) && overrideMap == all - Seen(fs, |fs|, 0)
    requires |order| == |os| && forall k :: 0 <= k < |os| ==> order[k] == GetObjectIdentifier(os[k])
    ensures n == ExtraFile(fs, os, |os|)
  {
    n := [];
    for k := 0 to |order|
      invariant n == ExtraFile(fs, os, k)
    {
      ExtraFileNext(fs, os, all, k);
      if order[k] in overrideMap {
        n := n + [overrideMap[order[k]]];
      }
    }
  }

  /** The original files merged, and all their objects; fails when one does not parse or does not convert. */
  method MergeFiles(fs: seq<File>, ghost os: seq<Node>, overrides: map<string, Node>)
    returns (ok: bool, outYaml: seq<seq<Node>>, outObjs: seq<Node>, overrideMap: map<string, Node>)
    requires Indexed(os, overrides)
    ensures ok <==> AllParse(fs) && AllTyped(MergedFiles(fs, os))
    ensures ok ==> outYaml == MergedFiles(fs, os) && outObjs == Flat(outYaml)
    ensures ok ==> overrideMap == overrides - Seen(fs, |fs|, 0)
  {
    ok, outYaml, outObjs, overrideMap := false, [], [], overrides;
    for i := 0 to |fs|
      invariant |outYaml| == i && forall a :: 0 <= a < i ==> fs[a].Some? && outYaml[a] == MergedFile(fs, os, a)
      invariant AllTyped(outYaml)
      invariant outObjs == Flat(outYaml)
      invariant overrideMap == overrides - Seen(fs, i, 0)
    {
      if fs[i].None? {
        return;
      }
      var manifest;
      manifest, overrideMap := MergeFile(fs, i, os, overrides, overrideMap);
      var objs := ConvertYamlToObjects(manifest);
      if objs.None? {
        assert AllParse(fs) ==> MergedFiles(fs, os)[i] == manifest;
        return;
      }
      assert (outYaml + [manifest])[..i] == outYaml;
      outObjs := outObjs + objs.value;
      outYaml := outYaml + [manifest];
    }
    ok := true;
    assert outYaml == MergedFiles(fs, os);
  }

  /** The merge fails exactly when something does not parse or the result has an object the scheme does not
      know; otherwise it returns the merged files and all their objects. */
  method ConvertYamlToObjectsWithOverride(fs: seq<File>, overrides: File)
    returns (r: Option<(seq<seq<Node>>, seq<Node>)>)
    ensures r.Some? <==> Convertible(fs, overrides)
    ensures r.Some? ==> r.value == (Merged(fs, overrides.value), Flat(Merged(fs, overrides.value)))
  {
    if overrides.None? {
      return None;
    }
    var os := overrides.value;
    var overrideMap, order := IndexOverrides(os);
    ghost var all := overrideMap;
    var ok, outYaml, outObjs;
    ok, outYaml, outObjs, overrideMap := MergeFiles(fs, os, overrideMap);
    if !ok {
      assert AllParse(fs) ==> MergedFiles(fs, os) == Merged(fs, os)[..|fs|];
      return None;
    }
    var n := CollectExtra(fs, os, all, order, overrideMap);
    ExtraIsEmptyWhenNoneLeft(fs, os, all);
    if overrideMap != map[] {
      assert Merged(fs, os) == outYaml + [n];
      assert (outYaml + [n])[..|fs|] == outYaml && (outYaml + [n])[|fs|] == n;
      var objs := ConvertYamlToObjects(n);
      if objs.None? {
        return None;
      }
      outObjs := outObjs + objs.value;
      outYaml := outYaml + [n];
    } else {
      assert Merged(fs, os) == outYaml;
    }
    r := Some((outYaml, outObjs));
  }

  // ---- what the merged files are ----

  /** Files and objects keep their places and identifiers. */
  lemma IdentifiersArePreserved(fs: seq<File>, os: seq<Node>, i: nat, j: nat)
    requires AllParse(fs) && At(fs, i, j)
    ensures i < |Merged(fs, os)| && |Merged(fs, os)[i]| == |fs[i].value|
    ensures GetObjectIdentifier(Merged(fs, os)[i][j]) == GetObjectIdentifier(fs[i].value[j])
  {
  }

  function Parsed(fs: seq<seq<Node>>): seq<File> {
    seq(|fs|, i requires 0 <= i < |fs| => Some(fs[i]))
  }

  /** Override `l` replaces nothing. */
  ghost predicate Loose(fs: seq<File>, os: seq<Node>, l: nat)
    requires l < |os|
  {
    !Occurs(fs, GetObjectIdentifier(os[l]))
  }

  /** The overrides that replace nothing. */
  ghost function Unmatched(fs: seq<File>, os: seq<Node>, k: nat): (r: set<nat>)
    requires k <= |os|
  {
    set l: nat | l < k && Loose(fs, os, l)
  }

  lemma UnmatchedNext(fs: seq<File>, os: seq<Node>, k: nat)
    requires 0 < k <= |os|
    ensures Unmatched(fs, os, k) == Unmatched(fs, os, k - 1) + if Loose(fs, os, k - 1) then {k - 1} else {}
  {
  }

  lemma {:induction false} ExtraCount(fs: seq<File>, os: seq<Node>, k: nat)
    requires k <= |os|
    ensures |ExtraIndices(fs, os, k)| == |Unmatched(fs, os, k)|
  {
    if k > 0 {
      ExtraCount(fs, os, k - 1);
      UnmatchedNext(fs, os, k);
      var more := if Loose(fs, os, k - 1) then [LastIndex(os, GetObjectIdentifier(os[k - 1]))] else [];
      assert ExtraIndices(fs, os, k) == ExtraIndices(fs, os, k - 1) + more;
    }
  }

  function Objects(fs: seq<File>): nat {
    if fs == [] then 0
    else Objects(fs[..|fs| - 1]) + (if fs[|fs| - 1].Some? then |fs[|fs| - 1].value| else 0)
  }

  lemma {:induction false} FlatCount(fs: seq<File>, merged: seq<seq<Node>>)
    requires AllParse(fs) && |merged| == |fs|
    requires forall i :: 0 <= i < |fs| ==> |merged[i]| == |fs[i].value|
    ensures |Flat(merged)| == Objects(fs)
  {
    if fs != [] {
      FlatCount(fs[..|fs| - 1], merged[..|fs| - 1]);
    }
  }

  /** The merge returns as many objects as there were, and one more for each override that replaces nothing. */
  lemma ObjectCount(fs: seq<File>, os: seq<Node>)
    requires AllParse(fs)
    ensures |Flat(Merged(fs, os))| == Objects(fs) + |Unmatched(fs, os, |os|)|
    ensures |Merged(fs, os)| == |fs| + if Unmatched(fs, os, |os|) == {} then 0 else 1
  {
    var files := MergedFiles(fs, os);
    FlatCount(fs, files);
    ExtraCount(fs, os, |os|);
    var extra := ExtraFile(fs, os, |os|);
    if extra == [] {
      assert Merged(fs, os) == files;
    } else {
      assert Merged(fs, os)[..|fs|] == files;
    }
  }

  ghost predicate DistinctIdentifiers(os: seq<Node>) {
    forall k, l :: 0 <= k < l < |os| ==> GetObjectIdentifier(os[k]) != GetObjectIdentifier(os[l])
  }

  /** Override `k` is what the merge wrote at place (i, j). */
  ghost predicate UsedAt(fs: seq<File>, os: seq<Node>, k: nat, i: nat, j: nat) {
    || (At(fs, i, j) && Replaced(fs, os, i, j) && LastIndex(os, GetObjectIdentifier(fs[i].value[j])) == k)
    || (i == |fs| && j < |ExtraIndices(fs, os, |os|)| && ExtraIndices(fs, os, |os|)[j] == k)
  }

  ghost predicate UsedOnce(fs: seq<File>, os: seq<Node>, k: nat) {
    exists i: nat, j: nat :: UsedAt(fs, os, k, i, j) && OnlyPlace(fs, os, k, i, j)
  }

  ghost predicate OnlyPlace(fs: seq<File>, os: seq<Node>, k: nat, i: nat, j: nat) {
    forall a: nat, b: nat :: UsedAt(fs, os, k, a, b) ==> a == i && b == j
  }

  lemma {:induction false} FirstPlace(fs: seq<File>, id: string, a: nat, b: nat) returns (i: nat, j: nat)
    requires Is(fs, a, b, id)
    ensures Is(fs, i, j, id) && !Before(fs, i, j, id)
    decreases a, b
  {
    if c: nat, d: nat :| Earlier(c, d, a, b) && Is(fs, c, d, id) {
      i, j := FirstPlace(fs, id, c, d);
    } else {
      i, j := a, b;
    }
  }

  /** `extra` lists exactly the loose ones of the first `k` overrides, in input order. */
  ghost predicate InOrder(fs: seq<File>, os: seq<Node>, k: nat, extra: seq<nat>)
    requires k <= |os|
  {
    && (forall p, q :: 0 <= p < q < |extra| ==> extra[p] < extra[q])
    && (forall p :: 0 <= p < |extra| ==> extra[p] < k && Loose(fs, os, extra[p]))
    && (forall l: nat :: l < k && Loose(fs, os, l) ==> l in extra)
  }

  lemma ExtraStep(fs: seq<File>, os: seq<Node>, k: nat)
    requires 0 < k <= |os| && DistinctIdentifiers(os)
    ensures ExtraIndices(fs, os, k) == ExtraIndices(fs, os, k - 1) + if Loose(fs, os, k - 1) then [k - 1] else []
  {
    assert LastIndex(os, GetObjectIdentifier(os[k - 1])) == k - 1;
  }

  lemma InOrderNext(fs: seq<File>, os: seq<Node>, k: nat, extra: seq<nat>)
    requires 0 < k <= |os| && InOrder(fs, os, k - 1, extra)
    ensures InOrder(fs, os, k, extra + if Loose(fs, os, k - 1) then [k - 1] else [])
  {
  }

  /** With distinct identifiers the extra file lists exactly the overrides that replace nothing, in input order. */
  lemma {:induction false} ExtraInOrder(fs: seq<File>, os: seq<Node>, k: nat)
    requires k <= |os| && DistinctIdentifiers(os)
    ensures InOrder(fs, os, k, ExtraIndices(fs, os, k))
  {
    if k > 0 {
      ExtraInOrder(fs, os, k - 1);
      ExtraStep(fs, os, k);
      InOrderNext(fs, os, k, ExtraIndices(fs, os, k - 1));
    }
  }

  /** Every override is written to exactly one place, whatever the files hold, if and only if the overrides'
      identifiers are distinct. */
  lemma EachUsedOnceIffDistinct(fs: seq<File>, os: seq<Node>)
    requires AllParse(fs)
    ensures (forall k :: 0 <= k < |os| ==> UsedOnce(fs, os, k)) <==> DistinctIdentifiers(os)
  {
    if DistinctIdentifiers(os) {
      forall k | 0 <= k < |os| ensures UsedOnce(fs, os, k) {
        UsedOnceWhenDistinct(fs, os, k);
      }
    }
    forall k, l | 0 <= k < l < |os| && GetObjectIdentifier(os[k]) == GetObjectIdentifier(os[l])
      ensures !UsedOnce(fs, os, k)
    {
      forall i: nat, j: nat ensures !UsedAt(fs, os, k, i, j) {
        ExtraIsLast(fs, os, |os|);
      }
    }
  }

  /** Only the last override with an identifier is ever written. */
  lemma {:induction false} ExtraIsLast(fs: seq<File>, os: seq<Node>, k: nat)
    requires k <= |os|
    ensures forall x :: x in ExtraIndices(fs, os, k) ==>
      !Occurs(fs, GetObjectIdentifier(os[x])) && LastIndex(os, GetObjectIdentifier(os[x])) == x
  {
    if k > 0 {
      ExtraIsLast(fs, os, k - 1);
    }
  }

  lemma SameEntry(extra: seq<nat>, p: nat, q: nat)
    requires forall i, j :: 0 <= i < j < |extra| ==> extra[i] < extra[j]
    requires p < |extra| && q < |extra| && extra[p] == extra[q]
    ensures p == q
  {
  }

  lemma UsedOnceWhenDistinct(fs: seq<File>, os: seq<Node>, k: nat)
    requires AllParse(fs) && DistinctIdentifiers(os) && k < |os|
    ensures UsedOnce(fs, os, k)
  {
    var id := GetObjectIdentifier(os[k]);
    assert Has(os, id) && LastIndex(os, id) == k;
    var extra := ExtraIndices(fs, os, |os|);
    ExtraInOrder(fs, os, |os|);
    if a: nat, b: nat :| Is(fs, a, b, id) {
      var i, j := FirstPlace(fs, id, a, b);
      assert k !in extra;
      assert OnlyPlace(fs, os, k, i, j) by {
        forall c: nat, d: nat | UsedAt(fs, os, k, c, d) ensures c == i && d == j {
          assert Is(fs, c, d, id) && !Before(fs, c, d, id);
          assert !Earlier(c, d, i, j) && !Earlier(i, j, c, d);
        }
      }
      assert UsedAt(fs, os, k, i, j);
    } else {
      assert Loose(fs, os, k);
      var p :| 0 <= p < |extra| && extra[p] == k;
      assert UsedAt(fs, os, k, |fs|, p);
      assert OnlyPlace(fs, os, k, |fs|, p) by {
        forall c: nat, d: nat | UsedAt(fs, os, k, c, d) ensures c == |fs| && d == p {
          assert !Is(fs, c, d, id);
          SameEntry(extra, p, d);
        }
      }
    }
  }

  /** Merging the same overrides into the result once more changes nothing. */
  lemma MergeIsIdempotent(fs: seq<File>, os: seq<Node>)
    requires AllParse(fs)
    ensures Merged(Parsed(Merged(fs, os)), os) == Merged(fs, os)
  {
    var once := Merged(fs, os);
    var gs := Parsed(once);
    forall i, j | 0 <= i < |once| && 0 <= j < |once[i]| ensures MergedNode(gs, os, i, j) == once[i][j] {
      AgainTheSame(fs, os, i, j);
    }
    forall i | 0 <= i < |once| ensures MergedFile(gs, os, i) == once[i] {
    }
    NothingLeftOver(fs, os, |os|);
    assert Merged(gs, os) == once;
  }

  lemma AgainTheSame(fs: seq<File>, os: seq<Node>, i: nat, j: nat)
    requires AllParse(fs) && i < |Merged(fs, os)| && j < |Merged(fs, os)[i]|
    ensures MergedNode(Parsed(Merged(fs, os)), os, i, j) == Merged(fs, os)[i][j]
  {
    var once := Merged(fs, os);
    var gs := Parsed(once);
    var id := GetObjectIdentifier(once[i][j]);
    if i < |fs| {
      if a: nat, b: nat :| Earlier(a, b, i, j) && Is(fs, a, b, id) {
        assert Is(gs, a, b, id);
      }
    } else {
      ExtraIsLast(fs, os, |os|);
      assert ExtraIndices(fs, os, |os|)[j] in ExtraIndices(fs, os, |os|);
    }
  }

  lemma {:induction false} NothingLeftOver(fs: seq<File>, os: seq<Node>, k: nat)
    requires AllParse(fs) && k <= |os|
    ensures ExtraIndices(Parsed(Merged(fs, os)), os, k) == []
  {
    if k > 0 {
      NothingLeftOver(fs, os, k - 1);
      var id := GetObjectIdentifier(os[k - 1]);
      var gs := Parsed(Merged(fs, os));
      if a: nat, b: nat :| Is(fs, a, b, id) {
        assert Is(gs, a, b, id);
      } else {
        var p := ExtraHolds(fs, os, k - 1, |os|);
        assert Is(gs, |fs|, p, id);
      }
    }
  }

  lemma {:induction false} ExtraHolds(fs: seq<File>, os: seq<Node>, l: nat, k: nat) returns (p: nat)
    requires l < k <= |os| && !Occurs(fs, GetObjectIdentifier(os[l]))
    ensures p < |ExtraIndices(fs, os, k)|
    ensures GetObjectIdentifier(os[ExtraIndices(fs, os, k)[p]]) == GetObjectIdentifier(os[l])
  {
    if l == k - 1 {
      p := |ExtraIndices(fs, os, k)| - 1;
    } else {
      p := ExtraHolds(fs, os, l, k - 1);
    }
  }

  /** No later override has the identifier of override `k`. */
  ghost predicate LastOfItsKind(os: seq<Node>, k: nat) {
    k < |os| && forall l :: k < l < |os| ==> GetObjectIdentifier(os[l]) != GetObjectIdentifier(os[k])
  }

  lemma LastIndexIs(os: seq<Node>, k: nat)
    requires LastOfItsKind(os, k)
    ensures Has(os, GetObjectIdentifier(os[k])) && LastIndex(os, GetObjectIdentifier(os[k])) == k
  {
    assert Has(os, GetObjectIdentifier(os[k]));
  }

  /** The last override of an identifier is written somewhere. */
  lemma LastIsWritten(fs: seq<File>, os: seq<Node>, k: nat) returns (i: nat, j: nat)
    requires AllParse(fs) && LastOfItsKind(os, k)
    ensures i < |Merged(fs, os)| && j < |Merged(fs, os)[i]| && Merged(fs, os)[i][j] == os[k]
  {
    LastIndexIs(os, k);
    var id := GetObjectIdentifier(os[k]);
    if a: nat, b: nat :| Is(fs, a, b, id) {
      i, j := FirstPlace(fs, id, a, b);
      assert Replaced(fs, os, i, j);
    } else {
      i := |fs|;
      j := ExtraHolds(fs, os, k, |os|);
      ExtraIsLast(fs, os, |os|);
      assert ExtraIndices(fs, os, |os|)[j] in ExtraIndices(fs, os, |os|);
    }
  }

  /** What is written is an original that no override replaces, or the last override of an identifier. */
  lemma WrittenIs(fs: seq<File>, os: seq<Node>, i: nat, j: nat)
    requires AllParse(fs) && i < |Merged(fs, os)| && j < |Merged(fs, os)[i]|
    ensures (At(fs, i, j) && !Replaced(fs, os, i, j) && Merged(fs, os)[i][j] == fs[i].value[j])
            || exists k: nat :: LastOfItsKind(os, k) && Merged(fs, os)[i][j] == os[k]
  {
    if i < |fs| && Replaced(fs, os, i, j) {
      assert LastOfItsKind(os, LastIndex(os, GetObjectIdentifier(fs[i].value[j])));
    } else if i == |fs| {
      ExtraIsLast(fs, os, |os|);
      var k := ExtraIndices(fs, os, |os|)[j];
      assert k in ExtraIndices(fs, os, |os|);
      assert LastOfItsKind(os, k);
    }
  }

  /** The merge succeeds exactly when all input parses and the scheme knows every original that is not replaced and
      the last override of every identifier; a replaced original and a superseded override need not be known. */
  lemma ConvertibleIff(fs: seq<File>, overrides: File)
    ensures Convertible(fs, overrides) <==>
      && overrides.Some? && AllParse(fs)
      && (forall i: nat, j: nat :: At(fs, i, j) && !Replaced(fs, overrides.value, i, j) ==> fs[i].value[j].typed)
      && (forall k: nat :: LastOfItsKind(overrides.value, k) ==> overrides.value[k].typed)
  {
    if overrides.Some? && AllParse(fs) {
      var os, merged := overrides.value, Merged(fs, overrides.value);
      AllTypedIff(merged);
      if AllTyped(merged) {
        forall k: nat | LastOfItsKind(os, k) ensures os[k].typed {
          var i, j := LastIsWritten(fs, os, k);
        }
        forall i: nat, j: nat | At(fs, i, j) && !Replaced(fs, os, i, j) ensures fs[i].value[j].typed {
          assert merged[i][j] == fs[i].value[j];
        }
      }
      forall i: nat, j: nat | i < |merged| && j < |merged[i]| { WrittenIs(fs, os, i, j); }
    }
  }

  lemma AllTypedIff(files: seq<seq<Node>>)
    ensures AllTyped(files) <==> forall i: nat, j: nat :: i < |files| && j < |files[i]| ==> files[i][j].typed
  {
  }

  /** The objects are returned in the order of the files and of the objects in each. */
  lemma {:induction false} FlatHolds(files: seq<seq<Node>>, i: nat, j: nat)
    requires i < |files| && j < |files[i]|
    ensures |Flat(files[..i])| + j < |Flat(files)| && Flat(files)[|Flat(files[..i])| + j] == files[i][j]
    ensures |Flat(files[..i + 1])| == |Flat(files[..i])| + |files[i]|
  {
    var n := |files| - 1;
    assert files[..i + 1][..i] == files[..i];
    if i == n {
      assert files[..n + 1] == files;
    } else {
      FlatHolds(files[..n], i, j);
      assert files[..n][..i] == files[..i];
    }
  }

  // ---- what identifiers tell apart ----

  /** What Kubernetes tells objects apart by. */
  function Key(n: Node): (string, string, string, string) {
    (n.apiVersion, n.kind, n.namespace, n.name)
  }

  ghost predicate KeepsKeys(fs: seq<File>, os: seq<Node>)
    requires AllParse(fs)
  {
    forall i: nat, j: nat :: At(fs, i, j) ==> Key(MergedNode(fs, os, i, j)) == Key(fs[i].value[j])
  }

  /** All objects of the files and all overrides are among `ns`. */
  ghost predicate Among(fs: seq<File>, os: seq<Node>, ns: set<Node>) {
    && AllParse(fs) && (forall k :: 0 <= k < |os| ==> os[k] in ns)
    && forall i: nat, j: nat :: At(fs, i, j) ==> fs[i].value[j] in ns
  }

  ghost predicate TellApart(ns: set<Node>) {
    forall a, b :: a in ns && b in ns && GetObjectIdentifier(a) == GetObjectIdentifier(b) ==> Key(a) == Key(b)
  }

  /** Where two objects share an identifier, either of them, given as an override, takes the place of the other. */
  lemma SharedIdentifierReplaces(a: Node, b: Node)
    requires GetObjectIdentifier(a) == GetObjectIdentifier(b)
    ensures Merged([Some([a])], [b]) == [[b]]
    ensures KeepsKeys([Some([a])], [b]) <==> Key(a) == Key(b)
  {
    var fs: seq<File>, os := [Some([a])], [b];
    assert os[0] == b && fs[0].value[0] == a && At(fs, 0, 0);
    assert Is(fs, 0, 0, GetObjectIdentifier(b));
    assert ExtraIndices(fs, os, 1) == [];
    assert Replaced(fs, os, 0, 0);
    assert MergedNode(fs, os, 0, 0) == b;
    assert MergedFile(fs, os, 0) == [b];
    assert Merged(fs, os) == [[b]];
  }

  /** Of a set of objects, every choice of files and overrides is merged without replacing an object by one of another
      key if and only if no two of them share an identifier and differ in their keys. */
  lemma KeepsKeysIff(ns: set<Node>)
    ensures (forall fs, os :: Among(fs, os, ns) ==> KeepsKeys(fs, os)) <==> TellApart(ns)
  {
    if TellApart(ns) {
      forall fs, os | Among(fs, os, ns) ensures KeepsKeys(fs, os) { }
    } else {
      var a, b :| a in ns && b in ns && GetObjectIdentifier(a) == GetObjectIdentifier(b) && Key(a) != Key(b);
      SharedIdentifierReplaces(a, b);
      assert Among([Some([a])], [b], ns);
    }
  }

  // ---- when identifiers are shared ----

  function Joined(fields: seq<string>): string {
    if fields == [] then "" else fields[0] + Joined(fields[1..])
  }

  /** The first field that differs has `shift` at its end in `b`, where in `a` the following fields begin with it. */
  ghost predicate Shifted(a: seq<string>, b: seq<string>, i: nat, shift: string) {
    && i < |a| == |b| && shift != "" && a[..i] == b[..i]
    && b[i] == a[i] + shift && Joined(a[i + 1..]) == shift + Joined(b[i + 1..])
  }

  lemma {:induction false} JoinedAt(fields: seq<string>, i: nat)
    requires i < |fields|
    ensures Joined(fields) == Joined(fields[..i]) + fields[i] + Joined(fields[i + 1..])
  {
    if i == 0 {
      assert fields[..0] == [] && Joined(fields[..0]) == "";
      assert "" + fields[0] == fields[0];
    } else {
      JoinedAt(fields[1..], i - 1);
      assert fields[1..][..i - 1] == fields[..i][1..] && fields[1..][i..] == fields[i + 1..];
    }
  }

  lemma Regroup(front: string, x: string, shift: string, y: string)
    ensures front + x + (shift + y) == front + (x + shift) + y
  {
  }

  lemma ShiftedShare(a: seq<string>, b: seq<string>, i: nat, shift: string)
    requires Shifted(a, b, i, shift)
    ensures Joined(a) == Joined(b) && a != b
  {
    JoinedAt(a, i);
    JoinedAt(b, i);
    Regroup(Joined(a[..i]), a[i], shift, Joined(b[i + 1..]));
    assert |a[i]| != |b[i]|;
  }

  lemma PrefixOfSame(x: string, more: string, y: string, rest: string)
    requires x + more == y + rest && |x| <= |y| && x != y
    ensures var shift := y[|x|..]; shift != "" && y == x + shift && more == shift + rest
  {
    var whole := x + more;
    assert whole[..|x|] == x && (y + rest)[..|x|] == y[..|x|];
    assert whole[|x|..] == more && (y + rest)[|x|..] == y[|x|..] + rest;
  }

  lemma {:induction false} SharedAreShifted(a: seq<string>, b: seq<string>) returns (i: nat, shift: string)
    requires |a| == |b| && Joined(a) == Joined(b) && a != b
    ensures Shifted(a, b, i, shift) || Shifted(b, a, i, shift)
  {
    if a[0] == b[0] {
      assert a == [a[0]] + a[1..] && b == [b[0]] + b[1..];
      assert Joined(a)[|a[0]|..] == Joined(a[1..]) && Joined(b)[|b[0]|..] == Joined(b[1..]);
      i, shift := SharedAreShifted(a[1..], b[1..]);
      assert a[..i + 1] == [a[0]] + a[1..][..i] && b[..i + 1] == [b[0]] + b[1..][..i];
      assert a[1..][i + 1..] == a[i + 2..] && b[1..][i + 1..] == b[i + 2..];
      i := i + 1;
    } else if |a[0]| <= |b[0]| {
      i, shift := 0, b[0][|a[0]|..];
      PrefixOfSame(a[0], Joined(a[1..]), b[0], Joined(b[1..]));
      assert Shifted(a, b, i, shift);
    } else {
      i, shift := 0, a[0][|b[0]|..];
      PrefixOfSame(b[0], Joined(b[1..]), a[0], Joined(a[1..]));
      assert Shifted(b, a, i, shift);
    }
  }

  function Fields(n: Node): seq<string> {
    [n.apiVersion, n.kind, n.namespace, n.name]
  }

  lemma IdentifierIsJoined(n: Node)
    ensures GetObjectIdentifier(n) == Joined(Fields(n))
  {
    assert Fields(n)[1..] == [n.kind, n.namespace, n.name] && Fields(n)[2..] == [n.namespace, n.name];
    assert Joined([n.name]) == n.name + "" == n.name;
    assert Joined([n.namespace, n.name]) == n.namespace + n.name;
    assert Joined([n.kind, n.namespace, n.name]) == n.kind + (n.namespace + n.name);
    assert Joined(Fields(n)) == n.apiVersion + (n.kind + (n.namespace + n.name));
  }

  /** Two objects have the same identifier and different keys if and only if what ends the first of the four fields in
      which they differ begins what follows that field in the other. */
  lemma SharedIdentifierIff(a: Node, b: Node)
    ensures GetObjectIdentifier(a) == GetObjectIdentifier(b) && Key(a) != Key(b)
            <==> exists i: nat, shift ::
              Shifted(Fields(a), Fields(b), i, shift) || Shifted(Fields(b), Fields(a), i, shift)
  {
    IdentifierIsJoined(a);
    IdentifierIsJoined(b);
    assert Key(a) == Key(b) <==> Fields(a) == Fields(b) by {
      assert Fields(a) == Fields(b) ==> forall k :: 0 <= k < 4 ==> Fields(a)[k] == Fields(b)[k];
    }
    if GetObjectIdentifier(a) == GetObjectIdentifier(b) && Key(a) != Key(b) {
      var i, shift := SharedAreShifted(Fields(a), Fields(b));
    }
    forall i: nat, shift | Shifted(Fields(a), Fields(b), i, shift) || Shifted(Fields(b), Fields(a), i, shift)
      ensures Joined(Fields(a)) == Joined(Fields(b)) && Fields(a) != Fields(b)
    {
      if Shifted(Fields(a), Fields(b), i, shift) {
        ShiftedShare(Fields(a), Fields(b), i, shift);
      } else {
        ShiftedShare(Fields(b), Fields(a), i, shift);
      }
    }
  }
}
