/** Rewriting the Helm values of an application: every string with the `cnoe://` scheme, at any depth, becomes the
    URL of the git repository that serves it. */
module HelmValues {

  import opened Options
  import opened Text

  /** A JSON value; `Other` is a number, boolean or null. */
  datatype Value =
    | Str(text: string)
    | Other(literal: int)
    | Obj(fields: map<string, Value>)
    | Arr(items: seq<Value>)

  /** The repository that serves a URL: its internal URL, or `None` when reconciling it fails. */
  type Resolver = string -> Option<string>

  const SCHEME := "cnoe://"

  predicate IsCNOEScheme(url: string) {
    HasPrefix(url, SCHEME)
  }

  // ---- what the rewrite should do, place by place ----

  /** A step into a value: the key of an object's field or the index of a list's item. */
  datatype Step = Key(name: string) | Index(i: nat)

  function Child(v: Value, s: Step): Option<Value> {
    match (v, s)
    case (Obj(fields), Key(k)) => if k in fields then Some(fields[k]) else None
    case (Arr(items), Index(i)) => if i < |items| then Some(items[i]) else None
    case _ => None
  }

  /** The value found by following `path`. */
  function At(v: Value, path: seq<Step>): Option<Value> {
    if path == [] then Some(v)
    else
      match Child(v, path[0])
      case None => None
      case Some(child) => At(child, path[1..])
  }

  /** Some string with the scheme cannot be resolved. */
  ghost predicate Fails(resolve: Resolver, v: Value) {
    exists path :: Unresolved(resolve, At(v, path))
  }

  predicate Unresolved(resolve: Resolver, v: Option<Value>) {
    v.Some? && v.value.Str? && IsCNOEScheme(v.value.text) && resolve(v.value.text).None?
  }

  /** `after` is `before` rewritten: the same constructor, keys and length, the same strings but for those with the
      scheme. */
  predicate Alike(resolve: Resolver, before: Value, after: Value) {
    match before
    case Str(text) =>
      after.Str? && (if IsCNOEScheme(text) then resolve(text) == Some(after.text) else after == before)
    case Other(_) => after == before
    case Obj(fields) => after.Obj? && after.fields.Keys == fields.Keys
    case Arr(items) => after.Arr? && |after.items| == |items|
  }

  /** At every place the new value is the old one rewritten, and there are no other places. */
  ghost predicate IsRewritten(resolve: Resolver, before: Value, after: Value) {
    forall path :: PlaceAlike(resolve, At(before, path), At(after, path))
  }

  predicate PlaceAlike(resolve: Resolver, before: Option<Value>, after: Option<Value>) {
    && (before.Some? <==> after.Some?)
    && (before.Some? ==> Alike(resolve, before.value, after.value))
  }

  /** The scheme is a prefix. */
  lemma IsCNOESchemeIff(url: string)
    ensures IsCNOEScheme(url) <==> exists rest :: url == "cnoe://" + rest
  {
    if IsCNOEScheme(url) {
      assert url == "cnoe://" + url[|SCHEME|..];
    }
    forall rest | url == "cnoe://" + rest ensures IsCNOEScheme(url) {
      assert url[..|SCHEME|] == SCHEME;
    }
  }

  // ---- places of a value and of its children ----

  predicate Container(v: Value) {
    v.Obj? || v.Arr?
  }

  lemma AtChild(v: Value, s: Step, path: seq<Step>)
    requires Child(v, s).Some?
    ensures At(v, [s] + path) == At(Child(v, s).value, path)
  {
    assert ([s] + path)[1..] == path;
  }

  lemma ChildFails(resolve: Resolver, v: Value, s: Step)
    requires Child(v, s).Some? && Fails(resolve, Child(v, s).value)
    ensures Fails(resolve, v)
  {
    var path :| Unresolved(resolve, At(Child(v, s).value, path));
    AtChild(v, s, path);
    assert Unresolved(resolve, At(v, [s] + path));
  }

  lemma FailsInChild(resolve: Resolver, v: Value)
    requires Container(v) && Fails(resolve, v)
    ensures exists s :: Child(v, s).Some? && Fails(resolve, Child(v, s).value)
  {
    var path :| Unresolved(resolve, At(v, path));
    AtChild(v, path[0], path[1..]);
    assert Unresolved(resolve, At(Child(v, path[0]).value, path[1..]));
  }

  lemma LeafFailsIff(resolve: Resolver, v: Value)
    requires !Container(v)
    ensures Fails(resolve, v) <==> Unresolved(resolve, Some(v))
  {
    assert At(v, []) == Some(v);
  }

  lemma LeafRewritten(resolve: Resolver, v: Value, r: Value)
    requires !Container(v) && Alike(resolve, v, r)
    ensures IsRewritten(resolve, v, r)
  {
    forall path ensures PlaceAlike(resolve, At(v, path), At(r, path)) {
    }
  }

  lemma ChildrenRewritten(resolve: Resolver, v: Value, r: Value)
    requires Container(v) && Alike(resolve, v, r)
    requires forall s :: Child(v, s).Some? ==>
      Child(r, s).Some? && IsRewritten(resolve, Child(v, s).value, Child(r, s).value)
    ensures IsRewritten(resolve, v, r)
  {
    forall path ensures PlaceAlike(resolve, At(v, path), At(r, path)) {
      if path != [] {
        assert Child(v, path[0]).Some? <==> Child(r, path[0]).Some?;
        if Child(v, path[0]).Some? {
          assert PlaceAlike(resolve, At(Child(v, path[0]).value, path[1..]), At(Child(r, path[0]).value, path[1..]));
        }
      }
    }
  }

  lemma RewrittenChildren(resolve: Resolver, v: Value, r: Value, s: Step)
    requires IsRewritten(resolve, v, r) && Child(v, s).Some?
    ensures Child(r, s).Some? && IsRewritten(resolve, Child(v, s).value, Child(r, s).value)
  {
    assert PlaceAlike(resolve, At(v, []), At(r, []));
    forall path ensures PlaceAlike(resolve, At(Child(v, s).value, path), At(Child(r, s).value, path)) {
      AtChild(v, s, path);
      AtChild(r, s, path);
      assert PlaceAlike(resolve, At(v, [s] + path), At(r, [s] + path));
    }
  }

  // ---- the rewrite ----

  /** Rewrites a value, in whatever order the keys of an object come; stops at the first string that cannot be
      resolved. */
  method ReconcileHelmValueObjectSource(resolve: Resolver, v: Value) returns (ok: bool, r: Value)
    ensures ok <==> !Fails(resolve, v)
    ensures ok ==> IsRewritten(resolve, v, r)
    decreases v
  {
    match v
    case Str(text) =>
      LeafFailsIff(resolve, v);
      if IsCNOEScheme(text) {
        var repo := resolve(text);
        if repo.None? {
          return false, v;
        }
        r := Str(repo.value);
      } else {
        r := v;
      }
      ok := true;
      LeafRewritten(resolve, v, r);
    case Other(_) =>
      LeafFailsIff(resolve, v);
      LeafRewritten(resolve, v, v);
      ok, r := true, v;
    case Obj(fields) =>
      ok, r := ReconcileFields(resolve, fields);
    case Arr(items) =>
      ok, r := ReconcileItems(resolve, items);
  }

  method ReconcileFields(resolve: Resolver, fields: map<string, Value>) returns (ok: bool, r: Value)
    ensures ok <==> !Fails(resolve, Obj(fields))
    ensures ok ==> IsRewritten(resolve, Obj(fields), r)
    decreases Obj(fields), 0
  {
    ghost var v := Obj(fields);
    var val, todo := fields, fields.Keys;
    while todo != {}
      invariant todo <= fields.Keys == val.Keys
      invariant forall k :: k in fields && k !in todo ==>
        !Fails(resolve, fields[k]) && IsRewritten(resolve, fields[k], val[k])
    {
      var k :| k in todo;
      var res, child := ReconcileHelmValueObjectSource(resolve, fields[k]);
      if !res {
        assert Child(v, Key(k)) == Some(fields[k]);
        ChildFails(resolve, v, Key(k));
        return false, Obj(val);
      }
      val := val[k := child];
      todo := todo - {k};
    }
    r := Obj(val);
    ok := true;
    if Fails(resolve, v) {
      FailsInChild(resolve, v);
    }
    ChildrenRewritten(resolve, v, r);
  }

  method ReconcileItems(resolve: Resolver, items: seq<Value>) returns (ok: bool, r: Value)
    ensures ok <==> !Fails(resolve, Arr(items))
    ensures ok ==> IsRewritten(resolve, Arr(items), r)
    decreases Arr(items), 0
  {
    ghost var v := Arr(items);
    var val := items;
    for k := 0 to |items|
      invariant |val| == |items|
      invariant forall i :: 0 <= i < k ==> !Fails(resolve, items[i]) && IsRewritten(resolve, items[i], val[i])
    {
      var res, child := ReconcileHelmValueObjectSource(resolve, items[k]);
      if !res {
        assert Child(v, Index(k)) == Some(items[k]);
        ChildFails(resolve, v, Index(k));
        return false, Arr(val);
      }
      val := val[k := child];
    }
    r := Arr(val);
    ok := true;
    if Fails(resolve, v) {
      FailsInChild(resolve, v);
    }
    ChildrenRewritten(resolve, v, r);
  }

  /** The raw values of a source: none, bytes that are no JSON, or a JSON value. */
  datatype Raw = Absent | NotJson | Json(value: Value)

  class HelmSource {
    var valuesObject: Raw

    constructor (raw: Raw)
      ensures valuesObject == raw
    {
      valuesObject := raw;
    }

    method ReconcileHelmValueObject(resolve: Resolver) returns (ok: bool)
      modifies this
      ensures ok <==> old(valuesObject).Absent? || (old(valuesObject).Json? && !Fails(resolve, old(valuesObject).value))
      ensures !ok || old(valuesObject).Absent? ==> valuesObject == old(valuesObject)
      ensures ok && old(valuesObject).Json? ==>
        valuesObject.Json? && IsRewritten(resolve, old(valuesObject).value, valuesObject.value)
    {
      if valuesObject.Absent? {
        return true;
      }
      if valuesObject.NotJson? {
        return false;
      }
      var data;
      ok, data := ReconcileHelmValueObjectSource(resolve, valuesObject.value);
      if ok {
        valuesObject := Json(data);
      }
    }
  }

  // ---- what the rewritten value is ----

  /** A value has a rewritten form exactly when no string in it fails to resolve. */
  lemma RewritableIff(resolve: Resolver, v: Value)
    ensures (exists r :: IsRewritten(resolve, v, r)) <==> !Fails(resolve, v)
  {
    if r :| IsRewritten(resolve, v, r) {
      forall path ensures !Unresolved(resolve, At(v, path)) {
        assert PlaceAlike(resolve, At(v, path), At(r, path));
      }
    }
    if !Fails(resolve, v) {
      var r := RewrittenForm(resolve, v);
    }
  }

  lemma {:induction false} RewrittenForm(resolve: Resolver, v: Value) returns (r: Value)
    requires !Fails(resolve, v)
    ensures IsRewritten(resolve, v, r)
    decreases v
  {
    match v
    case Str(text) =>
      LeafFailsIff(resolve, v);
      r := if IsCNOEScheme(text) then Str(resolve(text).value) else v;
      LeafRewritten(resolve, v, r);
    case Other(_) =>
      r := v;
      LeafRewritten(resolve, v, r);
    case Obj(fields) =>
      var out := RewrittenFields(resolve, v, fields, fields.Keys);
      r := Obj(out);
      forall s | Child(v, s).Some?
        ensures Child(r, s).Some? && IsRewritten(resolve, Child(v, s).value, Child(r, s).value) { }
      ChildrenRewritten(resolve, v, r);
    case Arr(items) =>
      var out := RewrittenItems(resolve, v, items, |items|);
      r := Arr(out);
      forall s | Child(v, s).Some?
        ensures Child(r, s).Some? && IsRewritten(resolve, Child(v, s).value, Child(r, s).value) { }
      ChildrenRewritten(resolve, v, r);
  }

  lemma {:induction false} RewrittenFields(resolve: Resolver, v: Value, fields: map<string, Value>, keys: set<string>)
    returns (out: map<string, Value>)
    requires !Fails(resolve, v) && v == Obj(fields) && keys <= fields.Keys
    ensures out.Keys == keys && forall k :: k in keys ==> IsRewritten(resolve, fields[k], out[k])
    decreases v, 0, |keys|
  {
    if keys == {} {
      out := map[];
    } else {
      var k :| k in keys;
      out := RewrittenFields(resolve, v, fields, keys - {k});
      if Fails(resolve, fields[k]) { ChildFails(resolve, v, Key(k)); }
      var r := RewrittenForm(resolve, fields[k]);
      out := out[k := r];
    }
  }

  lemma {:induction false} RewrittenItems(resolve: Resolver, v: Value, items: seq<Value>, n: nat)
    returns (out: seq<Value>)
    requires !Fails(resolve, v) && v == Arr(items) && n <= |items|
    ensures |out| == n && forall i :: 0 <= i < n ==> IsRewritten(resolve, items[i], out[i])
    decreases v, 0, n
  {
    if n == 0 {
      out := [];
    } else {
      out := RewrittenItems(resolve, v, items, n - 1);
      if Fails(resolve, items[n - 1]) { ChildFails(resolve, v, Index(n - 1)); }
      var r := RewrittenForm(resolve, items[n - 1]);
      out := out + [r];
    }
  }

  /** A string with the scheme becomes what it resolves to, and any other string stays. */
  lemma RewrittenString(resolve: Resolver, text: string, r: Value)
    ensures IsRewritten(resolve, Str(text), r) <==>
      if exists rest :: text == "cnoe://" + rest then r.Str? && resolve(text) == Some(r.text) else r == Str(text)
  {
    IsCNOESchemeIff(text);
    if IsRewritten(resolve, Str(text), r) {
      assert PlaceAlike(resolve, At(Str(text), []), At(r, []));
    } else if Alike(resolve, Str(text), r) {
      LeafRewritten(resolve, Str(text), r);
    }
  }

  /** The result does not depend on the order in which keys are visited. */
  lemma {:induction false} RewrittenIsUnique(resolve: Resolver, v: Value, a: Value, b: Value)
    requires IsRewritten(resolve, v, a) && IsRewritten(resolve, v, b)
    ensures a == b
    decreases v
  {
    assert PlaceAlike(resolve, At(v, []), At(a, [])) && PlaceAlike(resolve, At(v, []), At(b, []));
    match v
    case Str(_) =>
    case Other(_) =>
    case Obj(fields) =>
      forall k | k in fields ensures a.fields[k] == b.fields[k] {
        RewrittenChildren(resolve, v, a, Key(k));
        RewrittenChildren(resolve, v, b, Key(k));
        RewrittenIsUnique(resolve, fields[k], a.fields[k], b.fields[k]);
      }
      assert a.fields == b.fields;
    case Arr(items) =>
      forall i | 0 <= i < |items| ensures a.items[i] == b.items[i] {
        RewrittenChildren(resolve, v, a, Index(i));
        RewrittenChildren(resolve, v, b, Index(i));
        RewrittenIsUnique(resolve, items[i], a.items[i], b.items[i]);
      }
      assert a.items == b.items;
  }

  predicate SchemeAt(v: Value, path: seq<Step>) {
    At(v, path).Some? && At(v, path).value.Str? && IsCNOEScheme(At(v, path).value.text)
  }

  /** A string with the scheme is left exactly where a string with the scheme resolved to one with the scheme. */
  lemma SchemeLeftIff(resolve: Resolver, v: Value, r: Value, path: seq<Step>)
    requires IsRewritten(resolve, v, r)
    ensures SchemeAt(r, path) <==>
      SchemeAt(v, path) && resolve(At(v, path).value.text).Some? && IsCNOEScheme(resolve(At(v, path).value.text).value)
  {
    assert PlaceAlike(resolve, At(v, path), At(r, path));
  }

  /** Values without such strings are rewritten to themselves; so when no resolved URL has the scheme, a second
      rewrite changes nothing. */
  lemma SecondRewriteIsIdle(resolve: Resolver, v: Value, r: Value)
    requires IsRewritten(resolve, v, r)
    requires forall url :: resolve(url).Some? ==> !IsCNOEScheme(resolve(url).value)
    ensures !Fails(resolve, r) && IsRewritten(resolve, r, r)
    ensures forall again :: IsRewritten(resolve, r, again) ==> again == r
  {
    forall path ensures !SchemeAt(r, path) {
      SchemeLeftIff(resolve, v, r, path);
    }
    forall path ensures PlaceAlike(resolve, At(r, path), At(r, path)) && !Unresolved(resolve, At(r, path)) {
      assert !SchemeAt(r, path);
    }
    forall again | IsRewritten(resolve, r, again) ensures again == r {
      RewrittenIsUnique(resolve, r, r, again);
    }
  }
}
