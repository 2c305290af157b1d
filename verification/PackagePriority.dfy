/** Custom packages compete for an application by priority. One controller creates and deletes them,
    another asks which of them may act. */
module PackagePriority {
  import opened Options
  import opened Text

  /** A stored CustomPackage; a missing or unreadable priority annotation is `None`. */
  datatype Package = Package(app: string, priority: Option<int>, source: string)

  type Store = map<string, Package>

  /** One manifest found in a package directory, file or repository. */
  datatype Declaration = Declaration(file: string, app: string, priority: int, source: string) {
    function Name(): string {
      GetCustomPackageName(file, app)
    }

    function Stored(): Package {
      Package(app, Some(priority), source)
    }
  }

  /** What precedes the first dot. */
  function Stem(fileName: string): string {
    if fileName == "" || fileName[0] == '.' then "" else [fileName[0]] + Stem(fileName[1..])
  }

  function GetCustomPackageName(fileName: string, appName: string): string {
    ToLower(Stem(fileName)) + "-" + appName
  }

  /** The name is the file's up to the first dot, in lower case, and the application's. */
  lemma {:induction false} PackageNameIs(stem: string, rest: string, appName: string)
    requires '.' !in stem
    ensures GetCustomPackageName(stem + "." + rest, appName) == ToLower(stem) + "-" + appName
    ensures GetCustomPackageName(stem, appName) == ToLower(stem) + "-" + appName
  {
    StemIs(stem, rest);
  }

  lemma {:induction false} StemIs(stem: string, rest: string)
    requires '.' !in stem
    ensures Stem(stem + "." + rest) == stem && Stem(stem) == stem
  {
    if stem == "" {
      assert stem + "." + rest == "." + rest;
    } else {
      StemIs(stem[1..], rest);
      assert (stem + "." + rest)[1..] == stem[1..] + "." + rest;
      assert stem == [stem[0]] + stem[1..];
    }
  }

  // ---- one declaration ----

  /** An annotated package of the same application with a higher priority is stored. */
  ghost predicate Outranked(s: Store, d: Declaration) {
    exists n :: n in s && s[n].app == d.app && s[n].priority.Some? && s[n].priority.value > d.priority
  }

  ghost predicate IsLower(s: Store, d: Declaration, n: string) {
    n in s && s[n].app == d.app && s[n].priority.Some? && s[n].priority.value < d.priority
  }

  ghost function Lower(s: Store, d: Declaration): set<string> {
    set n | n in s && IsLower(s, d, n)
  }

  /** Annotated packages of one application all have the same priority. */
  ghost predicate Uniform(s: Store) {
    forall n, m :: n in s && m in s && s[n].app == s[m].app && s[n].priority.Some? && s[m].priority.Some? ==>
      s[n].priority == s[m].priority
  }

  /** One declaration against a uniform store. */
  ghost function After(s: Store, d: Declaration): Store {
    if Outranked(s, d) then s else (s - Lower(s, d))[d.Name() := d.Stored()]
  }

  ghost function Final(s: Store, ds: seq<Declaration>): Store {
    if ds == [] then s else After(Final(s, ds[..|ds| - 1]), ds[|ds| - 1])
  }

  /** One declaration, name by name. If an annotated package of its application has a higher priority, nothing happens.
      Otherwise its own name holds what it declares, annotated packages of its application with a lower priority are
      gone from all other names, and what else there is stays. */
  lemma AfterIs(s: Store, d: Declaration, n: string)
    ensures var t := After(s, d);
      if exists m :: m in s && s[m].app == d.app && s[m].priority.Some? && s[m].priority.value > d.priority then t == s
      else
        && d.Name() in t && t[d.Name()] == Package(d.app, Some(d.priority), d.source)
        && (n != d.Name() ==>
            && (n in t <==> n in s && !(s[n].app == d.app && s[n].priority.Some? && s[n].priority.value < d.priority))
            && (n in t ==> t[n] == s[n]))
  {
  }

  lemma UniformStep(s: Store, d: Declaration)
    requires Uniform(s)
    ensures Uniform(After(s, d))
    ensures Outranked(s, d) ==> Lower(s, d) == {}
  {
  }

  class Api {
    var pkgs: Store

    constructor ()
      ensures pkgs == map[]
    {
      pkgs := map[];
    }

    /** `reconcileCustomPkg`. The listing is a snapshot gone through in any order; a higher priority ends the call
        where it is met, so some lower ones may already be deleted by then. */
    method ReconcileCustomPkg(d: Declaration)
      modifies this
      ensures Outranked(old(pkgs), d) ==>
        exists gone :: gone <= Lower(old(pkgs), d) && pkgs == old(pkgs) - gone
      ensures !Outranked(old(pkgs), d) ==> pkgs == After(old(pkgs), d)
      ensures Uniform(old(pkgs)) ==> pkgs == After(old(pkgs), d)
    {
      var existing := pkgs;
      ghost var gone: set<string> := {};
      var rest := existing.Keys;
      while rest != {}
        invariant rest <= existing.Keys && pkgs == existing - gone
        invariant gone == Lower(existing, d) - rest
        invariant forall n :: n in existing.Keys - rest ==>
          !(existing[n].app == d.app && existing[n].priority.Some? && existing[n].priority.value > d.priority)
        decreases rest
      {
        var n :| n in rest;
        rest := rest - {n};
        var other := existing[n];
        if other.app == d.app {
          if other.priority.Some? {
            if other.priority.value > d.priority {
              assert Outranked(existing, d);
              return;
            } else if other.priority.value < d.priority {
              pkgs := pkgs - {n};
              gone := gone + {n};
            }
          }
        }
      }
      pkgs := pkgs[d.Name() := d.Stored()];
    }

    method ReconcileAll(ds: seq<Declaration>)
      requires Uniform(pkgs)
      modifies this
      ensures Uniform(pkgs) && pkgs == Final(old(pkgs), ds)
    {
      var i := 0;
      while i < |ds|
        invariant 0 <= i <= |ds| && Uniform(pkgs) && pkgs == Final(old(pkgs), ds[..i])
      {
        assert ds[..i + 1][..i] == ds[..i];
        UniformStep(pkgs, ds[i]);
        ReconcileCustomPkg(ds[i]);
        i := i + 1;
      }
      assert ds[..i] == ds;
    }

    /** `shouldReconcile`: may this package act, given what is stored? */
    method ShouldReconcile(name: string, p: Package) returns (r: bool)
      ensures r <==> MayReconcile(pkgs, name, p)
    {
      if p.priority.None? {
        return true;
      }
      var rest := pkgs.Keys;
      while rest != {}
        invariant rest <= pkgs.Keys
        invariant forall n :: n in pkgs.Keys - rest ==> !Beats(pkgs, n, name, p)
        decreases rest
      {
        var n :| n in rest;
        rest := rest - {n};
        if n == name {
          continue;
        }
        if pkgs[n].app != p.app {
          continue;
        }
        if pkgs[n].priority.None? {
          continue;
        }
        if pkgs[n].priority.value > p.priority.value {
          assert Beats(pkgs, n, name, p);
          return false;
        }
      }
      return true;
    }
  }

  ghost predicate Beats(s: Store, n: string, name: string, p: Package)
    requires p.priority.Some?
  {
    n in s && n != name && s[n].app == p.app && s[n].priority.Some? && s[n].priority.value > p.priority.value
  }

  ghost predicate MayReconcile(s: Store, name: string, p: Package) {
    p.priority.None? || !exists n :: Beats(s, n, name, p)
  }

  /** A package without a priority may always act; one with a priority may act unless another annotated package of its
      application has a higher one. */
  lemma MayReconcileIff(s: Store, name: string, p: Package)
    ensures p.priority.None? ==> MayReconcile(s, name, p)
    ensures p.priority.Some? ==>
      (MayReconcile(s, name, p) <==>
        forall n :: n in s && n != name && s[n].app == p.app && s[n].priority.Some? ==>
          s[n].priority.value <= p.priority.value)
  {
    if p.priority.Some? {
      forall n ensures Beats(s, n, name, p) <==>
        n in s && n != name && s[n].app == p.app && s[n].priority.Some? && s[n].priority.value > p.priority.value { }
    }
  }

  // ---- whole passes ----

  /** The highest priority declared for an application. */
  function Top(ds: seq<Declaration>, app: string): Option<int> {
    if ds == [] then None
    else
      var d, front := ds[|ds| - 1], Top(ds[..|ds| - 1], app);
      if d.app == app && (front.None? || front.value < d.priority) then Some(d.priority) else front
  }

  ghost predicate IsWinner(ds: seq<Declaration>, d: Declaration) {
    d in ds && Top(ds, d.app) == Some(d.priority)
  }

  /** `Top` is the maximum: reached by a declaration, exceeded by none. */
  lemma {:induction false} TopIsMaximum(ds: seq<Declaration>, app: string)
    ensures Top(ds, app).Some? ==> exists w :: IsWinner(ds, w) && w.app == app
    ensures forall e :: e in ds && e.app == app ==> Top(ds, app).Some? && e.priority <= Top(ds, app).value
  {
    if ds != [] {
      var front, last := ds[..|ds| - 1], ds[|ds| - 1];
      assert ds == front + [last];
      TopIsMaximum(front, app);
      assert last in ds;
      if Top(front, app).Some? {
        var w :| IsWinner(front, w) && w.app == app;
        assert w in ds;
        assert Top(ds, app) == Some(w.priority) ==> IsWinner(ds, w);
        assert Top(ds, app) != Some(w.priority) ==> IsWinner(ds, last);
      } else {
        assert Top(ds, app).Some? ==> IsWinner(ds, last);
      }
    }
  }

  ghost predicate Holds(s: Store, d: Declaration) {
    d.Name() in s && s[d.Name()].app == d.app && s[d.Name()].priority == Some(d.priority)
  }

  /** Name `n` holds a package that one of these declarations describes. */
  ghost predicate Comes(s: Store, n: string, from: seq<Declaration>) {
    exists d :: d in from && d.Name() == n && Holds(s, d)
  }

  /** Every application has exactly the packages declared at its highest priority, and they carry it. */
  ghost predicate Settled(ds: seq<Declaration>, s: Store) {
    && (forall n :: n in s ==> Comes(s, n, ds) && s[n].priority == Top(ds, s[n].app))
    && (forall d :: IsWinner(ds, d) ==> Holds(s, d))
  }

  /** No winner shares its generated name with a declaration of another application. */
  ghost predicate WinnersNamedApart(ds: seq<Declaration>) {
    forall d, e :: IsWinner(ds, d) && e in ds && e.Name() == d.Name() ==> e.app == d.app
  }

  /** After a part of the declarations: everything stored was declared, applications are uniform, and the winners
      met so far are in place. */
  ghost predicate Partly(ds: seq<Declaration>, done: seq<Declaration>, s: Store) {
    && Uniform(s)
    && (forall n :: n in s ==> Comes(s, n, done))
    && (forall d :: d in done && IsWinner(ds, d) ==> Holds(s, d))
  }

  lemma StepComes(done: seq<Declaration>, s: Store, d: Declaration, n: string)
    requires n in After(s, d) && forall m :: m in s ==> Comes(s, m, done)
    ensures Comes(After(s, d), n, done + [d])
  {
    var t := After(s, d);
    if n in s && t[n] == s[n] {
      assert Comes(s, n, done);
      var e :| e in done && e.Name() == n && Holds(s, e);
      assert e in done + [d] && Holds(t, e);
    } else {
      assert d in done + [d] && d.Name() == n && Holds(t, d);
    }
  }

  lemma StepHolds(ds: seq<Declaration>, done: seq<Declaration>, s: Store, d: Declaration, w: Declaration)
    requires WinnersNamedApart(ds) && Partly(ds, done, s) && d in ds && forall e :: e in done ==> e in ds
    requires w in done + [d] && IsWinner(ds, w)
    ensures Holds(After(s, d), w)
  {
    if w in done {
      assert Holds(s, w);
      TopIsMaximum(ds, d.app);
    } else {
      NotOutranked(ds, done, s, d);
    }
  }

  lemma PartlyStep(ds: seq<Declaration>, done: seq<Declaration>, s: Store, d: Declaration)
    requires WinnersNamedApart(ds) && Partly(ds, done, s) && d in ds && forall e :: e in done ==> e in ds
    ensures Partly(ds, done + [d], After(s, d))
  {
    UniformStep(s, d);
    forall n | n in After(s, d) ensures Comes(After(s, d), n, done + [d]) { StepComes(done, s, d, n); }
    forall w | w in done + [d] && IsWinner(ds, w) ensures Holds(After(s, d), w) { StepHolds(ds, done, s, d, w); }
  }

  /** Nothing declared outranks a winner. */
  lemma NotOutranked(ds: seq<Declaration>, done: seq<Declaration>, s: Store, w: Declaration)
    requires IsWinner(ds, w) && (forall e :: e in done ==> e in ds) && forall n :: n in s ==> Comes(s, n, done)
    ensures !Outranked(s, w)
  {
    TopIsMaximum(ds, w.app);
    forall n | n in s && s[n].app == w.app ensures s[n].priority.Some? && s[n].priority.value <= w.priority {
      var e :| e in done && e.Name() == n && Holds(s, e);
    }
  }

  lemma {:induction false} PassIsPartly(ds: seq<Declaration>, done: seq<Declaration>)
    requires WinnersNamedApart(ds) && forall e :: e in done ==> e in ds
    ensures Partly(ds, done, Final(map[], done))
  {
    if done != [] {
      var front, d := done[..|done| - 1], done[|done| - 1];
      assert done == front + [d];
      PassIsPartly(ds, front);
      PartlyStep(ds, front, Final(map[], front), d);
    }
  }

  lemma PartlyIsSettled(ds: seq<Declaration>, done: seq<Declaration>, s: Store)
    requires Partly(ds, done, s) && forall e :: e in done <==> e in ds
    ensures Settled(ds, s)
  {
    forall n | n in s ensures Comes(s, n, ds) && s[n].priority == Top(ds, s[n].app) {
      var d :| d in done && d.Name() == n && Holds(s, d);
      assert d in ds;
      TopIsMaximum(ds, d.app);
      var w :| IsWinner(ds, w) && w.app == d.app;
      assert Holds(s, w);
    }
  }

  ghost predicate IsStored(s: Store, w: Declaration) {
    w.Name() in s && s[w.Name()] == w.Stored()
  }

  /** A stored winner stays until another winner has its name. */
  lemma WinnerStays(ds: seq<Declaration>, s: Store, d: Declaration, w: Declaration)
    requires WinnersNamedApart(ds) && IsWinner(ds, w) && IsStored(s, w)
    requires d in ds && (d.Name() == w.Name() ==> !IsWinner(ds, d))
    ensures IsStored(After(s, d), w)
  {
    TopIsMaximum(ds, w.app);
    assert d.app == w.app ==> d.priority <= w.priority;
    if d.Name() == w.Name() {
      assert d.app == w.app && d.priority < w.priority;
      assert Outranked(s, d);
    }
  }

  /** Of the winners with one name the last in the order is the one that is stored, with its source. */
  lemma {:induction false} LastWinnerIsStored(ds: seq<Declaration>, done: seq<Declaration>, i: nat)
    requires WinnersNamedApart(ds) && (forall e :: e in done ==> e in ds) && i < |done| && IsWinner(ds, done[i])
    requires forall j :: i < j < |done| && done[j].Name() == done[i].Name() ==> !IsWinner(ds, done[j])
    ensures IsStored(Final(map[], done), done[i])
  {
    var n := |done| - 1;
    var front := done[..n];
    var s := Final(map[], front);
    if i == n {
      PassIsPartly(ds, front);
      NotOutranked(ds, front, s, done[i]);
    } else {
      LastWinnerIsStored(ds, front, i);
      WinnerStays(ds, s, done[n], done[i]);
    }
  }

  /** When winners are named apart, every order of the declarations settles. */
  lemma EveryOrderSettles(ds: seq<Declaration>, order: seq<Declaration>)
    requires WinnersNamedApart(ds) && multiset(order) == multiset(ds)
    ensures Settled(ds, Final(map[], order))
  {
    forall e ensures e in order <==> e in ds { assert e in multiset(order) <==> e in multiset(ds); }
    PassIsPartly(ds, order);
    PartlyIsSettled(ds, order, Final(map[], order));
  }

  /** The names and priorities an order ends with. */
  function View(s: Store): map<string, (string, Option<int>)> {
    map n | n in s :: (s[n].app, s[n].priority)
  }

  lemma SettledHas(ds: seq<Declaration>, s: Store, t: Store, n: string)
    requires Settled(ds, s) && Settled(ds, t) && n in s
    ensures n in t && t[n].app == s[n].app && t[n].priority == s[n].priority
  {
    var d :| d in ds && d.Name() == n && Holds(s, d);
    assert IsWinner(ds, d) && Holds(t, d);
  }

  lemma SettledIsUnique(ds: seq<Declaration>, s: Store, t: Store)
    requires Settled(ds, s) && Settled(ds, t)
    ensures View(s) == View(t)
  {
    forall n | n in s { SettledHas(ds, s, t, n); }
    forall n | n in t { SettledHas(ds, t, s, n); }
  }

  /** The final names and priorities do not depend on the order of the declarations. */
  lemma OrderDoesNotMatter(ds: seq<Declaration>, a: seq<Declaration>, b: seq<Declaration>)
    requires WinnersNamedApart(ds) && multiset(a) == multiset(ds) && multiset(b) == multiset(ds)
    ensures View(Final(map[], a)) == View(Final(map[], b))
  {
    EveryOrderSettles(ds, a);
    EveryOrderSettles(ds, b);
    SettledIsUnique(ds, Final(map[], a), Final(map[], b));
  }

  // ---- names shared between applications ----

  function Of(ds: seq<Declaration>, app: string): seq<Declaration> {
    if ds == [] then []
    else (if ds[0].app == app then [ds[0]] else []) + Of(ds[1..], app)
  }

  function NotOf(ds: seq<Declaration>, app: string): seq<Declaration> {
    if ds == [] then []
    else (if ds[0].app != app then [ds[0]] else []) + NotOf(ds[1..], app)
  }

  lemma {:induction false} Partition(ds: seq<Declaration>, app: string)
    ensures multiset(Of(ds, app) + NotOf(ds, app)) == multiset(ds)
    ensures forall d :: d in Of(ds, app) <==> d in ds && d.app == app
    ensures forall d :: d in NotOf(ds, app) <==> d in ds && d.app != app
  {
    if ds != [] {
      Partition(ds[1..], app);
      assert ds == [ds[0]] + ds[1..];
      assert multiset(Of(ds, app) + NotOf(ds, app)) == multiset(Of(ds, app)) + multiset(NotOf(ds, app));
    }
  }

  /** Packages of `app` are stored only under names declared for it so far, and name `n` is not its. */
  lemma {:induction false} NeverComesBack(s: Store, more: seq<Declaration>, app: string, n: string)
    requires n in s ==> s[n].app != app
    requires forall d :: d in more ==> d.app != app
    ensures n in Final(s, more) ==> Final(s, more)[n].app != app
  {
    if more != [] {
      var front, d := more[..|more| - 1], more[|more| - 1];
      assert more == front + [d];
      NeverComesBack(s, front, app, n);
    }
  }

  lemma {:induction false} OnlyDeclared(ds: seq<Declaration>)
    ensures forall n :: n in Final(map[], ds) ==> exists d :: d in ds && Final(map[], ds)[n].app == d.app
  {
    if ds != [] {
      var front, d := ds[..|ds| - 1], ds[|ds| - 1];
      assert ds == front + [d];
      OnlyDeclared(front);
      assert d in ds;
      var s := Final(map[], front);
      forall n | n in Final(map[], ds) ensures exists e :: e in ds && Final(map[], ds)[n].app == e.app {
        if n in s && Final(map[], ds)[n] == s[n] {
          var e :| e in front && s[n].app == e.app;
          assert e in ds;
        }
      }
    }
  }

  lemma {:induction false} FinalConcat(s: Store, a: seq<Declaration>, b: seq<Declaration>)
    ensures Final(s, a + b) == Final(Final(s, a), b)
  {
    if b == [] {
      assert a + b == a;
    } else {
      assert (a + b)[..|a + b| - 1] == a + b[..|b| - 1];
      FinalConcat(s, a, b[..|b| - 1]);
    }
  }

  /** When a winner shares its name with another application's declaration, some order loses the winner: all of the
      winner's application first, then the other declaration, then the rest. */
  lemma SharedNameLosesWinner(ds: seq<Declaration>, w: Declaration, e: Declaration) returns (order: seq<Declaration>)
    requires IsWinner(ds, w) && e in ds && e.Name() == w.Name() && e.app != w.app
    ensures multiset(order) == multiset(ds) && !Settled(ds, Final(map[], order))
  {
    var own, others := Of(ds, w.app), NotOf(ds, w.app);
    Partition(ds, w.app);
    var i :| 0 <= i < |others| && others[i] == e;
    var rest := others[..i] + others[i + 1..];
    order := own + ([e] + rest);
    MoveToFront(others, i);
    assert multiset(order) == multiset(own) + multiset([e] + rest) == multiset(own + others);
    forall d | d in rest ensures d.app != w.app { assert d in others; }
    OtherTakesName(own, e, rest, w.app);
    assert IsWinner(ds, w) && !Holds(Final(map[], order), w);
  }

  lemma MoveToFront(s: seq<Declaration>, i: nat)
    requires i < |s|
    ensures multiset([s[i]] + (s[..i] + s[i + 1..])) == multiset(s)
  {
    assert s == s[..i] + ([s[i]] + s[i + 1..]);
  }

  lemma OtherTakesName(own: seq<Declaration>, e: Declaration, rest: seq<Declaration>, app: string)
    requires (forall d :: d in own ==> d.app == app) && e.app != app && forall d :: d in rest ==> d.app != app
    ensures var s := Final(map[], own + ([e] + rest)); e.Name() in s ==> s[e.Name()].app != app
  {
    var s := Final(map[], own);
    OnlyDeclared(own);
    FinalConcat(map[], own, [e] + rest);
    FinalConcat(s, [e], rest);
    assert [e][..0] == [] && Final(s, [e]) == After(s, e);
    assert !Outranked(s, e);
    NeverComesBack(After(s, e), rest, app, e.Name());
  }

  /** Exactly when no winner shares its generated name with another application's declaration, the result is right
      in whatever order the declarations are processed. */
  lemma SettlesInEveryOrderIff(ds: seq<Declaration>)
    ensures WinnersNamedApart(ds) <==>
      forall order :: multiset(order) == multiset(ds) ==> Settled(ds, Final(map[], order))
  {
    if WinnersNamedApart(ds) {
      forall order | multiset(order) == multiset(ds) ensures Settled(ds, Final(map[], order)) {
        EveryOrderSettles(ds, order);
      }
    } else {
      var w, e :| IsWinner(ds, w) && e in ds && e.Name() == w.Name() && e.app != w.app;
      var order := SharedNameLosesWinner(ds, w, e);
      assert multiset(order) == multiset(ds) && !Settled(ds, Final(map[], order));
    }
  }

  /** Two applications whose generated names are the same: file "a" for "b-c" and file "a-b" for "c". */
  lemma NamesCanCollide()
    ensures GetCustomPackageName("a.yaml", "b-c") == GetCustomPackageName("a-b.yaml", "c")
  {
    assert Stem("a.yaml") == "a" by {
      assert "a.yaml"[1..] == ".yaml";
    }
    assert Stem("a-b.yaml") == "a-b" by {
      assert "a-b.yaml"[1..] == "-b.yaml" && "-b.yaml"[1..] == "b.yaml" && "b.yaml"[1..] == ".yaml";
    }
    assert ToLower("a") == "a";
    assert ToLower("a-b") == "a-b" by {
      assert "a-b"[1..] == "-b" && "-b"[1..] == "b" && "b"[1..] == "";
    }
  }

  // ---- passes over what is settled ----

  lemma NothingLower(ds: seq<Declaration>, s: Store, d: Declaration)
    requires Settled(ds, s) && d in ds
    ensures Lower(s, d) == {}
  {
    TopIsMaximum(ds, d.app);
    forall n | n in s && s[n].app == d.app ensures !IsLower(s, d, n) {
      assert s[n].priority == Top(ds, d.app);
    }
  }

  lemma UnbeatenIsStored(ds: seq<Declaration>, s: Store, d: Declaration)
    requires Settled(ds, s) && d in ds && !Outranked(s, d)
    ensures Holds(s, d)
  {
    TopIsMaximum(ds, d.app);
    var w :| IsWinner(ds, w) && w.app == d.app;
    assert Holds(s, w);
    assert IsWinner(ds, d);
  }

  /** A declaration of the list meets nothing lower in a settled store and leaves its names and priorities. */
  lemma SettledStep(ds: seq<Declaration>, s: Store, d: Declaration)
    requires Settled(ds, s) && d in ds
    ensures Lower(s, d) == {} && Settled(ds, After(s, d)) && View(After(s, d)) == View(s)
  {
    NothingLower(ds, s, d);
    if !Outranked(s, d) {
      UnbeatenIsStored(ds, s, d);
      assert s - {} == s;
    }
    assert View(After(s, d)) == View(s);
    SameViewSettles(ds, s, After(s, d));
  }

  lemma SameViewSettles(ds: seq<Declaration>, s: Store, t: Store)
    requires Settled(ds, s) && View(s) == View(t)
    ensures Settled(ds, t)
  {
    assert forall n :: n in s <==> n in View(s);
    assert forall n :: n in t <==> n in View(t);
    forall n | n in t ensures n in s && s[n].app == t[n].app && s[n].priority == t[n].priority {
      assert View(s)[n] == View(t)[n];
    }
    forall n | n in t ensures Comes(t, n, ds) {
      var d :| d in ds && d.Name() == n && Holds(s, d);
      assert Holds(t, d);
    }
    forall d | IsWinner(ds, d) ensures Holds(t, d) { assert Holds(s, d); }
  }

  /** A further pass, complete or not, deletes nothing and changes no name or priority. */
  lemma {:induction false} RepeatedPassIsIdle(ds: seq<Declaration>, s: Store, again: seq<Declaration>)
    requires Settled(ds, s) && forall d :: d in again ==> d in ds
    ensures Settled(ds, Final(s, again)) && View(Final(s, again)) == View(s)
    ensures again != [] ==> Lower(Final(s, again[..|again| - 1]), again[|again| - 1]) == {}
  {
    if again != [] {
      var n := |again| - 1;
      RepeatedPassIsIdle(ds, s, again[..n]);
      SettledStep(ds, Final(s, again[..n]), again[n]);
    }
  }

  /** Every package that is left may reconcile. */
  lemma SurvivorsMayReconcile(ds: seq<Declaration>, s: Store, n: string)
    requires Settled(ds, s) && n in s
    ensures MayReconcile(s, n, s[n])
  {
    forall m | m in s && s[m].app == s[n].app ensures s[m].priority == s[n].priority {
      assert s[m].priority == Top(ds, s[n].app);
    }
  }

  /** Whatever is stored, two annotated packages of one application that may both reconcile have equal priority. */
  lemma NoTwoRanksReconcile(s: Store, n: string, m: string)
    requires n in s && m in s && s[n].app == s[m].app && s[n].priority.Some? && s[m].priority.Some?
    requires MayReconcile(s, n, s[n]) && MayReconcile(s, m, s[m])
    ensures s[n].priority == s[m].priority
  {
    assert !Beats(s, m, n, s[n]) && !Beats(s, n, m, s[m]);
  }

  // ---- the order the controller uses ----

  datatype Manifest = Manifest(file: string, app: string)

  /** The supported manifests found at each package directory, file and URL. */
  datatype Packages = Packages(dirs: seq<seq<Manifest>>, files: seq<seq<Manifest>>, urls: seq<seq<Manifest>>)

  function Declared(found: seq<Manifest>, priority: int, source: string): seq<Declaration> {
    seq(|found|, i requires 0 <= i < |found| => Declaration(found[i].file, found[i].app, priority, source))
  }

  /** A list from its last place to place `from`, each place being a priority. */
  function Descending(places: seq<seq<Manifest>>, from: nat, source: string): seq<Declaration>
    requires from <= |places|
    decreases |places| - from
  {
    if from == |places| then []
    else Descending(places, from + 1, source) + Declared(places[from], from, source)
  }

  function InOrder(p: Packages): seq<Declaration> {
    Descending(p.dirs, 0, "dir") + Descending(p.files, 0, "file") + Descending(p.urls, 0, "url")
  }

  /** What place `i` of a list declares has priority `i` and comes, in its order, after what all later places
      declare. */
  lemma {:induction false} DescendingHolds(places: seq<seq<Manifest>>, from: nat, source: string, i: nat, j: nat)
    requires from <= i < |places| && j < |places[i]|
    ensures var before := |Descending(places, i + 1, source)|;
      && |Descending(places, i, source)| == before + |places[i]|
      && before + j < |Descending(places, from, source)|
      && Descending(places, from, source)[before + j] == Declaration(places[i][j].file, places[i][j].app, i, source)
    decreases i - from
  {
    if from < i {
      DescendingHolds(places, from + 1, source, i, j);
    }
  }

  method ReconcilePlaces(api: Api, places: seq<seq<Manifest>>, source: string)
    requires Uniform(api.pkgs)
    modifies api
    ensures Uniform(api.pkgs) && api.pkgs == Final(old(api.pkgs), Descending(places, 0, source))
  {
    var i := |places|;
    while i > 0
      invariant 0 <= i <= |places| && Uniform(api.pkgs)
      invariant api.pkgs == Final(old(api.pkgs), Descending(places, i, source))
    {
      i := i - 1;
      FinalConcat(old(api.pkgs), Descending(places, i + 1, source), Declared(places[i], i, source));
      api.ReconcileAll(Declared(places[i], i, source));
    }
  }

  /** `ReconcileArgoAppsWithGitea`: directories, files and URLs, each list from its end. */
  method ReconcileArgoApps(api: Api, p: Packages)
    requires Uniform(api.pkgs)
    modifies api
    ensures Uniform(api.pkgs) && api.pkgs == Final(old(api.pkgs), InOrder(p))
  {
    ReconcilePlaces(api, p.dirs, "dir");
    ReconcilePlaces(api, p.files, "file");
    ReconcilePlaces(api, p.urls, "url");
    var s0 := old(api.pkgs);
    FinalConcat(s0, Descending(p.dirs, 0, "dir"), Descending(p.files, 0, "file"));
    FinalConcat(s0, Descending(p.dirs, 0, "dir") + Descending(p.files, 0, "file"), Descending(p.urls, 0, "url"));
  }

  // ---- what a pass deletes ----

  lemma {:induction false} StoredBefore(ds: seq<Declaration>)
    ensures forall n :: n in Final(map[], ds) ==>
      exists i :: 0 <= i < |ds| && Final(map[], ds)[n] == ds[i].Stored()
  {
    if ds != [] {
      var k := |ds| - 1;
      var s, t := Final(map[], ds[..k]), Final(map[], ds);
      StoredBefore(ds[..k]);
      forall n | n in t ensures exists i :: 0 <= i < |ds| && t[n] == ds[i].Stored() {
        if n in s && t[n] == s[n] {
          var i :| 0 <= i < k && s[n] == ds[..k][i].Stored();
          assert t[n] == ds[i].Stored();
        } else {
          assert t[n] == ds[k].Stored();
        }
      }
    }
  }

  /** Declaration `k` deletes a package that the pass has stored. */
  ghost predicate DeletesAt(ds: seq<Declaration>, k: nat)
    requires k < |ds|
  {
    Lower(Final(map[], ds[..k]), ds[k]) != {}
  }

  /** Declaration `k` outranks every earlier one of its application, and there is one. */
  ghost predicate RisesAt(ds: seq<Declaration>, k: nat)
    requires k < |ds|
  {
    Top(ds[..k], ds[k].app).Some? && Top(ds[..k], ds[k].app).value < ds[k].priority
  }

  /** Only a rise deletes, whatever the generated names. */
  lemma DeletionNeedsRise(ds: seq<Declaration>, k: nat)
    requires k < |ds| && DeletesAt(ds, k)
    ensures exists i :: 0 <= i < k && ds[i].app == ds[k].app && ds[i].priority < ds[k].priority
  {
    var s := Final(map[], ds[..k]);
    StoredBefore(ds[..k]);
    var n :| n in Lower(s, ds[k]);
    var i :| 0 <= i < k && s[n] == ds[..k][i].Stored();
    assert ds[..k][i] == ds[i];
  }

  /** No two applications share a generated name. */
  ghost predicate NamedApart(ds: seq<Declaration>) {
    forall d, e :: d in ds && e in ds && d.Name() == e.Name() ==> d.app == e.app
  }

  /** With names apart a declaration deletes something exactly when it outranks all earlier ones of its
      application. */
  lemma DeletesIffRises(ds: seq<Declaration>, k: nat)
    requires k < |ds| && WinnersNamedApart(ds[..k])
    ensures DeletesAt(ds, k) <==> RisesAt(ds, k)
  {
    var front, d := ds[..k], ds[k];
    var s := Final(map[], front);
    EveryOrderSettles(front, front);
    TopIsMaximum(front, d.app);
    if RisesAt(ds, k) {
      var w :| IsWinner(front, w) && w.app == d.app;
      assert w.Name() in Lower(s, d);
    }
    assert forall n :: n in s && IsLower(s, d, n) ==> s[n].priority == Top(front, d.app);
  }

  /** The priority of the first declaration of an application. */
  function First(ds: seq<Declaration>, app: string): Option<int> {
    if ds == [] then None
    else
      var d, front := ds[|ds| - 1], First(ds[..|ds| - 1], app);
      if front.None? && d.app == app then Some(d.priority) else front
  }

  function Higher(a: Option<int>, b: Option<int>): Option<int> {
    if a.None? || (b.Some? && a.value < b.value) then b else a
  }

  function Earlier(a: Option<int>, b: Option<int>): Option<int> {
    if a.None? then b else a
  }

  lemma {:induction false} FirstAndTop(ds: seq<Declaration>, app: string)
    ensures First(ds, app).Some? <==> Top(ds, app).Some?
    ensures Top(ds, app).Some? ==> First(ds, app).value <= Top(ds, app).value
    ensures First(ds, app) == Top(ds, app) <==> forall k :: 0 <= k < |ds| && ds[k].app == app ==> !RisesAt(ds, k)
  {
    if ds != [] {
      var n := |ds| - 1;
      var front := ds[..n];
      FirstAndTop(front, app);
      forall k | 0 <= k < n ensures RisesAt(front, k) <==> RisesAt(ds, k) {
        assert front[..k] == ds[..k];
      }
    }
  }

  lemma FrontIsApart(ds: seq<Declaration>, k: nat)
    requires k <= |ds| && NamedApart(ds)
    ensures WinnersNamedApart(ds[..k])
  {
    assert forall d :: d in ds[..k] ==> d in ds;
  }

  ghost predicate DeletesNothing(ds: seq<Declaration>) {
    forall k :: 0 <= k < |ds| ==> !DeletesAt(ds, k)
  }

  /** The first declaration of an application has its top priority. */
  predicate FirstIsTop(ds: seq<Declaration>, app: string) {
    First(ds, app) == Top(ds, app)
  }

  lemma NoRiseIff(ds: seq<Declaration>)
    ensures (forall k :: 0 <= k < |ds| ==> !RisesAt(ds, k)) <==> forall app :: FirstIsTop(ds, app)
  {
    forall app ensures FirstIsTop(ds, app) <==> forall k :: 0 <= k < |ds| && ds[k].app == app ==> !RisesAt(ds, k) {
      FirstAndTop(ds, app);
    }
    forall k | 0 <= k < |ds| && RisesAt(ds, k) ensures !FirstIsTop(ds, ds[k].app) {
    }
  }

  /** A pass deletes nothing if and only if the first declaration of every application has its top priority. */
  lemma DeletesNothingIff(ds: seq<Declaration>)
    requires NamedApart(ds)
    ensures DeletesNothing(ds) <==> forall app :: FirstIsTop(ds, app)
  {
    forall k | 0 <= k < |ds| ensures DeletesAt(ds, k) <==> RisesAt(ds, k) {
      FrontIsApart(ds, k);
      DeletesIffRises(ds, k);
    }
    NoRiseIff(ds);
  }

  /** For one application: exactly when nothing outranks the declaration that comes first. */
  lemma OneApplicationDeletesNothingIff(ds: seq<Declaration>, app: string)
    requires ds != [] && forall k :: 0 <= k < |ds| ==> ds[k].app == app
    ensures DeletesNothing(ds) <==> forall k :: 0 <= k < |ds| ==> ds[k].priority <= ds[0].priority
  {
    DeletesNothingIff(ds);
    TopIsMaximum(ds, app);
    FirstOfOne(ds, app);
    forall other | other != app ensures FirstIsTop(ds, other) { NoneOfOther(ds, other); }
    assert ds[0] in ds;
    assert DeletesNothing(ds) <==> FirstIsTop(ds, app);
    if Top(ds, app).value <= ds[0].priority {
      assert forall k :: 0 <= k < |ds| ==> ds[k] in ds;
    } else {
      var w :| IsWinner(ds, w) && w.app == app;
      var k :| 0 <= k < |ds| && ds[k] == w;
    }
  }

  lemma {:induction false} FirstOfOne(ds: seq<Declaration>, app: string)
    requires ds != [] && forall k :: 0 <= k < |ds| ==> ds[k].app == app
    ensures First(ds, app) == Some(ds[0].priority)
  {
    if |ds| > 1 {
      FirstOfOne(ds[..|ds| - 1], app);
    }
  }

  lemma {:induction false} NoneOfOther(ds: seq<Declaration>, other: string)
    requires forall k :: 0 <= k < |ds| ==> ds[k].app != other
    ensures First(ds, other).None? && Top(ds, other).None?
  {
    if ds != [] {
      NoneOfOther(ds[..|ds| - 1], other);
    }
  }

  lemma {:induction false} Concat(a: seq<Declaration>, b: seq<Declaration>, app: string)
    ensures Top(a + b, app) == Higher(Top(a, app), Top(b, app))
    ensures First(a + b, app) == Earlier(First(a, app), First(b, app))
  {
    if b == [] {
      assert a + b == a;
    } else {
      var n := |b| - 1;
      assert (a + b)[..|a + b| - 1] == a + b[..n];
      Concat(a, b[..n], app);
    }
  }

  predicate Mentions(found: seq<Manifest>, app: string) {
    exists i :: 0 <= i < |found| && found[i].app == app
  }

  /** The last place, from `from` on, at which the application is found. */
  function LastPlace(places: seq<seq<Manifest>>, from: nat, app: string): (r: Option<int>)
    requires from <= |places|
    ensures r.Some? ==> from <= r.value
    decreases |places| - from
  {
    if from == |places| then None
    else Earlier(LastPlace(places, from + 1, app), if Mentions(places[from], app) then Some(from) else None)
  }

  lemma {:induction false} DeclaredAt(found: seq<Manifest>, priority: int, source: string, app: string)
    ensures var at := if Mentions(found, app) then Some(priority) else None;
            Top(Declared(found, priority, source), app) == at == First(Declared(found, priority, source), app)
  {
    if found != [] {
      var n := |found| - 1;
      assert Declared(found, priority, source)[..n] == Declared(found[..n], priority, source);
      DeclaredAt(found[..n], priority, source, app);
      assert forall i :: 0 <= i < n ==> found[i] == found[..n][i];
    }
  }

  /** One list taken from its end puts each application's top priority first. */
  lemma {:induction false} DescendingTops(places: seq<seq<Manifest>>, from: nat, source: string, app: string)
    requires from <= |places|
    ensures var ds := Descending(places, from, source);
            Top(ds, app) == LastPlace(places, from, app) == First(ds, app)
    decreases |places| - from
  {
    if from < |places| {
      DescendingTops(places, from + 1, source, app);
      DeclaredAt(places[from], from, source, app);
      Concat(Descending(places, from + 1, source), Declared(places[from], from, source), app);
    }
  }

  /** Where the application is found last among the directories, the files and the URLs, the first of these that
      has it has it in the last place. */
  ghost predicate FirstListIsHighest(p: Packages, app: string) {
    var d, f, u := LastPlace(p.dirs, 0, app), LastPlace(p.files, 0, app), LastPlace(p.urls, 0, app);
    Earlier(Earlier(d, f), u) == Higher(Higher(d, f), u)
  }

  lemma InOrderTops(p: Packages, app: string)
    ensures FirstIsTop(InOrder(p), app) <==> FirstListIsHighest(p, app)
  {
    var d, f, u := Descending(p.dirs, 0, "dir"), Descending(p.files, 0, "file"), Descending(p.urls, 0, "url");
    DescendingTops(p.dirs, 0, "dir", app);
    DescendingTops(p.files, 0, "file", app);
    DescendingTops(p.urls, 0, "url", app);
    Concat(d, f, app);
    Concat(d + f, u, app);
  }

  /** The controller's order creates no package only to delete it again if and only if, for every application, the
      first of the three lists that has it gives it its highest position. */
  lemma ReverseOrderDeletesNothingIff(p: Packages)
    requires NamedApart(InOrder(p))
    ensures DeletesNothing(InOrder(p)) <==> forall app :: FirstListIsHighest(p, app)
  {
    DeletesNothingIff(InOrder(p));
    forall app ensures FirstIsTop(InOrder(p), app) <==> FirstListIsHighest(p, app) {
      InOrderTops(p, app);
    }
  }

  ghost predicate Falling(ds: seq<Declaration>) {
    forall i, j :: 0 <= i < j < |ds| ==> ds[i].priority >= ds[j].priority
  }

  lemma FallingConcat(a: seq<Declaration>, b: seq<Declaration>, k: int)
    requires Falling(a) && (forall d :: d in a ==> k < d.priority) && forall d :: d in b ==> d.priority == k
    ensures Falling(a + b)
  {
    var ds := a + b;
    forall i, j | 0 <= i < j < |ds| ensures ds[i].priority >= ds[j].priority {
      assert i < |a| ==> ds[i] == a[i] && a[i] in a;
      assert i >= |a| ==> ds[i] in b;
      assert j < |a| ==> ds[j] == a[j];
      assert j >= |a| ==> ds[j] in b;
    }
  }

  lemma {:induction false} DescendingPriorities(places: seq<seq<Manifest>>, from: nat, source: string)
    requires from <= |places|
    ensures forall d :: d in Descending(places, from, source) ==> from <= d.priority
    ensures Falling(Descending(places, from, source))
    decreases |places| - from
  {
    if from < |places| {
      DescendingPriorities(places, from + 1, source);
      var later, here := Descending(places, from + 1, source), Declared(places[from], from, source);
      assert forall d :: d in later ==> from + 1 <= d.priority;
      assert forall d :: d in here ==> d.priority == from;
      assert Descending(places, from, source) == later + here;
      FallingConcat(later, here, from);
    }
  }

  /** So a single list is safe, whatever the names, and two lists are not: the package of a directory is deleted for
      a file at a higher position. */
  lemma OneListDeletesNothing(dirs: seq<seq<Manifest>>)
    ensures DeletesNothing(InOrder(Packages(dirs, [], [])))
  {
    var ds := InOrder(Packages(dirs, [], []));
    assert ds == Descending(dirs, 0, "dir");
    DescendingPriorities(dirs, 0, "dir");
    forall k | 0 <= k < |ds| ensures !DeletesAt(ds, k) {
      if DeletesAt(ds, k) {
        DeletionNeedsRise(ds, k);
      }
    }
  }

  lemma FileDeletesDirectory(d: string, f: string, app: string)
    ensures var p := Packages([[Manifest(d, app)]], [[], [Manifest(f, app)]], []);
            |InOrder(p)| == 2 && DeletesAt(InOrder(p), 1)
  {
    var places: seq<seq<Manifest>> := [[], [Manifest(f, app)]];
    var ds := InOrder(Packages([[Manifest(d, app)]], places, []));
    var low, high := Declaration(d, app, 0, "dir"), Declaration(f, app, 1, "file");
    assert Descending([[Manifest(d, app)]], 1, "dir") == [] == Descending(places, 2, "file");
    assert Descending([[Manifest(d, app)]], 0, "dir") == [low];
    assert Descending(places, 1, "file") == [high] == Descending(places, 0, "file");
    assert ds == [low, high] && ds[..1] == [low] && [low][..0] == [];
    assert Final(map[], [low]) == map[low.Name() := low.Stored()];
    assert low.Name() in Lower(Final(map[], ds[..1]), high);
  }
}
