/** Remote package locations in SCP style, such as `git@github.com:owner/repo//path?ref=v1`. */
module ScpRemote {

  import opened Options
  import opened Text

  /** Where `c` first is in `s`, or -1. */
  function IndexChar(s: string, c: char): (r: int)
    ensures -1 <= r < |s|
    ensures r >= 0 ==> s[r] == c
  {
    if s == "" then -1
    else if s[0] == c then 0
    else
      var rest := IndexChar(s[1..], c);
      if rest == -1 then -1 else rest + 1
  }

  lemma NoneEarlier(s: string, c: char)
    ensures var r := IndexChar(s, c); forall i :: 0 <= i < (if r == -1 then |s| else r) ==> s[i] != c
  {
  }

  predicate DelimiterAt(s: string, i: nat) {
    i + 1 < |s| && s[i] == '/' && s[i + 1] == '/'
  }

  /** Where `//` first is in `s`, or -1. */
  function IndexDelimiter(s: string): (r: int)
    ensures r == -1 || 0 <= r < |s| - 1
    ensures r >= 0 ==> DelimiterAt(s, r)
    ensures forall i: nat :: (r == -1 || i < r) ==> !DelimiterAt(s, i)
  {
    if |s| < 2 then -1
    else if s[0] == '/' && s[1] == '/' then 0
    else
      var rest := IndexDelimiter(s[1..]);
      assert forall i: nat :: 0 < i ==> (DelimiterAt(s, i) <==> DelimiterAt(s[1..], i - 1));
      if rest == -1 then -1 else rest + 1
  }

  lemma FirstChar(a: string, c: char, b: string)
    requires c !in a
    ensures IndexChar(a + [c] + b, c) == |a|
  {
    var s := a + [c] + b;
    assert s[|a|] == c;
    assert forall i :: 0 <= i < |a| ==> s[i] == a[i];
    NoneEarlier(s, c);
  }

  lemma NoChar(s: string, c: char)
    ensures IndexChar(s, c) == -1 <==> c !in s
  {
    NoneEarlier(s, c);
  }

  lemma FirstDelimiter(a: string, b: string)
    requires forall i: nat :: !DelimiterAt(a, i)
    requires a != "" ==> a[|a| - 1] != '/'
    ensures IndexDelimiter(a + "//" + b) == |a|
  {
    var s := a + "//" + b;
    assert DelimiterAt(s, |a|);
    forall i: nat | i < |a| ensures !DelimiterAt(s, i) {
      assert !DelimiterAt(a, i);
    }
  }

  // ---- what a location means ----

  datatype Parts = Parts(user: string, host: string, repoPath: string, filePath: string)

  /** `OutOfRange`: a `?` before the first `:` makes the code slice backwards. */
  datatype Outcome = Parsed | NotScp | BadQuery | OutOfRange | NoDelimiter

  datatype Meaning = Meaning(outcome: Outcome, parts: Parts)

  const NOTHING := Parts("", "", "", "")

  function PathOf(raw: string): string
    requires IndexChar(raw, ':') != -1
    requires IndexChar(raw, '?') != -1 ==> IndexChar(raw, ':') < IndexChar(raw, '?')
  {
    raw[IndexChar(raw, ':') + 1..if IndexChar(raw, '?') == -1 then |raw| else IndexChar(raw, '?')]
  }

  function UserHost(authority: string): (string, string) {
    var u := IndexChar(authority, '@');
    if u == -1 then ("", authority) else (authority[..u], authority[u + 1..])
  }

  lemma UserHostSlices(raw: string, c: nat)
    requires c <= |raw|
    ensures var u := IndexChar(raw[..c], '@');
            UserHost(raw[..c]) == (if u == -1 then "" else raw[..u], raw[u + 1..c])
  {
    var u := IndexChar(raw[..c], '@');
    assert u != -1 ==> raw[..c][..u] == raw[..u];
    assert raw[..c][u + 1..] == raw[u + 1..c];
  }

  function Means(raw: string, queryOk: bool): Meaning {
    var c, q := IndexChar(raw, ':'), IndexChar(raw, '?');
    if c == -1 then Meaning(NotScp, NOTHING)
    else if !queryOk then Meaning(BadQuery, NOTHING)
    else if q != -1 && q < c then Meaning(OutOfRange, NOTHING)
    else
      match PathParts(PathOf(raw))
      case None => Meaning(NoDelimiter, NOTHING)
      case Some(path) => Meaning(Parsed, Parts(UserHost(raw[..c]).0, UserHost(raw[..c]).1, path.0, path.1))
  }

  function PathParts(path: string): Option<(string, string)> {
    var d := IndexDelimiter(path);
    if d == -1 then None else Some((TrimPrefix(path[..d], "/"), TrimSuffix(path[d + 2..], "/")))
  }

  function Clone(scheme: string, user: string, password: string, host: string, port: string, repoPath: string): string {
    var front := if scheme == "" then "" else scheme + "://";
    var named := if user == "" then front
                 else (if password == "" then front + user else front + user + (":" + password)) + "@";
    var located := if port == "" then named + host else named + host + (":" + port);
    located + (if scheme == "" then ":" else "/") + repoPath
  }

  /** The location put together again from its parts. */
  function Printed(p: Parts): string {
    Clone("", p.user, "", p.host, "", p.repoPath) + "//" + p.filePath
  }

  class KustomizeRemote {
    const raw: string
    var scheme: string
    var user: string
    var password: string
    var host: string
    var port: string
    var repoPath: string
    var filePath: string

    constructor (uri: string)
      ensures raw == uri && scheme == user == password == host == port == repoPath == filePath == ""
    {
      raw := uri;
      scheme, user, password, host, port, repoPath, filePath := "", "", "", "", "", "", "";
    }

    method ParseAuthority(cIndex: nat)
      requires user == "" && cIndex <= |raw|
      modifies this`user, this`host
      ensures (user, host) == UserHost(raw[..cIndex])
    {
      var uIndex := IndexChar(raw[..cIndex], '@');
      UserHostSlices(raw, cIndex);
      if uIndex != -1 {
        user := raw[..uIndex];
      }
      host := raw[uIndex + 1..cIndex];
    }

    /** Reads the location; `queryOk` is whether its query string parses. */
    method ParseSCPStyle(queryOk: bool) returns (outcome: Outcome)
      requires user == ""
      modifies this`user, this`host, this`repoPath, this`filePath
      ensures outcome == Means(raw, queryOk).outcome
      ensures outcome == Parsed ==> Parts(user, host, repoPath, filePath) == Means(raw, queryOk).parts
    {
      var cIndex := IndexChar(raw, ':');
      if cIndex == -1 {
        return NotScp;
      }
      ParseAuthority(cIndex);
      if !queryOk {
        return BadQuery;
      }
      var pathEnd := |raw|;
      var qIndex := IndexChar(raw, '?');
      if qIndex != -1 {
        pathEnd := qIndex;
      }
      if pathEnd < cIndex + 1 {
        return OutOfRange;
      }
      var ok := ParsePath(raw[cIndex + 1..pathEnd]);
      outcome := if ok then Parsed else NoDelimiter;
    }

    method ParsePath(path: string) returns (ok: bool)
      modifies this`repoPath, this`filePath
      ensures ok <==> PathParts(path).Some?
      ensures ok ==> (repoPath, filePath) == PathParts(path).value
    {
      var index := IndexDelimiter(path);
      if index == -1 {
        return false;
      }
      repoPath := TrimPrefix(path[..index], "/");
      filePath := TrimSuffix(path[index + 2..], "/");
      ok := true;
    }

    method CloneUrl() returns (sb: string)
      ensures sb == Clone(scheme, user, password, host, port, repoPath)
    {
      sb := "";
      if scheme != "" {
        sb := scheme + "://";
      }
      if user != "" {
        sb := sb + user;
        if password != "" {
          sb := sb + (":" + password);
        }
        sb := sb + "@";
      }
      sb := sb + host;
      if port != "" {
        sb := sb + (":" + port);
      }
      if scheme == "" {
        sb := sb + ":";
      } else {
        sb := sb + "/";
      }
      sb := sb + repoPath;
    }
  }

  // ---- printing and parsing ----

  /** Shape of what parsing yields. */
  predicate Tidy(p: Parts) {
    && ':' !in p.user && '@' !in p.user && '?' !in p.user
    && ':' !in p.host && '?' !in p.host
    && '?' !in p.repoPath && '?' !in p.filePath
    && TidyRepo(p.repoPath)
  }

  predicate TidyRepo(repoPath: string) {
    && (forall i :: 0 <= i < |repoPath| ==> !DelimiterAt(repoPath, i))
    && (repoPath != "" ==> repoPath[0] != '/' && repoPath[|repoPath| - 1] != '/')
  }

  lemma AuthorityIsTidy(authority: string)
    requires ':' !in authority && '?' !in authority
    ensures var (user, host) := UserHost(authority);
            ':' !in user && '@' !in user && '?' !in user && ':' !in host && '?' !in host
  {
    NoneEarlier(authority, '@');
  }

  lemma PathIsTidy(path: string)
    requires '?' !in path && IndexDelimiter(path) != -1
    ensures var d := IndexDelimiter(path);
            var repoPath, filePath := TrimPrefix(path[..d], "/"), TrimSuffix(path[d + 2..], "/");
            && '?' !in repoPath && '?' !in filePath && TidyRepo(repoPath)
  {
    var d := IndexDelimiter(path);
    var first := path[..d];
    forall i: nat ensures !DelimiterAt(first, i) {
      assert DelimiterAt(first, i) ==> DelimiterAt(path, i);
    }
    if d > 0 {
      assert !DelimiterAt(path, d - 1);
      FirstTrimmed(first);
    }
  }

  lemma FirstTrimmed(first: string)
    requires first != "" && first[|first| - 1] != '/' && forall i: nat :: !DelimiterAt(first, i)
    ensures TidyRepo(TrimPrefix(first, "/"))
  {
    var repoPath := TrimPrefix(first, "/");
    assert !DelimiterAt(first, 0);
    forall i: nat ensures !DelimiterAt(repoPath, i) {
      assert !DelimiterAt(first, i) && !DelimiterAt(first, i + 1);
    }
  }

  lemma ParsedIsTidy(raw: string)
    requires Means(raw, true).outcome == Parsed
    ensures Tidy(Means(raw, true).parts)
  {
    NoneEarlier(raw, ':');
    NoneEarlier(raw, '?');
    AuthorityIsTidy(raw[..IndexChar(raw, ':')]);
    PathIsTidy(PathOf(raw));
  }

  /** What the printed form of tidy parts parses to. */
  lemma PrintedMeans(p: Parts)
    requires Tidy(p)
    ensures var m := Means(Printed(p), true);
            var authority := if p.user == "" then UserHost(p.host) else (p.user, p.host);
            m == Meaning(Parsed, Parts(authority.0, authority.1, p.repoPath, TrimSuffix(p.filePath, "/")))
  {
    var head := if p.user == "" then p.host else p.user + "@" + p.host;
    var path := p.repoPath + "//" + p.filePath;
    var raw := Printed(p);
    assert raw == head + [':'] + path;
    MeansSplit(head, path);
    PathSplit(p.repoPath, p.filePath);
    if p.user != "" {
      HeadSplit(p.user, p.host);
    }
  }

  lemma PathSplit(repoPath: string, filePath: string)
    requires TidyRepo(repoPath)
    ensures PathParts(repoPath + "//" + filePath) == Some((repoPath, TrimSuffix(filePath, "/")))
  {
    var path := repoPath + "//" + filePath;
    FirstDelimiter(repoPath, filePath);
    assert path[..|repoPath|] == repoPath && path[|repoPath| + 2..] == filePath;
  }

  lemma HeadSplit(user: string, host: string)
    requires '@' !in user
    ensures UserHost(user + "@" + host) == (user, host)
  {
    FirstChar(user, '@', host);
    var head := user + ['@'] + host;
    assert head == user + "@" + host && head[..|user|] == user && head[|user| + 1..] == host;
  }

  lemma MeansSplit(head: string, path: string)
    requires ':' !in head && '?' !in head && '?' !in path
    ensures var raw := head + [':'] + path;
            IndexChar(raw, ':') == |head| && IndexChar(raw, '?') == -1 && raw[..|head|] == head && PathOf(raw) == path
  {
    var raw := head + [':'] + path;
    FirstChar(head, ':', path);
    NoChar(raw, '?');
  }

  /** Printing and parsing a location again gives the same parts exactly when the file path does not end in a
      slash and a host holding an `@` has a user in front of it. */
  lemma RoundTripIff(raw: string)
    requires Means(raw, true).outcome == Parsed
    ensures var p := Means(raw, true).parts;
            Means(Printed(p), true) == Meaning(Parsed, p)
            <==> !HasSuffix(p.filePath, "/") && (p.user != "" || '@' !in p.host)
  {
    var p := Means(raw, true).parts;
    ParsedIsTidy(raw);
    PrintedMeans(p);
    NoChar(p.host, '@');
    assert TrimSuffix(p.filePath, "/") == p.filePath <==> !HasSuffix(p.filePath, "/");
  }

  /** Both conditions can fail: a location that ends in two slashes more than its file path loses one of them
      each time, and one that starts with an empty user moves the next `@` of its host. */
  lemma SlashIsLost(host: string, repoPath: string, filePath: string)
    requires Tidy(Parts("", host, repoPath, filePath)) && '@' !in host
    ensures Means(Printed(Parts("", host, repoPath, filePath + "//")), true)
            == Meaning(Parsed, Parts("", host, repoPath, filePath + "/"))
  {
    PrintedMeans(Parts("", host, repoPath, filePath + "//"));
    NoChar(host, '@');
    assert TrimSuffix(filePath + "//", "/") == filePath + "/";
  }

  lemma EmptyUserIsLost(host: string, repoPath: string)
    requires Tidy(Parts("", host, repoPath, ""))
    ensures Means(Printed(Parts("", "@" + host, repoPath, "")), true) == Meaning(Parsed, Parts("", host, repoPath, ""))
  {
    PrintedMeans(Parts("", "@" + host, repoPath, ""));
    HeadSplit("", host);
    assert "" + "@" + host == "@" + host;
  }

  // ---- when the printed form is read in SCP style again ----

  /** A scheme by section 3.1 of RFC 3986: a letter, then letters, digits, `+`, `-` and `.`. */
  predicate IsSchemeName(s: string) {
    s != "" && IsLetter(s[0]) && forall i :: 0 <= i < |s| ==> IsLetter(s[i]) || '0' <= s[i] <= '9' || s[i] in "+-."
  }

  predicate IsLetter(c: char) {
    'a' <= c <= 'z' || 'A' <= c <= 'Z'
  }

  /** The text has no scheme, and its first path segment holds a colon: what section 4.2 of RFC 3986 forbids, and what
      sends the code to the SCP parser. */
  /** Scheme names as section 3.1 of RFC 3986 spells them: a letter, then letters, digits, plus, minus and dot. */
  lemma IsSchemeNameIff(s: string)
    ensures var letters := "abcdefghijklmnopqrstuvwxyz" + "ABCDEFGHIJKLMNOPQRSTUVWXYZ";
      IsSchemeName(s) <==>
        && s != "" && s[0] in letters
        && forall i :: 0 < i < |s| ==> s[i] in letters || s[i] in "0123456789" || s[i] in "+-."
  {
    forall i | 0 <= i < |s|
      ensures IsLetter(s[i]) <==> s[i] in "abcdefghijklmnopqrstuvwxyz" + "ABCDEFGHIJKLMNOPQRSTUVWXYZ"
      ensures '0' <= s[i] <= '9' <==> s[i] in "0123456789"
    {
      LetterIff(s[i]);
      DigitIff(s[i]);
    }
  }

  lemma LetterIff(c: char)
    ensures IsLetter(c) <==> c in "abcdefghijklmnopqrstuvwxyz" + "ABCDEFGHIJKLMNOPQRSTUVWXYZ"
  {
    LowerIff(c);
    UpperIff(c);
  }

  lemma LowerIff(c: char)
    ensures 'a' <= c <= 'z' <==> c in "abcdefghijklmnopqrstuvwxyz"
  {
    var all := "abcdefghijklmnopqrstuvwxyz";
    if 'a' <= c <= 'z' {
      assert all[c as int - 'a' as int] == c;
    }
  }

  lemma UpperIff(c: char)
    ensures 'A' <= c <= 'Z' <==> c in "ABCDEFGHIJKLMNOPQRSTUVWXYZ"
  {
    var all := "ABCDEFGHIJKLMNOPQRSTUVWXYZ";
    if 'A' <= c <= 'Z' {
      assert all[c as int - 'A' as int] == c;
    }
  }

  lemma DigitIff(c: char)
    ensures '0' <= c <= '9' <==> c in "0123456789"
  {
    var all := "0123456789";
    if '0' <= c <= '9' {
      assert all[c as int - '0' as int] == c;
    }
  }

  predicate HasColonInFirstSegment(raw: string) {
    var c := IndexChar(raw, ':');
    c > 0 && !IsSchemeName(raw[..c]) && '/' !in raw[..c] && '?' !in raw[..c] && '#' !in raw[..c]
  }

  lemma HeadOfPrinted(p: Parts)
    requires Tidy(p)
    ensures var head := if p.user == "" then p.host else p.user + "@" + p.host;
            IndexChar(Printed(p), ':') == |head| && Printed(p)[..|head|] == head
  {
    var head := if p.user == "" then p.host else p.user + "@" + p.host;
    var path := p.repoPath + "//" + p.filePath;
    assert Printed(p) == head + [':'] + path;
    MeansSplit(head, path);
  }

  predicate PlainHead(p: Parts) {
    '/' !in p.user && '#' !in p.user && '/' !in p.host && '#' !in p.host
  }

  lemma ColonInPrintedIff(p: Parts)
    requires Tidy(p) && PlainHead(p)
    ensures HasColonInFirstSegment(Printed(p)) <==> p.user != "" || (p.host != "" && !IsSchemeName(p.host))
  {
    HeadOfPrinted(p);
    if p.user != "" {
      var head := p.user + "@" + p.host;
      assert head[|p.user|] == '@';
      assert !IsSchemeName(head);
    }
  }

  /** Of a location that the code reads in SCP style, the printed form is again read so, and as the same parts, if
      and only if moreover a location without user has a host that is neither empty nor a scheme name. */
  lemma DispatchedRoundTripIff(raw: string)
    requires HasColonInFirstSegment(raw) && Means(raw, true).outcome == Parsed
    ensures var p := Means(raw, true).parts;
            HasColonInFirstSegment(Printed(p)) && Means(Printed(p), true) == Meaning(Parsed, p)
            <==> !HasSuffix(p.filePath, "/")
                 && (p.user != "" || ('@' !in p.host && p.host != "" && !IsSchemeName(p.host)))
  {
    RoundTripIff(raw);
    ParsedIsTidy(raw);
    HeadIsPlain(raw[..IndexChar(raw, ':')]);
    ColonInPrintedIff(Means(raw, true).parts);
  }

  lemma HeadIsPlain(authority: string)
    requires '/' !in authority && '#' !in authority
    ensures var (user, host) := UserHost(authority); '/' !in user && '#' !in user && '/' !in host && '#' !in host
  {
  }

  // ---- clone URLs tell repositories apart ----

  datatype Fields = Fields(
    scheme: string, user: string, password: string, host: string, port: string, repoPath: string)
  {
    function Url(): string {
      Clone(scheme, user, password, host, port, repoPath)
    }

    function UserInfo(): string {
      if password == "" then user else user + [':'] + password
    }

    function HostPort(): string {
      if port == "" then host else host + (":" + port)
    }

    function Authority(): string {
      if user == "" then HostPort() else UserInfo() + ['@'] + HostPort()
    }

    /** Scheme, host and port of a URL never hold a delimiter. User and password are decoded and may, where the URL
        has percent escapes; this asks that the user then still holds no colon or slash, and the password no slash. */
    predicate Plain() {
      && scheme != "" && ':' !in scheme
      && '/' !in user && ':' !in user && '/' !in password
      && '/' !in host && '@' !in host && '/' !in port && '@' !in port
    }
  }

  lemma SplitOnce(a: string, b: string, c: string, d: string, at: char)
    requires at !in a && at !in c && a + [at] + b == c + [at] + d
    ensures a == c && b == d
  {
    FirstChar(a, at, b);
    FirstChar(c, at, d);
    var s := a + [at] + b;
    assert a == s[..|a|] && b == s[|a| + 1..] && c == s[..|c|] && d == s[|c| + 1..];
  }

  lemma UrlShape(f: Fields)
    requires f.scheme != ""
    ensures f.Url() == f.scheme + [':'] + ("//" + (f.Authority() + ['/'] + f.repoPath))
  {
    var front := f.scheme + "://";
    AuthorityShape(f, front);
    Regroup(front, f.Authority(), ['/'], f.repoPath);
    assert front == f.scheme + [':'] + "//";
    Regroup("", f.scheme + [':'], "//", f.Authority() + ['/'] + f.repoPath);
  }

  lemma Regroup(a: string, b: string, c: string, d: string)
    ensures a + b + c + d == a + (b + c + d) && (b + c) + d == b + (c + d)
  {
  }

  lemma AuthorityShape(f: Fields, front: string)
    ensures var named := if f.user == "" then front
              else (if f.password == "" then front + f.user else front + f.user + (":" + f.password)) + "@";
            (if f.port == "" then named + f.host else named + f.host + (":" + f.port)) == front + f.Authority()
  {
    var named := if f.user == "" then front
      else (if f.password == "" then front + f.user else front + f.user + (":" + f.password)) + "@";
    var user := if f.user == "" then "" else f.UserInfo() + ['@'];
    assert named == front + user;
    assert (if f.port == "" then named + f.host else named + f.host + (":" + f.port)) == named + f.HostPort();
    assert f.Authority() == user + f.HostPort();
  }

  lemma SplitLast(a: string, b: string, c: string, d: string, at: char)
    requires at !in b && at !in d && a + [at] + b == c + [at] + d
    ensures a == c && b == d
  {
    var s, t := a + [at] + b, c + [at] + d;
    assert s[|a|] == at && t[|c|] == at;
    assert forall i :: |a| < i < |s| ==> s[i] == b[i - |a| - 1];
    assert forall i :: |c| < i < |t| ==> t[i] == d[i - |c| - 1];
    assert |a| == |c|;
    assert a == s[..|a|] && b == s[|a| + 1..] && c == t[..|c|] && d == t[|c| + 1..];
  }

  lemma AuthorityTellsApart(f: Fields, g: Fields)
    requires f.Plain() && g.Plain() && f.Authority() == g.Authority()
    ensures f.user == g.user && (f.user != "" ==> f.password == g.password) && f.HostPort() == g.HostPort()
  {
    assert '@' in f.Authority() <==> f.user != "";
    assert '@' in g.Authority() <==> g.user != "";
    if f.user != "" {
      SplitLast(f.UserInfo(), f.HostPort(), g.UserInfo(), g.HostPort(), '@');
      assert ':' in f.UserInfo() <==> f.password != "";
      assert ':' in g.UserInfo() <==> g.password != "";
      if f.password != "" {
        SplitOnce(f.user, f.password, g.user, g.password, ':');
      }
    }
  }

  /** Two remotes with a scheme have one clone URL only if they agree in every field, but for a password without a
      user; the port is told from the host where hosts hold no colon. */
  lemma CloneUrlTellsApart(f: Fields, g: Fields)
    requires f.Plain() && g.Plain() && f.Url() == g.Url()
    ensures f.scheme == g.scheme && f.user == g.user && f.HostPort() == g.HostPort() && f.repoPath == g.repoPath
    ensures f.user != "" ==> f.password == g.password
    ensures ':' !in f.host && ':' !in g.host ==> f.host == g.host && f.port == g.port
  {
    UrlShape(f);
    UrlShape(g);
    var s, t := f.Authority() + ['/'] + f.repoPath, g.Authority() + ['/'] + g.repoPath;
    SplitOnce(f.scheme, "//" + s, g.scheme, "//" + t, ':');
    assert s == ("//" + s)[2..] == ("//" + t)[2..] == t;
    SplitOnce(f.Authority(), f.repoPath, g.Authority(), g.repoPath, '/');
    AuthorityTellsApart(f, g);
    if ':' !in f.host && ':' !in g.host {
      HostTellsApart(f, g);
    }
  }

  /** It does not tell them apart otherwise: a colon in a decoded user reads as the start of a password, a slash in it
      as the end of the host, and a password without a user is lost. */
  lemma DecodedDelimitersMislead(scheme: string, a: string, b: string, host: string, repoPath: string)
    requires scheme != "" && a != "" && b != ""
    ensures Fields(scheme, a + ":" + b, "", host, "", repoPath).Url() == Fields(scheme, a, b, host, "", repoPath).Url()
    ensures Fields(scheme, a + "/" + b, "", host, "", repoPath).Url()
         == Fields(scheme, "", "", a, "", b + "@" + host + "/" + repoPath).Url()
    ensures Fields(scheme, "", b, host, "", repoPath).Url() == Fields(scheme, "", "", host, "", repoPath).Url()
  {
    var front := scheme + "://";
    assert front + (a + ":" + b) == front + a + (":" + b);
    assert front + (a + "/" + b) + "@" + host + "/" + repoPath == front + a + "/" + (b + "@" + host + "/" + repoPath);
  }

  lemma HostTellsApart(f: Fields, g: Fields)
    requires ':' !in f.host && ':' !in g.host && f.HostPort() == g.HostPort()
    ensures f.host == g.host && f.port == g.port
  {
    assert ':' in f.HostPort() <==> f.port != "";
    assert ':' in g.HostPort() <==> g.port != "";
    if f.port != "" {
      assert f.HostPort() == f.host + [':'] + f.port && g.HostPort() == g.host + [':'] + g.port;
      SplitOnce(f.host, f.port, g.host, g.port, ':');
    }
  }

  /** What follows the first `?` says nothing about user, host and paths. */
  lemma QueryIsApart(raw: string, query: string)
    requires ':' in raw && '?' !in raw
    ensures Means(raw + "?" + query, true) == Means(raw, true)
  {
    var longer, c := raw + "?" + query, IndexChar(raw, ':');
    FirstChar(raw, '?', query);
    NoChar(raw, '?');
    NoChar(raw, ':');
    NoneEarlier(raw, ':');
    assert longer == raw[..c] + [':'] + (raw[c + 1..] + "?" + query);
    FirstChar(raw[..c], ':', raw[c + 1..] + "?" + query);
    assert longer[..c] == raw[..c];
    assert PathOf(longer) == PathOf(raw) by {
      assert longer[c + 1..|raw|] == raw[c + 1..];
    }
  }

  /** Every slice is in range exactly when no `?` comes before the first `:`, or the parse has ended before. */
  lemma OutOfRangeIff(raw: string, queryOk: bool)
    ensures Means(raw, queryOk).outcome == OutOfRange <==>
      queryOk && ':' in raw && exists q :: 0 <= q < |raw| && raw[q] == '?' && ':' !in raw[..q]
  {
    var c, q := IndexChar(raw, ':'), IndexChar(raw, '?');
    NoneEarlier(raw, ':');
    NoneEarlier(raw, '?');
    if q != -1 {
      assert c != -1 && c < q ==> raw[..q][c] == ':';
    }
    forall k | 0 <= k < |raw| && raw[k] == '?' && ':' !in raw[..k] && c != -1 ensures c > k {
      assert forall i :: 0 <= i < k ==> raw[i] in raw[..k];
    }
  }

  /** A location that the code reads in SCP style always has its colon, and never comes to a slice out of range. */
  lemma DispatchKeepsInRange(raw: string, queryOk: bool)
    requires HasColonInFirstSegment(raw)
    ensures Means(raw, queryOk).outcome !in {OutOfRange, NotScp}
  {
    OutOfRangeIff(raw, queryOk);
  }
}
