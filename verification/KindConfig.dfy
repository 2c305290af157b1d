/** Completing a user's kind cluster configuration: one node must map the configured host port and carry the label
    that the ingress controller selects. */
module KindConfig {

  import opened Options

  // ---- decimal integers ----

  const INT32 := 0x8000_0000
  type int32 = x: int | -INT32 <= x < INT32
  const INT64 := 0x8000_0000_0000_0000

  predicate IsDigit(c: char) {
    '0' <= c <= '9'
  }

  predicate Digits(s: string) {
    forall i :: 0 <= i < |s| ==> IsDigit(s[i])
  }

  function Value(s: string): nat
    requires Digits(s)
  {
    if s == "" then 0 else Value(s[..|s| - 1]) * 10 + (s[|s| - 1] as int - '0' as int)
  }

  function ItoaNat(n: nat): (s: string)
    ensures s != "" && Digits(s)
  {
    if n < 10 then [('0' as int + n) as char] else ItoaNat(n / 10) + [('0' as int + n % 10) as char]
  }

  function Itoa(n: int): string {
    if n < 0 then "-" + ItoaNat(-n) else ItoaNat(n)
  }

  /** An optional sign and digits, within 64 bits. */
  function Atoi(s: string): Option<int> {
    var signed := s != "" && (s[0] == '-' || s[0] == '+');
    var digits := if signed then s[1..] else s;
    if digits == "" || !Digits(digits) then None
    else
      var v: int := if signed && s[0] == '-' then 0 - Value(digits) as int else Value(digits);
      if -INT64 <= v < INT64 then Some(v) else None
  }

  predicate Sign(sign: string) {
    sign == "" || sign == "+" || sign == "-"
  }

  function Signed(sign: string, v: nat): int {
    if sign == "-" then 0 - v else v
  }

  /** The texts that are numbers are an optional sign followed by digits, if the number they write fits in 64 bits. */
  lemma AtoiIs(s: string, v: int)
    ensures Atoi(s) == Some(v) <==>
      -INT64 <= v < INT64
      && exists sign, digits ::
           Sign(sign) && digits != "" && Digits(digits) && s == sign + digits && v == Signed(sign, Value(digits))
  {
    if Atoi(s) == Some(v) {
      var sign := if s[0] == '-' || s[0] == '+' then [s[0]] else "";
      var digits := s[|sign|..];
      assert s == sign + digits && Sign(sign);
    }
    forall sign, digits | Sign(sign) && digits != "" && Digits(digits) && s == sign + digits
      ensures -INT64 <= Signed(sign, Value(digits)) < INT64 ==> Atoi(s) == Some(Signed(sign, Value(digits)))
    {
      assert IsDigit(digits[0]);
      if sign == "" {
        assert s == digits;
      } else {
        assert s[1..] == digits && s[0] == sign[0];
      }
    }
  }

  /** Conversion to 32 bits. */
  function Wrap32(v: int): (r: int32)
    ensures -INT32 <= v < INT32 ==> r == v
  {
    (v + INT32) % (2 * INT32) - INT32
  }

  predicate CanonicalNat(s: string) {
    s != "" && Digits(s) && (|s| > 1 ==> s[0] != '0')
  }

  /** Written without a plus sign or leading zeros, and within 32 bits. */
  predicate Canonical(port: string) {
    || (CanonicalNat(port) && Value(port) < INT32)
    || (port != "" && port[0] == '-' && CanonicalNat(port[1..]) && 0 < Value(port[1..]) <= INT32)
  }

  lemma {:induction false} ItoaNatIsCanonical(n: nat)
    ensures CanonicalNat(ItoaNat(n)) && Value(ItoaNat(n)) == n
    ensures n > 0 ==> ItoaNat(n)[0] != '0'
  {
    if n >= 10 {
      ItoaNatIsCanonical(n / 10);
      var s := ItoaNat(n);
      assert s[..|s| - 1] == ItoaNat(n / 10);
    } else {
      assert ItoaNat(n)[..0] == "";
    }
  }

  lemma {:induction false} ItoaNatOfValue(s: string)
    requires CanonicalNat(s)
    ensures ItoaNat(Value(s)) == s
    ensures s[0] != '0' ==> Value(s) > 0
  {
    var n := |s| - 1;
    if n > 0 {
      assert CanonicalNat(s[..n]) && s[..n][0] == s[0];
      ItoaNatOfValue(s[..n]);
      assert s == s[..n] + [s[n]];
    } else {
      assert s[..0] == "" && s == [s[0]];
    }
  }

  lemma ItoaIsCanonical(w: int32)
    ensures Canonical(Itoa(w))
  {
    var n: int := w;
    ItoaNatIsCanonical(if n < 0 then -n else n);
    assert n < 0 ==> Itoa(n)[1..] == ItoaNat(-n);
  }

  /** A port number survives the conversion to a 32-bit integer and back exactly when it is canonical. */
  lemma PortSurvivesIff(port: string)
    requires Atoi(port).Some?
    ensures Itoa(Wrap32(Atoi(port).value)) == port <==> Canonical(port)
  {
    ItoaIsCanonical(Wrap32(Atoi(port).value));
    if CanonicalNat(port) && Value(port) < INT32 {
      ItoaNatOfValue(port);
    } else if Canonical(port) {
      ItoaNatOfValue(port[1..]);
      assert port == "-" + port[1..];
    }
  }

  // ---- the cluster ----

  const LABEL := "ingress-ready"
  const READY := "true"

  datatype PortMapping = PortMapping(containerPort: int32, hostPort: int32, listenAddress: string, protocol: string)

  /** `rest` stands for the fields that are not touched; an absent list or map is an empty one. */
  datatype Node = Node(extraPortMappings: seq<PortMapping>, labels: map<string, string>, rest: string)

  datatype Config = Config(protocol: string, port: string)

  predicate MapsPort(n: Node, port: string) {
    exists k :: 0 <= k < |n.extraPortMappings| && Itoa(n.extraPortMappings[k].hostPort) == port
  }

  predicate Labelled(n: Node) {
    LABEL in n.labels && n.labels[LABEL] == READY
  }

  predicate Candidate(n: Node, port: string) {
    MapsPort(n, port) || Labelled(n)
  }

  /** The first node that maps the port or is labelled; without one, the first node. */
  ghost predicate IsChosen(nodes: seq<Node>, port: string, i: nat) {
    && i < |nodes|
    && (forall j :: 0 <= j < i ==> !Candidate(nodes[j], port))
    && (Candidate(nodes[i], port) || (i == 0 && forall j :: 0 <= j < |nodes| ==> !Candidate(nodes[j], port)))
  }

  function NewMapping(cfg: Config): PortMapping
    requires Atoi(cfg.port).Some?
  {
    PortMapping(if cfg.protocol == "http" then 80 else 443, Wrap32(Atoi(cfg.port).value), "", "TCP")
  }

  /** A node with what is missing added. */
  function Completed(n: Node, cfg: Config): Node
    requires MapsPort(n, cfg.port) || Atoi(cfg.port).Some?
  {
    Node(if MapsPort(n, cfg.port) then n.extraPortMappings else n.extraPortMappings + [NewMapping(cfg)],
         if Labelled(n) then n.labels else n.labels[LABEL := READY],
         n.rest)
  }

  /** Looks for the node to complete, and for what it already has. */
  method ScanNodes(nodes: seq<Node>, port: string)
    returns (appendNecessaryPort: bool, appendIngressNodeLabel: bool, nodePosition: nat)
    requires nodes != []
    ensures IsChosen(nodes, port, nodePosition)
    ensures appendNecessaryPort <==> !MapsPort(nodes[nodePosition], port)
    ensures appendIngressNodeLabel <==> !Labelled(nodes[nodePosition])
  {
    appendNecessaryPort, appendIngressNodeLabel, nodePosition := true, true, 0;
    for i := 0 to |nodes|
      invariant appendNecessaryPort && appendIngressNodeLabel && nodePosition == 0
      invariant forall j :: 0 <= j < i ==> !Candidate(nodes[j], port)
    {
      var node := nodes[i];
      for k := 0 to |node.extraPortMappings|
        invariant appendNecessaryPort && appendIngressNodeLabel && nodePosition == 0
        invariant forall l :: 0 <= l < k ==> Itoa(node.extraPortMappings[l].hostPort) != port
      {
        if Itoa(node.extraPortMappings[k].hostPort) == port {
          appendNecessaryPort := false;
          nodePosition := i;
          if LABEL in node.labels && node.labels[LABEL] == READY {
            appendIngressNodeLabel := false;
          }
          return;
        }
      }
      if LABEL in node.labels && node.labels[LABEL] == READY {
        appendIngressNodeLabel := false;
        nodePosition := i;
        return;
      }
    }
  }

  /** `parsed` is the configuration's node list, `None` when the configuration does not parse. It fails on an
      empty list, or when the chosen node lacks the port and the configured port is no number; otherwise it
      completes the chosen node and leaves the others alone. */
  method EnsureCorrectConfig(cfg: Config, parsed: Option<seq<Node>>) returns (r: Option<seq<Node>>)
    ensures r.Some? <==> parsed.Some? && exists i: nat :: Completes(cfg, parsed.value, i)
    ensures r.Some? ==> exists i: nat :: Completes(cfg, parsed.value, i)
                                    && r.value == parsed.value[i := Completed(parsed.value[i], cfg)]
  {
    if parsed.None? {
      return None;
    }
    var nodes := parsed.value;
    if nodes == [] {
      return None;
    }
    var appendNecessaryPort, appendIngressNodeLabel, nodePosition := ScanNodes(nodes, cfg.port);
    forall i: nat | IsChosen(nodes, cfg.port, i) ensures i == nodePosition {
      ChosenIsUnique(nodes, cfg.port, i, nodePosition);
    }
    if appendNecessaryPort {
      var hp := Atoi(cfg.port);
      if hp.None? {
        return None;
      }
      var cp := if cfg.protocol == "http" then 80 else 443;
      var node := nodes[nodePosition];
      nodes := nodes[nodePosition := node.(extraPortMappings :=
        node.extraPortMappings + [PortMapping(cp, Wrap32(hp.value), "", "TCP")])];
    }
    if appendIngressNodeLabel {
      var node := nodes[nodePosition];
      nodes := nodes[nodePosition := node.(labels := node.labels[LABEL := READY])];
    }
    assert Completes(cfg, parsed.value, nodePosition);
    assert nodes == parsed.value[nodePosition := Completed(parsed.value[nodePosition], cfg)];
    r := Some(nodes);
  }

  ghost predicate Completes(cfg: Config, nodes: seq<Node>, i: nat) {
    IsChosen(nodes, cfg.port, i) && (MapsPort(nodes[i], cfg.port) || Atoi(cfg.port).Some?)
  }

  /** In a list with nodes one is chosen: the first that maps the port or has the label set to "true", or node 0 when
      there is none; and the configuration can be completed if that node maps the port or the port is a number. */
  lemma SomeNodeIsChosen(cfg: Config, nodes: seq<Node>) returns (i: nat)
    requires nodes != []
    ensures IsChosen(nodes, cfg.port, i) && i < |nodes|
    ensures forall j :: 0 <= j < i ==>
      !MapsPort(nodes[j], cfg.port) && ("ingress-ready", "true") !in nodes[j].labels.Items
    ensures MapsPort(nodes[i], cfg.port) || ("ingress-ready", "true") in nodes[i].labels.Items
            || (i == 0 && forall j :: 0 <= j < |nodes| ==>
                  !MapsPort(nodes[j], cfg.port) && ("ingress-ready", "true") !in nodes[j].labels.Items)
    ensures (exists k: nat :: Completes(cfg, nodes, k)) <==> MapsPort(nodes[i], cfg.port) || Atoi(cfg.port).Some?
  {
    i := 0;
    while i < |nodes| && !Candidate(nodes[i], cfg.port)
      invariant i <= |nodes| && forall j :: 0 <= j < i ==> !Candidate(nodes[j], cfg.port)
    {
      i := i + 1;
    }
    if i == |nodes| {
      i := 0;
    }
    assert IsChosen(nodes, cfg.port, i);
    forall k: nat | Completes(cfg, nodes, k) ensures k == i { ChosenIsUnique(nodes, cfg.port, k, i); }
    assert MapsPort(nodes[i], cfg.port) || Atoi(cfg.port).Some? ==> Completes(cfg, nodes, i);
  }

  lemma ChosenIsUnique(nodes: seq<Node>, port: string, i: nat, j: nat)
    requires IsChosen(nodes, port, i) && IsChosen(nodes, port, j)
    ensures i == j
  {
  }

  // ---- what the completed configuration is ----

  lemma CompletedMapsPortIff(n: Node, cfg: Config)
    requires MapsPort(n, cfg.port) || Atoi(cfg.port).Some?
    ensures MapsPort(Completed(n, cfg), cfg.port) <==> MapsPort(n, cfg.port) || Canonical(cfg.port)
  {
    var before, after := n.extraPortMappings, Completed(n, cfg).extraPortMappings;
    assert forall k :: 0 <= k < |before| ==> after[k] == before[k];
    if !MapsPort(n, cfg.port) {
      PortSurvivesIff(cfg.port);
      assert after[|before|] == NewMapping(cfg);
    }
  }

  /** The chosen node has the label, and it maps the configured port if and only if it did before or the port is
      canonical. */
  lemma ChosenNodeServes(cfg: Config, nodes: seq<Node>, i: nat)
    requires Completes(cfg, nodes, i)
    ensures ("ingress-ready", "true") in Completed(nodes[i], cfg).labels.Items
    ensures MapsPort(Completed(nodes[i], cfg), cfg.port) <==> MapsPort(nodes[i], cfg.port) || Canonical(cfg.port)
  {
    CompletedMapsPortIff(nodes[i], cfg);
  }

  /** At most one mapping is added, at the end, and no label but the one changes. An added mapping leads to container
      port 80 for "http" and 443 otherwise, over TCP and on no particular address, and has the host port that was
      configured if and only if this fits in 32 bits. */
  lemma LittleIsAdded(cfg: Config, n: Node)
    requires MapsPort(n, cfg.port) || Atoi(cfg.port).Some?
    ensures var before, after := n, Completed(n, cfg);
            && after.labels - {LABEL} == before.labels - {LABEL} && after.rest == before.rest
            && (MapsPort(n, cfg.port) ==> after.extraPortMappings == before.extraPortMappings)
            && (!MapsPort(n, cfg.port) ==>
              && |after.extraPortMappings| == |before.extraPortMappings| + 1
              && after.extraPortMappings[..|before.extraPortMappings|] == before.extraPortMappings
              && var added := after.extraPortMappings[|before.extraPortMappings|];
              && (added.containerPort == 80 <==> cfg.protocol == "http")
              && (added.containerPort == 443 <==> cfg.protocol != "http")
              && added.listenAddress == "" && added.protocol == "TCP"
              && (added.hostPort as int == Atoi(cfg.port).value <==> -INT32 <= Atoi(cfg.port).value < INT32))
  {
  }

  /** Completing a completed configuration changes nothing if and only if no port had to be added or the
      configured port is canonical; otherwise the port is added again each time. */
  lemma SecondApplicationIsIdleIff(cfg: Config, nodes: seq<Node>, i: nat)
    requires Completes(cfg, nodes, i)
    ensures var once := nodes[i := Completed(nodes[i], cfg)];
            && Completes(cfg, once, i)
            && (once[i := Completed(once[i], cfg)] == once <==> MapsPort(nodes[i], cfg.port) || Canonical(cfg.port))
  {
    var once := nodes[i := Completed(nodes[i], cfg)];
    CompletedMapsPortIff(nodes[i], cfg);
    assert Labelled(once[i]);
    assert Completes(cfg, once, i);
    var twice := once[i := Completed(once[i], cfg)];
    if MapsPort(once[i], cfg.port) {
      assert Completed(once[i], cfg) == once[i];
    } else {
      assert |twice[i].extraPortMappings| == |once[i].extraPortMappings| + 1;
    }
  }

  /** Besides the chosen node another one maps the port in the end if and only if it did from the start, and the
      chosen node did too or comes first because of its label. */
  lemma PortMappedTwiceIff(cfg: Config, nodes: seq<Node>, i: nat, j: nat)
    requires Completes(cfg, nodes, i) && j < |nodes| && j != i
    ensures var once := nodes[i := Completed(nodes[i], cfg)];
            && (MapsPort(once[i], cfg.port) && MapsPort(once[j], cfg.port)
                <==> MapsPort(nodes[j], cfg.port) && (MapsPort(nodes[i], cfg.port) || i < j))
            && (MapsPort(nodes[j], cfg.port) && !MapsPort(nodes[i], cfg.port) ==> Labelled(nodes[i]))
  {
    CompletedMapsPortIff(nodes[i], cfg);
    if MapsPort(nodes[j], cfg.port) {
      var k :| 0 <= k < |nodes[j].extraPortMappings| && Itoa(nodes[j].extraPortMappings[k].hostPort) == cfg.port;
      ItoaIsCanonical(nodes[j].extraPortMappings[k].hostPort);
    }
  }
}
