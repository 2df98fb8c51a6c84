/** Cluster DNS names: the parsers of A and SRV query names. */
module Naming {
  import opened Strings

  datatype Parsed<+T> = Ok(value: T) | Err

  datatype ServiceName = ServiceName(service: string, namespace: string)

  datatype SrvName = SrvName(port: string, protocol: string, service: string, namespace: string)

  const DEFAULT_CLUSTER_DOMAIN := "cluster.local"

  /** The registry's key of a service, which is also its name below the cluster domain. */
  function ServiceKey(service: string, namespace: string): string {
    service + "." + namespace
  }

  /** The trims at the start of both parsers, in the order in which they are made. */
  function TrimDomain(name: string, domain: string): string {
    var name1 := TrimSuffix(name, ".");
    var name2 := TrimSuffix(name1, "." + domain);
    TrimSuffix(name2, ".svc." + domain)
  }

  /** What follows the trims of parseServiceName. */
  function ParseLabels(name: string): Parsed<ServiceName> {
    var parts := Split(name);
    if |parts| < 2 then Err
    else Ok(ServiceName(Join(parts[..|parts| - 1]), parts[|parts| - 1]))
  }

  function ParseServiceName(name: string, domain: string): Parsed<ServiceName> {
    ParseLabels(TrimDomain(name, domain))
  }

  /** What follows the trims of parseSRVName. */
  function ParseSrvLabels(name: string): Parsed<SrvName> {
    var parts := Split(name);
    if |parts| < 4 then Err
    else if !HasPrefix(parts[0], "_") || !HasPrefix(parts[1], "_") then Err
    else
      Ok(SrvName(
           TrimPrefix(parts[0], "_"),
           TrimPrefix(parts[1], "_"),
           Join(parts[2..|parts| - 1]),
           parts[|parts| - 1]))
  }

  function ParseSrvName(name: string, domain: string): Parsed<SrvName> {
    ParseSrvLabels(TrimDomain(name, domain))
  }

  // ---------------------------------------------- what the parsers recognise

  /** Splitting and joining takes the name apart at its last dot, and fails without one. */
  lemma ParseLabelsIff(name: string, service: string, namespace: string)
    ensures ParseLabels(name) == Ok(ServiceName(service, namespace)) <==>
            name == ServiceKey(service, namespace) && DotFree(namespace)
    ensures ParseLabels(name).Err? <==> DotFree(name)
  {
    var parts := Split(name);
    SplitPartsAreDotFree(name);
    JoinSplit(name);
    if |parts| >= 2 {
      JoinAtLast(parts);
    }
    if name == ServiceKey(service, namespace) && DotFree(namespace) {
      SplitAtDot(service, namespace);
      SplitDotFree(namespace);
      JoinSplit(service);
      assert parts[..|parts| - 1] == Split(service);
    }
    if DotFree(name) {
      SplitDotFree(name);
    }
  }

  function SrvPrefix(port: string, protocol: string): string {
    "_" + port + "._" + protocol + "."
  }

  /** The SRV name of a service below the cluster domain. */
  function SrvBase(srv: SrvName): string {
    SrvPrefix(srv.port, srv.protocol) + ServiceKey(srv.service, srv.namespace)
  }

  /** A trimmed SRV name is recognised as the one way to read it as
      _port._protocol.service.namespace with dot-free port, protocol and namespace. */
  lemma ParseSrvLabelsIff(trimmed: string, srv: SrvName)
    ensures ParseSrvLabels(trimmed) == Ok(srv) <==>
            && trimmed == SrvBase(srv)
            && DotFree(srv.port) && DotFree(srv.protocol) && DotFree(srv.namespace)
  {
    if ParseSrvLabels(trimmed) == Ok(srv) {
      SrvParts(trimmed, srv);
    }
    if trimmed == SrvBase(srv) && DotFree(srv.port) && DotFree(srv.protocol) && DotFree(srv.namespace) {
      SrvSplit(trimmed, srv);
    }
  }

  lemma SrvParts(trimmed: string, srv: SrvName)
    requires var parts := Split(trimmed);
             && |parts| >= 4
             && parts[0] == "_" + srv.port && parts[1] == "_" + srv.protocol
             && Join(parts[2..|parts| - 1]) == srv.service && parts[|parts| - 1] == srv.namespace
    ensures trimmed == SrvBase(srv)
    ensures DotFree(srv.port) && DotFree(srv.protocol) && DotFree(srv.namespace)
  {
    var parts := Split(trimmed);
    SplitPartsAreDotFree(trimmed);
    JoinSplit(trimmed);
    JoinAtLast(parts[2..]);
    assert parts[2..][..|parts| - 3] == parts[2..|parts| - 1];
    assert parts[1..][1..] == parts[2..];
    assert Join(parts[1..]) == parts[1] + "." + Join(parts[2..]);
    assert '.' !in srv.port by {
      assert forall c :: c in srv.port ==> c in parts[0];
    }
    assert '.' !in srv.protocol by {
      assert forall c :: c in srv.protocol ==> c in parts[1];
    }
  }

  lemma SrvSplit(trimmed: string, srv: SrvName)
    requires trimmed == SrvBase(srv)
    requires DotFree(srv.port) && DotFree(srv.protocol) && DotFree(srv.namespace)
    ensures var parts := Split(trimmed);
            && |parts| >= 4
            && parts[0] == "_" + srv.port && parts[1] == "_" + srv.protocol
            && Join(parts[2..|parts| - 1]) == srv.service && parts[|parts| - 1] == srv.namespace
  {
    var key := ServiceKey(srv.service, srv.namespace);
    var p, t := "_" + srv.port, "_" + srv.protocol;
    SplitKey(srv.service, srv.namespace);
    SrvBaseInParts(srv);
    SplitTwoLabels(p, t, key);
    MiddleOf(p, t, Split(srv.service), srv.namespace);
  }

  lemma SrvBaseInParts(srv: SrvName)
    ensures SrvBase(srv) == ("_" + srv.port) + "." + (("_" + srv.protocol) + "." + ServiceKey(srv.service, srv.namespace))
  {
    var p, t, key := "_" + srv.port, "_" + srv.protocol, ServiceKey(srv.service, srv.namespace);
    assert SrvPrefix(srv.port, srv.protocol) == p + "." + (t + ".");
  }

  lemma SplitTwoLabels(p: string, t: string, rest: string)
    requires DotFree(p) && DotFree(t)
    ensures Split(p + "." + (t + "." + rest)) == [p] + ([t] + Split(rest))
  {
    SplitAtDot(p, t + "." + rest);
    SplitAtDot(t, rest);
    SplitDotFree(p);
    SplitDotFree(t);
  }

  lemma SplitKey(service: string, namespace: string)
    requires DotFree(namespace)
    ensures Split(ServiceKey(service, namespace)) == Split(service) + [namespace]
    ensures Join(Split(service)) == service
  {
    SplitAtDot(service, namespace);
    SplitDotFree(namespace);
    JoinSplit(service);
  }

  lemma MiddleOf(p: string, t: string, middle: seq<string>, last: string)
    ensures var parts := [p] + ([t] + (middle + [last]));
            parts[0] == p && parts[1] == t && parts[2..|parts| - 1] == middle && parts[|parts| - 1] == last
  {
  }

  // ------------------------------------------------------------- round trips

  /** A domain as it stands in names: not empty and without a final dot. */
  predicate PlainDomain(domain: string) {
    domain != "" && !HasSuffix(domain, ".")
  }

  function Bare(domain: string): string {
    TrimSuffix(domain, ".")
  }

  /** A configured cluster domain, written with or without a final dot. (An empty one is
      replaced by the default.) */
  predicate ClusterDomain(domain: string) {
    PlainDomain(Bare(domain))
  }

  /** `base` under the cluster domain, with or without the final dot of an absolute name. */
  function Qualified(base: string, domain: string, absolute: bool): string {
    base + "." + domain + if absolute then "." else ""
  }

  /** What the parsers make of a base qualified with the cluster domain. */
  function Remainder(base: string, domain: string): string {
    if HasSuffix(domain, ".") then base + "." + Bare(domain) else TrimSuffix(base, ".svc." + domain)
  }

  /** Trimming a qualified name gives back the base, unless that itself ends in the domain's
      `.svc` form, which is then cut off as well. Under a domain configured with a final dot
      nothing is cut off: the name's own final dot has gone before. */
  lemma TrimQualified(base: string, domain: string, absolute: bool)
    requires ClusterDomain(domain)
    ensures TrimDomain(Qualified(base, Bare(domain), absolute), domain) == Remainder(base, domain)
  {
    var plain := Bare(domain);
    var full := base + "." + plain;
    DropFinalDot(base, plain, absolute);
    TrimDot(domain);
    EndsWithDot(domain);
    if HasSuffix(domain, ".") {
      EndsWithDot(plain);
      NoDottedSuffix(full, "." + domain);
      NoDottedSuffix(full, ".svc." + domain);
    } else {
      assert full == base + ("." + domain);
      TrimAppended(base, "." + domain);
    }
  }

  lemma NoDottedSuffix(s: string, t: string)
    requires t != "" && t[|t| - 1] == '.'
    requires s != "" && s[|s| - 1] != '.'
    ensures TrimSuffix(s, t) == s
  {
  }

  lemma RemainderLonger(base: string, domain: string)
    requires HasSuffix(domain, ".")
    ensures |Remainder(base, domain)| > |base|
  {
  }

  lemma TrimUnchangedIff(s: string, t: string)
    requires t != ""
    ensures TrimSuffix(s, t) == s <==> !HasSuffix(s, t)
  {
  }

  /** The name of a service with a dot-free namespace parses back to the service exactly when
      the domain is configured without a final dot and the key does not itself end in the
      domain's `.svc` form. */
  lemma ServiceNameRoundTrip(service: string, namespace: string, domain: string, absolute: bool)
    requires DotFree(namespace) && ClusterDomain(domain)
    ensures var key := ServiceKey(service, namespace);
            ParseServiceName(Qualified(key, Bare(domain), absolute), domain) == Ok(ServiceName(service, namespace))
            <==> !HasSuffix(domain, ".") && !HasSuffix(key, ".svc." + domain)
  {
    var key := ServiceKey(service, namespace);
    TrimQualified(key, domain, absolute);
    RemainderUnchangedIff(key, domain);
    ParseLabelsIff(Remainder(key, domain), service, namespace);
  }

  lemma RemainderUnchangedIff(base: string, domain: string)
    ensures Remainder(base, domain) == base <==> !HasSuffix(domain, ".") && !HasSuffix(base, ".svc." + domain)
  {
    if HasSuffix(domain, ".") {
      RemainderLonger(base, domain);
    } else {
      TrimUnchangedIff(base, ".svc." + domain);
    }
  }

  /** The same for SRV names in the form of RFC 2782. Behind the labels of port and protocol
      the key is cut also when it is exactly "svc.<domain>". */
  lemma SrvNameRoundTrip(srv: SrvName, domain: string, absolute: bool)
    requires DotFree(srv.port) && DotFree(srv.protocol) && DotFree(srv.namespace) && ClusterDomain(domain)
    ensures var key := ServiceKey(srv.service, srv.namespace);
            ParseSrvName(Qualified(SrvBase(srv), Bare(domain), absolute), domain) == Ok(srv)
            <==> !HasSuffix(domain, ".") && !LabelSuffix(key, "svc." + domain)
  {
    TrimQualified(SrvBase(srv), domain, absolute);
    RemainderUnchangedIff(SrvBase(srv), domain);
    ParseSrvLabelsIff(Remainder(SrvBase(srv), domain), srv);
    SvcSuffixOfSrv(srv, domain);
  }

  lemma SvcSuffixOfSrv(srv: SrvName, domain: string)
    requires DotFree(srv.port) && DotFree(srv.protocol)
    ensures HasSuffix(SrvBase(srv), ".svc." + domain) <==>
            LabelSuffix(ServiceKey(srv.service, srv.namespace), "svc." + domain)
  {
    var p, t, key, d := "_" + srv.port, "_" + srv.protocol, ServiceKey(srv.service, srv.namespace), "svc." + domain;
    SrvBaseInParts(srv);
    assert ".svc." + domain == "." + d;
    SuffixBelowLabel(p, t + "." + key, d);
    SuffixBelowLabel(t, key, d);
    assert (t + "." + key)[0] == '_' && d[0] == 's';
  }

  // ----------------------------------------------------------- the .svc form

  /** The form service.namespace.svc.<domain> is documented to name the same service. As
      shipped it never does: the shorter suffix is trimmed first and leaves `svc` at the end.
      What remains is parsed with `svc` for its namespace, or, under a domain that itself ends
      in the label `svc`, possibly after one more cut, or, under one configured with a final
      dot, with the whole domain still there. */
  lemma SvcFormAsShipped(service: string, namespace: string, domain: string, absolute: bool)
    requires ClusterDomain(domain)
    ensures var base := ServiceKey(service, namespace) + ".svc";
            var parsed := ParseServiceName(Qualified(base, Bare(domain), absolute), domain);
            && parsed == ParseLabels(Remainder(base, domain))
            && parsed != Ok(ServiceName(service, namespace))
            && (parsed == Ok(ServiceName(ServiceKey(service, namespace), "svc")) <==>
                  !HasSuffix(domain, ".") && !HasSuffix(base, ".svc." + domain))
            && (!LabelSuffix(domain, "svc") ==> !HasSuffix(base, ".svc." + domain))
  {
    var key := ServiceKey(service, namespace);
    TrimQualified(key + ".svc", domain, absolute);
    SvcCut(key, domain);
    SvcLabels(service, namespace, Remainder(key + ".svc", domain));
  }

  /** Trimming never leaves the part in front of a final `.svc`: it takes nothing, more than
      that, or not even the domain. */
  lemma SvcCut(front: string, domain: string)
    requires domain != ""
    ensures var left := Remainder(front + ".svc", domain);
            && left != front
            && (left == front + ".svc" <==> !HasSuffix(domain, ".") && !HasSuffix(front + ".svc", ".svc." + domain))
    ensures !LabelSuffix(domain, "svc") ==> !HasSuffix(front + ".svc", ".svc." + domain)
  {
    RemainderUnchangedIff(front + ".svc", domain);
    if HasSuffix(domain, ".") {
      RemainderLonger(front + ".svc", domain);
    } else {
      assert |TrimSuffix(front + ".svc", ".svc." + domain)| != |front|;
    }
    if !LabelSuffix(domain, "svc") {
      NoSvcSuffix(front, domain);
    }
  }

  lemma SvcLabels(service: string, namespace: string, trimmed: string)
    ensures var key := ServiceKey(service, namespace);
            && (trimmed != key ==> ParseLabels(trimmed) != Ok(ServiceName(service, namespace)))
            && (ParseLabels(trimmed) == Ok(ServiceName(key, "svc")) <==> trimmed == key + ".svc")
  {
    var key := ServiceKey(service, namespace);
    ParseLabelsIff(trimmed, service, namespace);
    assert key + ".svc" == ServiceKey(key, "svc");
    ParseLabelsIff(trimmed, key, "svc");
  }

  /** The same for the documented form _port._protocol.service.namespace.svc.<domain>. */
  lemma SrvSvcFormAsShipped(srv: SrvName, domain: string, absolute: bool)
    requires ClusterDomain(domain)
    ensures var base := SrvBase(srv) + ".svc";
            var parsed := ParseSrvName(Qualified(base, Bare(domain), absolute), domain);
            && parsed == ParseSrvLabels(Remainder(base, domain))
            && parsed != Ok(srv)
            && (parsed == Ok(SrvName(srv.port, srv.protocol, ServiceKey(srv.service, srv.namespace), "svc")) <==>
                  && DotFree(srv.port) && DotFree(srv.protocol)
                  && !HasSuffix(domain, ".") && !HasSuffix(base, ".svc." + domain))
            && (!LabelSuffix(domain, "svc") ==> !HasSuffix(base, ".svc." + domain))
  {
    TrimQualified(SrvBase(srv) + ".svc", domain, absolute);
    SvcCut(SrvBase(srv), domain);
    SrvSvcLabels(srv, Remainder(SrvBase(srv) + ".svc", domain));
  }

  lemma SrvSvcLabels(srv: SrvName, trimmed: string)
    ensures trimmed != SrvBase(srv) ==> ParseSrvLabels(trimmed) != Ok(srv)
    ensures ParseSrvLabels(trimmed) == Ok(SrvName(srv.port, srv.protocol, ServiceKey(srv.service, srv.namespace), "svc")) <==>
            trimmed == SrvBase(srv) + ".svc" && DotFree(srv.port) && DotFree(srv.protocol)
  {
    ParseSrvLabelsIff(trimmed, srv);
    var kept := SrvName(srv.port, srv.protocol, ServiceKey(srv.service, srv.namespace), "svc");
    SrvBaseWithSvc(srv, kept);
    ParseSrvLabelsIff(trimmed, kept);
  }

  lemma SrvBaseWithSvc(srv: SrvName, kept: SrvName)
    requires kept == SrvName(srv.port, srv.protocol, ServiceKey(srv.service, srv.namespace), "svc")
    ensures SrvBase(kept) == SrvBase(srv) + ".svc"
  {
    var prefix, key := SrvPrefix(srv.port, srv.protocol), ServiceKey(srv.service, srv.namespace);
    assert SrvBase(kept) == prefix + (key + "." + "svc");
    assert prefix + (key + "." + "svc") == (prefix + key) + ".svc";
  }

  lemma NoSvcSuffix(key: string, domain: string)
    requires domain != "" && !LabelSuffix(domain, "svc")
    ensures !HasSuffix(key + ".svc", ".svc." + domain)
  {
    if HasSuffix(key + ".svc", ".svc." + domain) {
      TrimAppended(key, ".svc");
      SuffixOfSuffix(key + ".svc", ".svc." + domain, ".svc");
      SvcAtEnd(domain);
    }
  }

  lemma SvcAtEnd(domain: string)
    requires domain != "" && HasSuffix(".svc." + domain, ".svc")
    ensures LabelSuffix(domain, "svc")
  {
    var s := ".svc." + domain;
    assert s[|s| - 4..] == ".svc";
    if |domain| >= 4 {
      SuffixOfAppended(".svc.", domain, ".svc");
    } else {
      assert s[|s| - 4] == '.' && s[|s| - 3] == 's' && s[|s| - 2] == 'v' && s[|s| - 1] == 'c';
      if |domain| == 3 {
        assert s[|s| - 3..] == domain;
      }
    }
  }

  lemma DefaultDomainIsPlain()
    ensures PlainDomain(DEFAULT_CLUSTER_DOMAIN) && Bare(DEFAULT_CLUSTER_DOMAIN) == DEFAULT_CLUSTER_DOMAIN
    ensures DEFAULT_CLUSTER_DOMAIN == "cluster.local" && !LabelSuffix(DEFAULT_CLUSTER_DOMAIN, "svc")
  {
    var d := DEFAULT_CLUSTER_DOMAIN;
    TrimDot(d);
    assert |d| == 13 && d[12] == 'l';
    assert d[|d| - 4..][3] == d[12];
    assert ("." + "svc")[3] == 'c';
  }

  /** The trims in the order that the documented forms call for: the longer suffix first, and
      only one of the two. */
  function TrimLongerFirst(name: string, domain: string): string {
    var name1 := TrimSuffix(name, ".");
    if HasSuffix(name1, ".svc." + domain) then TrimSuffix(name1, ".svc." + domain)
    else TrimSuffix(name1, "." + domain)
  }

  /** With that order the `.svc` form of every service parses back, and the short form does
      exactly when its namespace is not itself called `svc`. */
  lemma CorrectedOrderRoundTrips(service: string, namespace: string, domain: string, absolute: bool)
    requires DotFree(namespace) && PlainDomain(domain)
    ensures var key := ServiceKey(service, namespace);
            && ParseLabels(TrimLongerFirst(Qualified(key + ".svc", domain, absolute), domain)) == Ok(ServiceName(service, namespace))
            && (ParseLabels(TrimLongerFirst(Qualified(key, domain, absolute), domain)) == Ok(ServiceName(service, namespace))
                <==> namespace != "svc")
  {
    var key := ServiceKey(service, namespace);
    LongForm(key, domain, absolute);
    ParseLabelsIff(key, service, namespace);
    ShortForm(service, namespace, domain, absolute);
    var trimmed := TrimLongerFirst(Qualified(key, domain, absolute), domain);
    ParseLabelsIff(trimmed, service, namespace);
  }

  /** The same for SRV names. */
  lemma CorrectedSrvOrderRoundTrips(srv: SrvName, domain: string, absolute: bool)
    requires DotFree(srv.port) && DotFree(srv.protocol) && DotFree(srv.namespace) && PlainDomain(domain)
    ensures && ParseSrvLabels(TrimLongerFirst(Qualified(SrvBase(srv) + ".svc", domain, absolute), domain)) == Ok(srv)
            && (ParseSrvLabels(TrimLongerFirst(Qualified(SrvBase(srv), domain, absolute), domain)) == Ok(srv)
                <==> srv.namespace != "svc")
  {
    LongForm(SrvBase(srv), domain, absolute);
    ParseSrvLabelsIff(SrvBase(srv), srv);
    var front := SrvPrefix(srv.port, srv.protocol) + srv.service;
    assert SrvBase(srv) == ServiceKey(front, srv.namespace);
    ShortForm(front, srv.namespace, domain, absolute);
    ParseSrvLabelsIff(TrimLongerFirst(Qualified(SrvBase(srv), domain, absolute), domain), srv);
  }

  lemma LongForm(key: string, domain: string, absolute: bool)
    requires PlainDomain(domain)
    ensures TrimLongerFirst(Qualified(key + ".svc", domain, absolute), domain) == key
  {
    DropFinalDot(key + ".svc", domain, absolute);
    assert key + ".svc" + "." + domain == key + (".svc." + domain);
    TrimAppended(key, ".svc." + domain);
  }

  lemma ShortForm(service: string, namespace: string, domain: string, absolute: bool)
    requires DotFree(namespace) && PlainDomain(domain)
    ensures var key := ServiceKey(service, namespace);
            TrimLongerFirst(Qualified(key, domain, absolute), domain) == if namespace == "svc" then service else key
  {
    var key := ServiceKey(service, namespace);
    var short := key + "." + domain;
    DropFinalDot(key, domain, absolute);
    assert short == key + ("." + domain);
    TrimAppended(key, "." + domain);
    if namespace == "svc" {
      assert short == service + (".svc." + domain);
      TrimAppended(service, ".svc." + domain);
    } else if HasSuffix(short, ".svc." + domain) {
      NamespaceOfSvcName(service, namespace, domain);
      assert false;
    }
  }

  lemma NamespaceOfSvcName(service: string, namespace: string, domain: string)
    requires DotFree(namespace)
    requires HasSuffix(ServiceKey(service, namespace) + "." + domain, ".svc." + domain)
    ensures namespace == "svc"
  {
    var key := ServiceKey(service, namespace);
    assert key + "." + domain == key + ("." + domain);
    KeyOfSvcName(key, domain);
    var a :| key == ServiceKey(a, "svc");
    ParseLabelsIff(key, service, namespace);
    ParseLabelsIff(key, a, "svc");
  }

  lemma KeyOfSvcName(key: string, domain: string)
    requires HasSuffix(key + ("." + domain), ".svc." + domain)
    ensures exists a :: key == ServiceKey(a, "svc")
  {
    var short := key + ("." + domain);
    SuffixIff(short, ".svc." + domain);
    var a :| short == a + (".svc." + domain);
    assert short == ServiceKey(a, "svc") + ("." + domain);
    TrimAppended(ServiceKey(a, "svc"), "." + domain);
    TrimAppended(key, "." + domain);
  }

  lemma DropFinalDot(base: string, domain: string, absolute: bool)
    requires PlainDomain(domain)
    ensures TrimSuffix(Qualified(base, domain, absolute), ".") == base + "." + domain
  {
    var full := base + "." + domain;
    if absolute {
      TrimAppended(full, ".");
    } else {
      assert Qualified(base, domain, absolute) == full;
      EndsWithDot(domain);
      EndsWithDot(full);
    }
  }
}
