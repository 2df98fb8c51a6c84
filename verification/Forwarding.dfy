/** Forwarding a query to the upstream servers under the whitelist. */
module Forwarding {
  import opened Types
  import opened Strings
  import opened Whitelist

  datatype ResourceRecord = CNAME(target: string) | OtherRecord(text: string)

  // Response codes of section 4.1.1 of RFC 1035.
  const RCODE_SUCCESS := 0
  const RCODE_SERVER_FAILURE := 2
  const RCODE_REFUSED := 5

  datatype Message = Message(
    id: int,
    question: seq<string>,
    rcode: int,
    answer: seq<ResourceRecord>,
    extra: seq<ResourceRecord>)

  /** A reply made with SetReply: id and first question of the query, nothing else. */
  function ErrorReply(query: Message, rcode: int): Message {
    Message(query.id, if query.question == [] then [] else query.question[..1], rcode, [], [])
  }

  function QueryName(query: Message): string {
    if query.question == [] then "" else query.question[0]
  }

  /** The result of one exchange with an upstream; a success may carry no message. */
  datatype Exchange = Failed | Got(response: Option<Message>)

  /** The network: what upstream number i answers over UDP and over TCP. */
  datatype Network = Network(udp: nat -> Exchange, tcp: nat -> Exchange)

  /** The UDP result, or the TCP result when UDP fails. */
  function ResultOf(net: Network, i: nat): Exchange {
    if net.udp(i).Failed? then net.tcp(i) else net.udp(i)
  }

  predicate IsTarget(records: seq<ResourceRecord>, target: string) {
    CNAME(target) in records
  }

  function NormalTargets(records: seq<ResourceRecord>): set<string> {
    set r | r in records && r.CNAME? :: Normalize(r.target)
  }

  lemma NormalTargetsOfConcat(a: seq<ResourceRecord>, b: seq<ResourceRecord>)
    ensures NormalTargets(a + b) == NormalTargets(a) + NormalTargets(b)
  {
  }

  lemma NormalTargetsOfOneMore(records: seq<ResourceRecord>, i: nat)
    requires i < |records|
    ensures NormalTargets(records[..i + 1]) ==
            NormalTargets(records[..i]) + if records[i].CNAME? then {Normalize(records[i].target)} else {}
  {
    assert records[..i + 1] == records[..i] + [records[i]];
    NormalTargetsOfConcat(records[..i], [records[i]]);
  }

  /** Every CNAME target of the response, in Answer or Extra, is allowed, and remains so in
      the normal form that the pass over CNAME chains looks at. */
  ghost predicate TargetsAllowed(enabled: bool, table: set<string>, response: Message) {
    forall t :: IsTarget(response.answer + response.extra, t) ==>
      Allowed(enabled, table, t) && Allowed(enabled, table, Normalize(t))
  }

  lemma VerdictInParts(enabled: bool, table: set<string>, response: Message)
    ensures TargetsAllowed(enabled, table, response) <==>
            && (forall t :: IsTarget(response.answer, t) ==> Allowed(enabled, table, t))
            && (forall t :: IsTarget(response.extra, t) ==> Allowed(enabled, table, t))
            && (forall n :: n in NormalTargets(response.answer + response.extra) ==> Allowed(enabled, table, n))
  {
    var records := response.answer + response.extra;
    assert forall t :: IsTarget(records, t) <==> IsTarget(response.answer, t) || IsTarget(response.extra, t);
    forall t | IsTarget(records, t)
      ensures Normalize(t) in NormalTargets(records)
    {
      assert CNAME(t) in records && CNAME(t).CNAME?;
    }
    forall n | n in NormalTargets(records)
      ensures exists t :: IsTarget(records, t) && n == Normalize(t)
    {
      var r :| r in records && r.CNAME? && Normalize(r.target) == n;
      assert IsTarget(records, r.target);
    }
  }

  /** Upstream i gives an answer that may be passed on. */
  ghost predicate Usable(enabled: bool, table: set<string>, net: Network, i: nat) {
    && ResultOf(net, i).Got?
    && ResultOf(net, i).response.Some?
    && ResultOf(net, i).response.value.rcode == RCODE_SUCCESS
    && TargetsAllowed(enabled, table, ResultOf(net, i).response.value)
  }

  ghost predicate FirstUsable(enabled: bool, table: set<string>, net: Network, i: nat) {
    Usable(enabled, table, net, i) && forall j: nat :: j < i ==> !Usable(enabled, table, net, j)
  }

  /** The reply to a query, with this many upstream servers. */
  ghost predicate IsReply(reply: Message, query: Message, enabled: bool, table: set<string>, upstreams: nat, net: Network) {
    if !Allowed(enabled, table, QueryName(query)) then reply == ErrorReply(query, RCODE_REFUSED)
    else
      && (forall i: nat :: i < upstreams && FirstUsable(enabled, table, net, i) ==> reply == ResultOf(net, i).response.value)
      && ((forall i: nat :: i < upstreams ==> !Usable(enabled, table, net, i)) ==> reply == ErrorReply(query, RCODE_SERVER_FAILURE))
  }

  class ResponseWriter {
    var written: seq<Message>

    method WriteMsg(m: Message)
      modifies this
      ensures written == old(written) + [m]
    {
      written := written + [m];
    }
  }

  class Server {
    const upstreams: nat
    const whitelist: DnsWhitelist

    constructor (upstreams: nat, whitelist: DnsWhitelist)
      ensures this.upstreams == upstreams && this.whitelist == whitelist
    {
      this.upstreams, this.whitelist := upstreams, whitelist;
    }

    /** The loop over the CNAME records of one section. */
    method SectionAllowed(records: seq<ResourceRecord>) returns (ok: bool)
      ensures ok <==> forall t :: IsTarget(records, t) ==> Allowed(whitelist.enabled, whitelist.hosts, t)
    {
      for i := 0 to |records|
        invariant forall t :: IsTarget(records[..i], t) ==> Allowed(whitelist.enabled, whitelist.hosts, t)
      {
        if records[i].CNAME? {
          var allowed := whitelist.IsHostAllowed(records[i].target);
          if !allowed {
            assert IsTarget(records, records[i].target);
            return false;
          }
        }
        assert records[..i + 1] == records[..i] + [records[i]];
      }
      assert records[..|records|] == records;
      return true;
    }

    /** The normalised targets of both sections, each listed once. */
    method ExtractCnameTargets(response: Message) returns (targets: seq<string>)
      ensures NoDuplicates(targets)
      ensures Elements(targets) == NormalTargets(response.answer + response.extra)
    {
      targets := AddTargets([], response.answer);
      targets := AddTargets(targets, response.extra);
      NormalTargetsOfConcat(response.answer, response.extra);
    }

    /** Extends `targets` by those of `records` that were not seen before. */
    static method AddTargets(targets: seq<string>, records: seq<ResourceRecord>) returns (all: seq<string>)
      requires NoDuplicates(targets)
      ensures NoDuplicates(all)
      ensures Elements(all) == Elements(targets) + NormalTargets(records)
    {
      all := targets;
      for i := 0 to |records|
        invariant NoDuplicates(all)
        invariant Elements(all) == Elements(targets) + NormalTargets(records[..i])
      {
        NormalTargetsOfOneMore(records, i);
        if records[i].CNAME? {
          var target := Normalize(records[i].target);
          if target !in all {
            ElementsOfOneMore(all, target);
            all := all + [target];
          }
        }
      }
      assert records[..|records|] == records;
    }

    method ValidateCnameRecords(response: Message) returns (ok: bool)
      ensures ok <==> TargetsAllowed(whitelist.enabled, whitelist.hosts, response)
    {
      VerdictInParts(whitelist.enabled, whitelist.hosts, response);
      ok := SectionAllowed(response.answer);
      if !ok {
        return;
      }
      ok := SectionAllowed(response.extra);
      if !ok {
        return;
      }
      var targets := ExtractCnameTargets(response);
      ok := NamesAllowed(targets);
    }

    /** The loop over the extracted targets. */
    method NamesAllowed(names: seq<string>) returns (ok: bool)
      ensures ok <==> forall n :: n in Elements(names) ==> Allowed(whitelist.enabled, whitelist.hosts, n)
    {
      for i := 0 to |names|
        invariant forall j :: 0 <= j < i ==> Allowed(whitelist.enabled, whitelist.hosts, names[j])
      {
        ok := whitelist.IsHostAllowed(names[i]);
        if !ok {
          assert names[i] in Elements(names);
          return;
        }
      }
      return true;
    }

    /** Writes exactly one reply: REFUSED when the whitelist rejects the name, else the answer
        of the first usable upstream, else SERVFAIL. */
    method ForwardQuery(w: ResponseWriter, query: Message, net: Network)
      modifies w
      ensures |w.written| == |old(w.written)| + 1 && w.written[..|old(w.written)|] == old(w.written)
      ensures IsReply(w.written[|old(w.written)|], query, whitelist.enabled, whitelist.hosts, upstreams, net)
    {
      var queryName := "";
      if |query.question| > 0 {
        queryName := query.question[0];
      }
      if whitelist.enabled {
        var allowed := whitelist.IsHostAllowed(queryName);
        if !allowed {
          w.WriteMsg(ErrorReply(query, RCODE_REFUSED));
          return;
        }
      }
      for i := 0 to upstreams
        invariant w.written == old(w.written)
        invariant forall j: nat :: j < i ==> !Usable(whitelist.enabled, whitelist.hosts, net, j)
      {
        var result := net.udp(i);
        if result.Failed? {
          result := net.tcp(i);
          if result.Failed? {
            continue;
          }
        }
        if result.response.Some? {
          var response := result.response.value;
          if response.rcode == RCODE_SUCCESS {
            if whitelist.enabled {
              var valid := ValidateCnameRecords(response);
              if !valid {
                continue;
              }
            }
            assert FirstUsable(whitelist.enabled, whitelist.hosts, net, i);
            w.WriteMsg(response);
            return;
          }
        }
      }
      w.WriteMsg(ErrorReply(query, RCODE_SERVER_FAILURE));
    }
  }

  // -------------------------------------------------------------- theorems

  /** Upstream i answered with this message: over UDP, or over TCP when UDP failed. */
  predicate Answered(net: Network, i: nat, m: Message) {
    net.udp(i) == Got(Some(m)) || (net.udp(i).Failed? && net.tcp(i) == Got(Some(m)))
  }

  /** The message is NOERROR and all its CNAME targets are allowed, in Answer and in Extra. */
  ghost predicate Passes(enabled: bool, table: set<string>, m: Message) {
    && m.rcode == 0
    && forall t :: CNAME(t) in m.answer || CNAME(t) in m.extra ==>
         Allowed(enabled, table, t) && Allowed(enabled, table, Normalize(t))
  }

  lemma UsableIff(enabled: bool, table: set<string>, net: Network, i: nat, m: Message)
    ensures Usable(enabled, table, net, i) && ResultOf(net, i).response == Some(m) <==> Answered(net, i, m) && Passes(enabled, table, m)
  {
    assert forall t :: IsTarget(m.answer + m.extra, t) <==> CNAME(t) in m.answer || CNAME(t) in m.extra;
  }

  lemma UsableAnswer(enabled: bool, table: set<string>, net: Network, i: nat)
    ensures Usable(enabled, table, net, i) <==> exists m :: Answered(net, i, m) && Passes(enabled, table, m)
  {
    if Usable(enabled, table, net, i) {
      UsableIff(enabled, table, net, i, ResultOf(net, i).response.value);
    }
    if m :| Answered(net, i, m) && Passes(enabled, table, m) {
      UsableIff(enabled, table, net, i, m);
    }
  }

  /** The reply in terms of the exchanges alone. A name that is not allowed is REFUSED. For an
      allowed one the least upstream decides that gave a NOERROR message with all CNAME targets
      allowed, over UDP, or over TCP after UDP had failed. Exactly when there is none, the reply
      is SERVFAIL. An error reply repeats the query's id and its first question, nothing else. */
  lemma ReplyFromExchanges(reply: Message, query: Message, enabled: bool, table: set<string>, upstreams: nat, net: Network)
    requires IsReply(reply, query, enabled, table, upstreams, net)
    ensures var allowed := Allowed(enabled, table, if query.question == [] then "" else query.question[0]);
            var none := forall i: nat, m :: i < upstreams && Answered(net, i, m) ==> !Passes(enabled, table, m);
            && (reply.rcode == 5 <==> !allowed)
            && (reply.rcode == 2 <==> allowed && none)
            && (reply.rcode == 0 <==> allowed && !none)
            && (!allowed || none ==>
                  && reply.id == query.id && reply.answer == [] && reply.extra == []
                  && reply.question == (if query.question == [] then [] else [query.question[0]]))
            && (allowed ==>
                  forall i: nat, m ::
                    && i < upstreams && Answered(net, i, m) && Passes(enabled, table, m)
                    && (forall j: nat, n :: j < i && Answered(net, j, n) ==> !Passes(enabled, table, n))
                    ==> reply == m)
    ensures !enabled ==> reply.rcode != 5
  {
    forall i: nat, m
      ensures Usable(enabled, table, net, i) && ResultOf(net, i).response == Some(m) <==>
              Answered(net, i, m) && Passes(enabled, table, m)
    {
      UsableIff(enabled, table, net, i, m);
    }
    if i: nat :| i < upstreams && Usable(enabled, table, net, i) {
      var first := LeastUsable(enabled, table, net, i);
      var m := ResultOf(net, first).response.value;
      assert Answered(net, first, m) && Passes(enabled, table, m);
    }
    forall i: nat, m |
      && i < upstreams && Answered(net, i, m) && Passes(enabled, table, m)
      && (forall j: nat, n :: j < i && Answered(net, j, n) ==> !Passes(enabled, table, n))
      ensures FirstUsable(enabled, table, net, i) && ResultOf(net, i).response == Some(m)
    {
      forall j: nat | j < i
        ensures !Usable(enabled, table, net, j)
      {
        UsableAnswer(enabled, table, net, j);
      }
    }
  }

  lemma LeastUsable(enabled: bool, table: set<string>, net: Network, i: nat) returns (first: nat)
    requires Usable(enabled, table, net, i)
    ensures first <= i && FirstUsable(enabled, table, net, first)
  {
    first := 0;
    while !Usable(enabled, table, net, first)
      invariant first <= i && forall j: nat :: j < first ==> !Usable(enabled, table, net, j)
      decreases i - first
    {
      first := first + 1;
    }
  }

  /** TCP is asked only where UDP failed: the reply does not depend on any other TCP answer. */
  lemma TcpOnlyAfterFailure(reply: Message, query: Message, enabled: bool, table: set<string>, upstreams: nat,
                            net: Network, net': Network)
    requires forall i: nat :: i < upstreams ==> net.udp(i) == net'.udp(i) && (net.udp(i).Failed? ==> net.tcp(i) == net'.tcp(i))
    ensures IsReply(reply, query, enabled, table, upstreams, net) <==> IsReply(reply, query, enabled, table, upstreams, net')
  {
    forall i: nat | i < upstreams
      ensures ResultOf(net, i) == ResultOf(net', i)
      ensures Usable(enabled, table, net, i) <==> Usable(enabled, table, net', i)
      ensures FirstUsable(enabled, table, net, i) <==> FirstUsable(enabled, table, net', i)
    {
      assert forall j: nat :: j <= i ==> ResultOf(net, j) == ResultOf(net', j);
      assert forall j: nat :: j <= i ==> (Usable(enabled, table, net, j) <==> Usable(enabled, table, net', j));
    }
  }

  lemma NormalizeTwice(t: string)
    requires AtMostOneTrailingDot(t)
    ensures Normalize(Normalize(t)) == Normalize(t)
  {
    NormalizeIsNormal(t);
    NormalFormFacts(Normalize(t));
  }

  /** The pass over CNAME chains never changes the verdict on a response whose targets carry
      at most one trailing dot. */
  lemma ChainPassIsRedundant(enabled: bool, table: set<string>, response: Message)
    requires forall t :: IsTarget(response.answer + response.extra, t) ==> AtMostOneTrailingDot(t)
    ensures TargetsAllowed(enabled, table, response) <==>
            forall t :: IsTarget(response.answer + response.extra, t) ==> Allowed(enabled, table, t)
  {
    forall t | IsTarget(response.answer + response.extra, t)
      ensures Normalize(Normalize(t)) == Normalize(t)
    {
      NormalizeTwice(t);
    }
  }

  // What the pass looks at when a target has two or more trailing dots: the name is
  // normalised twice, so that two of the dots are gone.

  lemma SuffixesOfDotted(x: string, d: string)
    ensures LabelSuffix(x + ".", d) <==> d == "" || exists b :: d == b + "." && LabelSuffix(x, b)
  {
    if d == "" {
      assert "." + "" == ".";
      TrimAppended(x, ".");
    }
    if d != "" && LabelSuffix(x + ".", d) {
      EndOfLabelSuffix(x + ".", d);
      var b := d[..|d| - 1];
      assert d == b + ".";
      DropLastDot(x, b);
    }
    if b :| d == b + "." && LabelSuffix(x, b) {
      AddLastDot(x, b);
    }
  }

  lemma EndOfLabelSuffix(name: string, d: string)
    requires LabelSuffix(name, d) && d != ""
    ensures name != "" && name[|name| - 1] == d[|d| - 1]
  {
    if name != d {
      SuffixIff(name, "." + d);
      var a :| name == a + ("." + d);
    }
  }

  lemma DropLastDot(x: string, b: string)
    requires LabelSuffix(x + ".", b + ".")
    ensures LabelSuffix(x, b)
  {
    if x + "." == b + "." {
      TrimAppended(x, ".");
      TrimAppended(b, ".");
    } else {
      SuffixIff(x + ".", "." + (b + "."));
      var a :| x + "." == a + ("." + (b + "."));
      assert x + "." == (a + ("." + b)) + ".";
      TrimAppended(x, ".");
      TrimAppended(a + ("." + b), ".");
      TrimAppended(a, "." + b);
    }
  }

  lemma AddLastDot(x: string, b: string)
    requires LabelSuffix(x, b)
    ensures LabelSuffix(x + ".", b + ".")
  {
    if x != b {
      SuffixIff(x, "." + b);
      var a :| x == a + ("." + b);
      assert x + "." == a + ("." + (b + "."));
      TrimAppended(a, "." + (b + "."));
    }
  }

  /** A target with two or more trailing dots, normalised once and twice. */
  lemma DoubleDotTarget(t: string)
    requires HasSuffix(t, "..")
    ensures var x := Normalize(Normalize(t));
            && Normalize(t) == x + "."
            && |x| == |t| - 2
            && (HasSuffix(x, ".") <==> HasSuffix(t, "..."))
  {
    var w := t[..|t| - 2];
    SuffixIff(t, "..");
    assert t == w + ".." == (w + ".") + ".";
    NormalizeDotted(w + ".");
    ToLowerDotted(w);
    NormalizeDotted(ToLower(w));
    ToLowerTwice(w);
    ToLowerDots(w);
    assert "..." == "." + "..";
    ThirdDot(w);
  }

  lemma NormalizeDotted(w: string)
    ensures Normalize(w + ".") == ToLower(w)
  {
    TrimDot(w);
  }

  lemma ToLowerDotted(w: string)
    ensures ToLower(w + ".") == ToLower(w) + "."
  {
  }

  lemma ThirdDot(w: string)
    ensures HasSuffix(w + "..", "...") <==> HasSuffix(w, ".")
  {
    var t := w + "..";
    EndsWithDot(w);
    if |t| >= 3 {
      assert t[|t| - 3..] == [w[|w| - 1], '.', '.'];
    }
  }

  /** The targets that the whitelist admits as written and the chain pass rejects: they end in
      two dots or more; without two of these no label suffix is listed; with one of them, the
      empty name is, or a host with three trailing dots lies at or above. */
  ghost predicate LostToChainPass(hosts: set<string>, t: string) {
    var x := Normalize(Normalize(t));
    && HasSuffix(t, "..")
    && !Matches(Table(hosts), x)
    && (Listed(Table(hosts), "") || exists b :: LabelSuffix(x, b) && b + ".." in Normalized(hosts))
  }

  /** For all hosts and targets, those are exactly the ones on which the pass changes the
      verdict. */
  lemma ChainPassRejectsIff(hosts: set<string>, t: string)
    ensures Allowed(true, Table(hosts), t) && !Allowed(true, Table(hosts), Normalize(t)) <==> LostToChainPass(hosts, t)
  {
    if HasSuffix(t, "..") {
      DoubleDotTarget(t);
      var x := Normalize(Normalize(t));
      if !Matches(Table(hosts), x) {
        DottedMatches(hosts, x);
      }
    } else {
      NormalizeTwice(t);
    }
  }

  lemma DottedMatches(hosts: set<string>, x: string)
    requires !Matches(Table(hosts), x)
    ensures Matches(Table(hosts), x + ".") <==>
            Listed(Table(hosts), "") || exists b :: LabelSuffix(x, b) && b + ".." in Normalized(hosts)
  {
    var table := Table(hosts);
    forall b | LabelSuffix(x, b)
      ensures Listed(table, b + ".") <==> b + ".." in Normalized(hosts)
    {
      assert b + "." + "." == b + "..";
      assert !Listed(table, b);
      if b + ".." in table && b + ".." !in Normalized(hosts) {
        var n :| n in Normalized(hosts) && n + "." == b + "..";
        TrimAppended(n, ".");
        TrimAppended(b + ".", ".");
      }
    }
    if d :| LabelSuffix(x + ".", d) && Listed(table, d) {
      SuffixesOfDotted(x, d);
    }
    if Listed(table, "") {
      SuffixesOfDotted(x, "");
    }
    if b :| LabelSuffix(x, b) && b + ".." in Normalized(hosts) {
      SuffixesOfDotted(x, b + ".");
    }
  }

  /** When all hosts are written with at most one trailing dot, it takes the empty host: the
      pass then rejects the allowed targets that end in exactly two dots and have no other
      host at or above them. */
  lemma EmptyHostChainPassIff(hosts: set<string>, t: string)
    requires forall h :: h in hosts ==> AtMostOneTrailingDot(h)
    ensures Allowed(true, Table(hosts), t) && !Allowed(true, Table(hosts), Normalize(t)) <==>
            && "" in Normalized(hosts)
            && HasSuffix(t, "..") && !HasSuffix(t, "...") && t != ".."
            && !exists h :: h in hosts && Normalize(h) != "" && LabelSuffix(Normalize(Normalize(t)), Normalize(h))
  {
    ChainPassRejectsIff(hosts, t);
    NormalizedHosts(hosts);
    NoDoubleDottedName(Normalized(hosts));
    ListedIff(Normalized(hosts), "");
    if HasSuffix(t, "..") && "" in Normalized(hosts) {
      DoubleDotTarget(t);
      UnderEmptyHost(hosts, Normalize(Normalize(t)));
    }
  }

  /** Without the empty host it rejects no allowed target. */
  lemma ChainPassAcceptsAllowed(hosts: set<string>, t: string)
    requires forall h :: h in hosts ==> AtMostOneTrailingDot(h) && Normalize(h) != ""
    requires Allowed(true, Table(hosts), t)
    ensures Allowed(true, Table(hosts), Normalize(t))
  {
    EmptyHostChainPassIff(hosts, t);
  }

  /** A target that is lost: "b.." under the empty host. */
  lemma ChainPassRejectsDoubleDot()
    ensures Allowed(true, Table({""}), "b..") && !Allowed(true, Table({""}), Normalize("b.."))
  {
    EndsWithTwoDots("");
    TrimDot("");
    assert Normalize("") == "" && "" in Normalized({""});
    SuffixIff("b..", "..");
    assert "b.." == "b" + "..";
    TrimAppended("b", "..");
    ThirdDot("b");
    EndsWithDot("b");
    EmptyHostChainPassIff({""}, "b..");
  }

  lemma NoDoubleDottedName(names: set<string>)
    requires NormalForms(names)
    ensures forall b: string :: b + ".." !in names
  {
    forall b: string
      ensures b + ".." !in names
    {
      EndsWithDot(b + "..");
    }
  }

  lemma UnderEmptyHost(hosts: set<string>, x: string)
    requires NormalForms(Normalized(hosts)) && "" in Normalized(hosts)
    ensures Matches(Table(hosts), x) <==>
            || x == "" || HasSuffix(x, ".")
            || exists h :: h in hosts && Normalize(h) != "" && LabelSuffix(x, Normalize(h))
  {
    assert "." + "" == ".";
    assert Listed(Table(hosts), "");
    if x == "" || HasSuffix(x, ".") {
      assert LabelSuffix(x, "");
    } else {
      forall d | LabelSuffix(x, d)
        ensures Listed(Table(hosts), d) <==> d in Normalized(hosts)
      {
        LabelSuffixEnd(x, d);
        ListedIff(Normalized(hosts), d);
      }
    }
    if h :| h in hosts && Normalize(h) != "" && LabelSuffix(x, Normalize(h)) {
      assert Normalize(h) in Normalized(hosts);
      assert Listed(Table(hosts), Normalize(h));
    }
  }

  /** So the verdict on a whole response is changed exactly when all its targets are allowed as
      written and one of them is such a target. */
  lemma ChainPassVerdictIff(hosts: set<string>, response: Message)
    ensures var written := forall t :: IsTarget(response.answer + response.extra, t) ==> Allowed(true, Table(hosts), t);
            written && !TargetsAllowed(true, Table(hosts), response) <==>
            written && exists t :: IsTarget(response.answer + response.extra, t) && LostToChainPass(hosts, t)
  {
    forall t
      ensures Allowed(true, Table(hosts), t) && !Allowed(true, Table(hosts), Normalize(t)) <==> LostToChainPass(hosts, t)
    {
      ChainPassRejectsIff(hosts, t);
    }
  }
}
