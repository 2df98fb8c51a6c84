/** The DNS whitelist: its table of hosts, the lookup through label suffixes, and the
    management operations of the API. */
module Whitelist {
  import opened Strings
  import opened Types

  /** One trailing dot removed, then lower-cased. */
  function Normalize(host: string): string {
    ToLower(TrimSuffix(host, "."))
  }

  function Normalized(hosts: set<string>): set<string> {
    set h | h in hosts :: Normalize(h)
  }

  /** Every name, bare and with a final dot. */
  function BareAndDotted(names: set<string>): set<string> {
    names + (set n | n in names :: n + ".")
  }

  /** The host table built from a set of hosts. */
  function Table(hosts: set<string>): set<string> {
    BareAndDotted(Normalized(hosts))
  }

  /** The hosts that GetWhitelist reports for a table. */
  function Listing(table: set<string>): set<string> {
    set h | h in table :: TrimSuffix(h, ".")
  }

  lemma TableWithOneMore(hosts: seq<string>, i: nat)
    requires i < |hosts|
    ensures var n := Normalize(hosts[i]);
            Table(Elements(hosts[..i + 1])) == Table(Elements(hosts[..i])) + {n} + {n + "."}
  {
    var before, n := Elements(hosts[..i]), Normalize(hosts[i]);
    assert Elements(hosts[..i + 1]) == before + {hosts[i]};
    assert Normalized(before + {hosts[i]}) == Normalized(before) + {n};
  }

  lemma ListingOfOneMore(table: set<string>, todo: set<string>, host: string)
    requires host in table && host !in todo
    ensures Listing(table - todo) == Listing(table - (todo + {host})) + {TrimSuffix(host, ".")}
  {
    assert table - todo == (table - (todo + {host})) + {host};
  }

  predicate Listed(table: set<string>, domain: string) {
    domain in table || domain + "." in table
  }

  /** The normalised name or one of its label suffixes is listed. */
  ghost predicate Matches(table: set<string>, name: string) {
    exists d :: LabelSuffix(name, d) && Listed(table, d)
  }

  ghost predicate Allowed(enabled: bool, table: set<string>, query: string) {
    enabled ==> Matches(table, Normalize(query))
  }

  ghost predicate NoDuplicates(s: seq<string>) {
    forall i, j :: 0 <= i < j < |s| ==> s[i] != s[j]
  }

  /** The whitelist of a DNS server; `hosts` is the Go map whose values are all true. */
  class DnsWhitelist {
    var enabled: bool
    var hosts: set<string>

    constructor ()
      ensures !enabled && hosts == {}
    {
      enabled, hosts := false, {};
    }

    method SetWhitelist(enabled: bool, hosts: seq<string>)
      modifies this
      ensures this.enabled == enabled && this.hosts == Table(Elements(hosts))
    {
      this.enabled := enabled;
      this.hosts := {};
      for i := 0 to |hosts|
        invariant this.enabled == enabled
        invariant this.hosts == Table(Elements(hosts[..i]))
      {
        var normalized := Normalize(hosts[i]);
        TableWithOneMore(hosts, i);
        this.hosts := this.hosts + {normalized} + {normalized + "."};
      }
      assert hosts[..|hosts|] == hosts;
    }

    /** Lists every host once, in whatever order the map is iterated. */
    method GetWhitelist() returns (enabled: bool, hosts: seq<string>)
      ensures enabled == this.enabled
      ensures NoDuplicates(hosts) && Elements(hosts) == Listing(this.hosts)
    {
      hosts := [];
      var seen: set<string> := {};
      var todo := this.hosts;
      while todo != {}
        invariant todo <= this.hosts
        invariant seen == Elements(hosts) == Listing(this.hosts - todo)
        invariant NoDuplicates(hosts)
        decreases todo
      {
        var host :| host in todo;
        ghost var before := todo;
        todo := todo - {host};
        var normalized := TrimSuffix(host, ".");
        assert before == todo + {host};
        ListingOfOneMore(this.hosts, todo, host);
        ElementsOfOneMore(hosts, normalized);
        if normalized !in seen {
          hosts := hosts + [normalized];
          seen := seen + {normalized};
        }
      }
      assert this.hosts - {} == this.hosts;
      return this.enabled, hosts;
    }

    method IsHostAllowed(query: string) returns (allowed: bool)
      ensures allowed <==> Allowed(enabled, hosts, query)
    {
      if !enabled {
        return true;
      }
      var normalized := Normalize(query);
      if normalized in hosts || normalized + "." in hosts {
        assert LabelSuffix(normalized, normalized) && Listed(hosts, normalized);
        return true;
      }
      var parts := Split(normalized);
      for i := 0 to |parts|
        invariant forall j :: 0 <= j < i ==> !Listed(hosts, Join(parts[j..]))
      {
        var domain := Join(parts[i..]);
        if domain in hosts || domain + "." in hosts {
          TrailingPartIsLabelSuffix(normalized, i);
          assert Listed(hosts, domain);
          return true;
        }
      }
      forall d | LabelSuffix(normalized, d)
        ensures !Listed(hosts, d)
      {
        TrailingPartsAreLabelSuffixes(normalized, d);
      }
      return false;
    }
  }

  // ------------------------------------------------------- the lookup's rule

  predicate AtMostOneTrailingDot(host: string) {
    !HasSuffix(host, "..")
  }

  /** Lower-cased and without a final dot. */
  predicate NormalForm(n: string) {
    ToLower(n) == n && !HasSuffix(n, ".")
  }

  lemma NormalFormFacts(n: string)
    requires NormalForm(n)
    ensures Normalize(n) == n && TrimSuffix(n, ".") == n && TrimSuffix(n + ".", ".") == n
    ensures !HasSuffix(n, "..") && !HasSuffix(n + ".", "..")
  {
    EndsWithDot(n);
    TrimDot(n);
    EndsWithTwoDots(n);
    EndsWithTwoDots(n + ".");
  }

  lemma NormalizeIsNormal(host: string)
    ensures NormalForm(Normalize(host)) <==> AtMostOneTrailingDot(host)
  {
    var trimmed := TrimSuffix(host, ".");
    TrimDot(host);
    EndsWithTwoDots(host);
    EndsWithDot(trimmed);
    ToLowerDots(trimmed);
    ToLowerTwice(trimmed);
  }

  lemma DottedIsNot(a: string, b: string)
    requires NormalForm(b)
    ensures a + "." != b
    ensures forall c: string :: a + "." == c + "." ==> a == c
  {
    EndsWithDot(a + ".");
    forall c: string | a + "." == c + "."
      ensures a == c
    {
      TrimAppended(a, ".");
      TrimAppended(c, ".");
    }
  }

  /** A name that does not end in a dot is listed exactly when it is one of the names, bare or
      dotted. */
  lemma ListedNames(names: set<string>, domain: string)
    requires !HasSuffix(domain, ".")
    ensures Listed(BareAndDotted(names), domain) <==> domain in names || domain + "." in names
  {
    forall n | n in names
      ensures n + "." != domain
    {
      TrimAppended(n, ".");
    }
    if domain + "." in BareAndDotted(names) && domain + "." !in names {
      var n :| n in names && n + "." == domain + ".";
      TrimAppended(n, ".");
      TrimAppended(domain, ".");
    }
  }

  /** Among names in normal form, exactly when it is one of them. */
  lemma ListedIff(names: set<string>, domain: string)
    requires !HasSuffix(domain, ".")
    requires forall n :: n in names ==> NormalForm(n)
    ensures Listed(BareAndDotted(names), domain) <==> domain in names
  {
    EndsWithDot(domain);
    if domain + "." in BareAndDotted(names) {
      if domain + "." in names {
        EndsWithDot(domain + ".");
      } else {
        var n :| n in names && n + "." == domain + ".";
        TrimAppended(n, ".");
        TrimAppended(domain, ".");
      }
    }
  }

  /** A name that does not end in a dot has no label suffix that ends in one. */
  lemma LabelSuffixEnd(name: string, d: string)
    requires LabelSuffix(name, d) && !HasSuffix(name, ".")
    ensures !HasSuffix(d, ".")
  {
    if name != d {
      SuffixIff(name, "." + d);
      var a :| name == a + ("." + d);
      assert name == (a + ".") + d;
      EndsWithDot(d);
      EndsWithDot(name);
    }
  }

  /** The documented rule: the name is one of the hosts or lies below one. */
  ghost predicate Rule(hosts: set<string>, name: string) {
    exists h :: h in hosts && LabelSuffix(name, Normalize(h))
  }

  /** The lookup decides the rule for every query with at most one trailing dot. */
  ghost predicate DecidesRule(hosts: set<string>) {
    forall query :: AtMostOneTrailingDot(query) ==>
      (Allowed(true, Table(hosts), query) <==> Rule(hosts, Normalize(query)))
  }

  /** Each host that keeps a dot after normalisation, as one with two trailing dots does, has
      a host at or above what is in front of that dot. */
  ghost predicate DottedHostsCovered(hosts: set<string>) {
    forall h, d :: h in hosts && Normalize(h) == d + "." && !HasSuffix(d, ".") ==> Rule(hosts, d)
  }

  /** The lookup decides the rule exactly for the host lists whose dotted hosts are covered. */
  lemma LookupIsRuleIff(hosts: set<string>)
    ensures DecidesRule(hosts) <==> DottedHostsCovered(hosts)
  {
    if DottedHostsCovered(hosts) {
      forall query | AtMostOneTrailingDot(query)
        ensures Allowed(true, Table(hosts), query) <==> Rule(hosts, Normalize(query))
      {
        CoveredLookup(hosts, query);
      }
    }
    if DecidesRule(hosts) {
      forall h, d | h in hosts && Normalize(h) == d + "." && !HasSuffix(d, ".")
        ensures Rule(hosts, d)
      {
        FrontOfDottedHost(h, d);
        assert d + "." in Normalized(hosts);
        assert LabelSuffix(d, d) && Listed(Table(hosts), d);
        assert AtMostOneTrailingDot(d) && Allowed(true, Table(hosts), d);
      }
    }
  }

  lemma FrontOfDottedHost(h: string, d: string)
    requires Normalize(h) == d + "." && !HasSuffix(d, ".")
    ensures AtMostOneTrailingDot(d) && Normalize(d) == d
  {
    EndsWithDot(d);
    EndsWithTwoDots(d);
    TrimDot(d);
    ToLowerTwice(TrimSuffix(h, "."));
    NormalizeLower(d + ".");
  }

  /** Of a lower-case name only a final dot is taken. */
  lemma NormalizeLower(name: string)
    requires ToLower(name) == name
    ensures Normalize(name) == TrimSuffix(name, ".")
  {
    var t := TrimSuffix(name, ".");
    forall i | 0 <= i < |t|
      ensures LowerChar(t[i]) == t[i]
    {
      assert ToLower(name)[i] == LowerChar(name[i]);
    }
    assert ToLower(t) == t;
  }

  lemma CoveredLookup(hosts: set<string>, query: string)
    requires DottedHostsCovered(hosts) && AtMostOneTrailingDot(query)
    ensures Allowed(true, Table(hosts), query) <==> Rule(hosts, Normalize(query))
  {
    var name := Normalize(query);
    NormalizeIsNormal(query);
    if h :| h in hosts && LabelSuffix(name, Normalize(h)) {
      assert Normalize(h) in Normalized(hosts);
      assert Listed(Table(hosts), Normalize(h));
    }
    if d :| LabelSuffix(name, d) && Listed(Table(hosts), d) {
      LabelSuffixEnd(name, d);
      ListedNames(Normalized(hosts), d);
      if d + "." in Normalized(hosts) {
        var h :| h in hosts && Normalize(h) == d + ".";
        assert Rule(hosts, d);
        var above :| above in hosts && LabelSuffix(d, Normalize(above));
        LabelSuffixTransitive(name, d, Normalize(above));
      }
    }
  }

  /** With all hosts written with at most one trailing dot the lookup decides the rule. */
  lemma LookupIsRule(hosts: set<string>, query: string)
    requires forall h :: h in hosts ==> AtMostOneTrailingDot(h)
    requires AtMostOneTrailingDot(query)
    ensures Allowed(true, Table(hosts), query) <==> Rule(hosts, Normalize(query))
  {
    forall h | h in hosts
      ensures !HasSuffix(Normalize(h), ".")
    {
      NormalizeIsNormal(h);
    }
    forall d: string
      ensures HasSuffix(d + ".", ".")
    {
      TrimAppended(d, ".");
    }
    LookupIsRuleIff(hosts);
  }

  /** The rule in terms of the names as they are written, with at most one trailing dot: without
      that dot, and with upper and lower case taken as the same, the query is a host or ends in
      a dot and a host. */
  lemma LookupInPlainTerms(hosts: set<string>, query: string)
    requires forall h :: h in hosts ==> AtMostOneTrailingDot(h)
    requires AtMostOneTrailingDot(query)
    ensures var q := TrimSuffix(query, ".");
            Allowed(true, Table(hosts), query) <==>
            exists h :: h in hosts && (|| SameIgnoringCase(q, TrimSuffix(h, "."))
                                       || exists front :: SameIgnoringCase(q, front + "." + TrimSuffix(h, ".")))
  {
    LookupIsRule(hosts, query);
    forall h | h in hosts
      ensures LabelSuffix(Normalize(query), Normalize(h)) <==>
              || SameIgnoringCase(TrimSuffix(query, "."), TrimSuffix(h, "."))
              || exists front :: SameIgnoringCase(TrimSuffix(query, "."), front + "." + TrimSuffix(h, "."))
    {
      LabelSuffixIgnoringCase(TrimSuffix(query, "."), TrimSuffix(h, "."));
    }
  }

  lemma LabelSuffixIgnoringCase(q: string, h: string)
    ensures LabelSuffix(ToLower(q), ToLower(h)) <==>
            SameIgnoringCase(q, h) || exists front :: SameIgnoringCase(q, front + "." + h)
  {
    ToLowerIff(q, h);
    if HasSuffix(ToLower(q), "." + ToLower(h)) {
      FrontOfLowerSuffix(q, h);
    }
    if front :| SameIgnoringCase(q, front + "." + h) {
      ToLowerIff(q, front + "." + h);
      ToLowerBelow(front, h);
      BelowIsLabelSuffix(ToLower(front), ToLower(h));
    }
  }

  lemma FrontOfLowerSuffix(q: string, h: string)
    requires HasSuffix(ToLower(q), "." + ToLower(h))
    ensures exists front :: SameIgnoringCase(q, front + "." + h)
  {
    LetterByLetter(q, h, ToLower(q), ToLower(h));
  }

  lemma LetterByLetter(q: string, h: string, lowerQ: string, lowerH: string)
    requires |lowerQ| == |q| && forall i :: 0 <= i < |q| ==> lowerQ[i] == LowerChar(q[i])
    requires |lowerH| == |h| && forall i :: 0 <= i < |h| ==> lowerH[i] == LowerChar(h[i])
    requires HasSuffix(lowerQ, "." + lowerH)
    ensures |q| > |h| && SameIgnoringCase(q, q[..|q| - |h| - 1] + "." + h)
  {
    var k := |q| - |h| - 1;
    var t := q[..k] + "." + h;
    assert lowerQ[k..] == "." + lowerH;
    assert lowerQ[k] == '.';
    forall i | 0 <= i < |q|
      ensures SameLetter(q[i], t[i])
    {
      if i > k {
        assert lowerQ[k..][i - k] == lowerQ[i] && ("." + lowerH)[i - k] == lowerH[i - k - 1];
        LowerCharIff(q[i], h[i - k - 1]);
      }
    }
  }

  /** Upper and lower case, and one final dot, make no difference: neither in a query nor in a
      host, whatever the table. */
  lemma SpellingDoesNotMatter(enabled: bool, table: set<string>, hosts: set<string>, name: string, name': string)
    requires !HasSuffix(name, ".") && SameIgnoringCase(name, name')
    ensures Allowed(enabled, table, name) <==> Allowed(enabled, table, name')
    ensures Allowed(enabled, table, name) <==> Allowed(enabled, table, name' + ".")
    ensures Table(hosts + {name}) == Table(hosts + {name'}) == Table(hosts + {name' + "."})
  {
    EndsWithDot(name);
    EndsWithDot(name');
    TrimDot(name);
    TrimDot(name');
    ToLowerIff(name, name');
    assert Normalize(name) == Normalize(name') == Normalize(name' + ".");
    NormalizedUnion(hosts, name);
    NormalizedUnion(hosts, name');
    NormalizedUnion(hosts, name' + ".");
  }

  /** Without cover the rule fails: a host written with two trailing dots admits the bare
      host, which the rule does not. */
  lemma RuleFailsForDoubleDots()
    ensures Allowed(true, Table({"a.."}), "a") && !Rule({"a.."}, Normalize("a"))
    ensures !DecidesRule({"a.."})
  {
    TrimDot("a..");
    TrimDot("a");
    assert Normalize("a..") == "a." && Normalize("a") == "a";
    assert "a." in Normalized({"a.."}) && "a" + "." == "a.";
    assert LabelSuffix("a", "a") && Listed(Table({"a.."}), "a");
    EndsWithTwoDots("a");
    assert AtMostOneTrailingDot("a");
  }

  /** Everything below an allowed name is allowed, whatever the table holds. */
  lemma SubdomainsAreAllowed(enabled: bool, table: set<string>, sub: string, query: string)
    requires query != ""
    requires Allowed(enabled, table, query)
    ensures Allowed(enabled, table, sub + "." + query)
  {
    if enabled {
      NormalizeBelow(sub, query);
      BelowIsLabelSuffix(ToLower(sub), Normalize(query));
      MatchesBelow(table, Normalize(sub + "." + query), Normalize(query));
    }
  }

  lemma MatchesBelow(table: set<string>, below: string, name: string)
    requires LabelSuffix(below, name) && Matches(table, name)
    ensures Matches(table, below)
  {
    var d :| LabelSuffix(name, d) && Listed(table, d);
    LabelSuffixTransitive(below, name, d);
  }

  lemma NormalizeBelow(sub: string, query: string)
    requires query != ""
    ensures Normalize(sub + "." + query) == ToLower(sub) + "." + Normalize(query)
  {
    var rest := TrimSuffix(query, ".");
    TrimDotOfAppended(sub + ".", query);
    ToLowerBelow(sub, rest);
    assert sub + "." + query == (sub + ".") + query && sub + "." + rest == (sub + ".") + rest;
  }

  lemma MoreHostsAllowMore(enabled: bool, hosts: set<string>, more: set<string>, query: string)
    requires hosts <= more
    requires Allowed(enabled, Table(hosts), query)
    ensures Allowed(enabled, Table(more), query)
  {
    if enabled {
      var d :| LabelSuffix(Normalize(query), d) && Listed(Table(hosts), d);
      assert Normalized(hosts) <= Normalized(more);
      assert Listed(Table(more), d);
    }
  }

  // -------------------------------------------------- management operations

  datatype Operation = Set(hosts: seq<string>) | Add(host: string) | Remove(host: string)

  /** The table after one successful management call. */
  function Manage(table: set<string>, op: Operation): set<string> {
    match op
    case Set(hosts) => Table(Elements(hosts))
    case Add(host) => Table(Listing(table) + {host})
    case Remove(host) => Table(Listing(table) - {host})
  }

  /** AddDNSWhitelistHost: the HTTP status it answers with. None is a body that cannot be
      parsed. */
  method AddDNSWhitelistHost(dns: DnsWhitelist?, body: Option<string>) returns (status: nat)
    modifies dns
    ensures status == if dns == null then 500 else if body.None? || body.value == "" then 400 else 200
    ensures dns != null ==> dns.enabled == old(dns.enabled)
    ensures dns != null ==>
              dns.hosts == if body.None? || body.value == "" then old(dns.hosts) else Manage(old(dns.hosts), Add(body.value))
  {
    if dns == null {
      return 500;
    }
    if body.None? {
      return 400;
    }
    var host := body.value;
    if host == "" {
      return 400;
    }
    var enabled, hosts := dns.GetWhitelist();
    var found := false;
    for i := 0 to |hosts|
      invariant !found && host !in hosts[..i]
    {
      if hosts[i] == host {
        found := true;
        break;
      }
    }
    if !found {
      assert Elements(hosts + [host]) == Elements(hosts) + {host};
      hosts := hosts + [host];
    } else {
      assert Elements(hosts) == Elements(hosts) + {host};
    }
    dns.SetWhitelist(enabled, hosts);
    return 200;
  }

  method RemoveDNSWhitelistHost(dns: DnsWhitelist?, host: string) returns (status: nat)
    modifies dns
    ensures status == if dns == null then 500 else if host == "" then 400 else 200
    ensures dns != null ==> dns.enabled == old(dns.enabled)
    ensures dns != null ==>
              dns.hosts == if host == "" then old(dns.hosts) else Manage(old(dns.hosts), Remove(host))
  {
    if dns == null {
      return 500;
    }
    if host == "" {
      return 400;
    }
    var enabled, hosts := dns.GetWhitelist();
    var newHosts := [];
    for i := 0 to |hosts|
      invariant Elements(newHosts) == Elements(hosts[..i]) - {host}
    {
      assert Elements(hosts[..i + 1]) == Elements(hosts[..i]) + {hosts[i]};
      if hosts[i] != host {
        assert Elements(newHosts + [hosts[i]]) == Elements(newHosts) + {hosts[i]};
        newHosts := newHosts + [hosts[i]];
      }
    }
    assert hosts[..|hosts|] == hosts;
    dns.SetWhitelist(enabled, newHosts);
    return 200;
  }

  // ----------------------------------------------------- management theorems

  ghost predicate NormalForms(names: set<string>) {
    forall n :: n in names ==> NormalForm(n)
  }

  lemma NormalizedHosts(hosts: set<string>)
    ensures NormalForms(Normalized(hosts)) <==> forall h :: h in hosts ==> AtMostOneTrailingDot(h)
  {
    forall h | h in hosts
      ensures NormalForm(Normalize(h)) <==> AtMostOneTrailingDot(h)
    {
      NormalizeIsNormal(h);
    }
    if NormalForms(Normalized(hosts)) {
      assert forall h :: h in hosts ==> Normalize(h) in Normalized(hosts);
    }
  }

  /** The listing of a table of normal forms is those normal forms, once each, so setting what
      was listed changes nothing. */
  lemma RelistNormal(names: set<string>)
    requires NormalForms(names)
    ensures Listing(BareAndDotted(names)) == names
    ensures Normalized(names) == names
    ensures Table(Listing(BareAndDotted(names))) == BareAndDotted(names)
  {
    forall n | n in names
      ensures TrimSuffix(n, ".") == n && TrimSuffix(n + ".", ".") == n && Normalize(n) == n
    {
      NormalFormFacts(n);
    }
    forall n | n in names
      ensures n in Listing(BareAndDotted(names)) && n in Normalized(names)
    {
      assert n in BareAndDotted(names);
      assert n == TrimSuffix(n, ".") == Normalize(n);
    }
  }

  /** GetWhitelist followed by SetWhitelist is the identity on the table of a host list exactly
      when every host is written with at most one trailing dot. */
  lemma ListingRoundTripIff(hosts: set<string>)
    ensures Table(Listing(Table(hosts))) == Table(hosts) <==> forall h :: h in hosts ==> AtMostOneTrailingDot(h)
  {
    var table := Table(hosts);
    NormalizedHosts(hosts);
    if NormalForms(Normalized(hosts)) {
      RelistNormal(Normalized(hosts));
    } else {
      var h :| h in hosts && HasSuffix(h, "..");
      var n := Normalize(h);
      EndsWithTwoDots(h);
      TrimDot(h);
      EndsWithTwoDots(n + ".");
      assert n in Normalized(hosts) && n + "." in table;
      var longest := LongestDoubleDot(table, n + ".");
      RelistLosesLongest(table, longest);
    }
  }

  lemma LongestDoubleDot(table: set<string>, d: string) returns (longest: string)
    requires d in table && HasSuffix(d, "..")
    ensures longest in table && HasSuffix(longest, "..")
    ensures forall x :: x in table && HasSuffix(x, "..") ==> |x| <= |longest|
    decreases table
  {
    if x :| x in table && HasSuffix(x, "..") && |x| > |d| {
      longest := LongestDoubleDot(table - {d}, x);
      forall y | y in table && HasSuffix(y, "..")
        ensures |y| <= |longest|
      {
        assert y == d || y in table - {d};
      }
    } else {
      longest := d;
    }
  }

  lemma RelistShortens(x: string, y: string)
    requires HasSuffix(y, "..")
    requires y == Normalize(TrimSuffix(x, ".")) || y == Normalize(TrimSuffix(x, ".")) + "."
    ensures HasSuffix(x, "..") && |x| > |y|
  {
    var once := TrimSuffix(x, ".");
    TrimDot(x);
    TrimDot(once);
    EndsWithTwoDots(x);
    EndsWithTwoDots(y);
    EndsWithDot(once);
    ToLowerDots(TrimSuffix(once, "."));
    EndsWithDot(TrimSuffix(once, "."));
    EndsWithDot(Normalize(once));
  }

  lemma RelistLosesLongest(table: set<string>, longest: string)
    requires HasSuffix(longest, "..")
    requires forall x :: x in table && HasSuffix(x, "..") ==> |x| <= |longest|
    ensures longest !in Table(Listing(table))
  {
    forall x | x in table
      ensures longest != Normalize(TrimSuffix(x, ".")) && longest != Normalize(TrimSuffix(x, ".")) + "."
    {
      if longest == Normalize(TrimSuffix(x, ".")) || longest == Normalize(TrimSuffix(x, ".")) + "." {
        RelistShortens(x, longest);
      }
    }
  }

  /** Adding a host extends the table by exactly that host in normal form. */
  lemma AddExtendsTable(names: set<string>, host: string)
    requires NormalForms(names)
    ensures Manage(BareAndDotted(names), Add(host)) == BareAndDotted(names + {Normalize(host)})
    ensures BareAndDotted(names + {Normalize(host)}) == BareAndDotted(names) + {Normalize(host), Normalize(host) + "."}
  {
    RelistNormal(names);
    NormalizedUnion(names, host);
  }

  lemma NormalizedUnion(names: set<string>, host: string)
    ensures Normalized(names + {host}) == Normalized(names) + {Normalize(host)}
  {
  }

  /** Removing a host drops exactly that host, and drops nothing when the name given is not
      one of those listed, as when it is not in normal form. */
  lemma RemoveShrinksTable(names: set<string>, host: string)
    requires NormalForms(names)
    ensures Manage(BareAndDotted(names), Remove(host)) == BareAndDotted(names - {host})
    ensures BareAndDotted(names - {host}) ==
            BareAndDotted(names) - if host in names then {host, host + "."} else {}
    ensures Normalize(host) != host ==> host !in names
  {
    RelistNormal(names);
    RelistNormal(names - {host});
    if host in names {
      NormalFormFacts(host);
      forall n | n in names
        ensures n + "." != host && host + "." != n && (n + "." == host + "." ==> n == host)
      {
        DottedIsNot(n, host);
        DottedIsNot(host, n);
      }
    } else {
      assert names - {host} == names;
    }
  }

  /** Names less one trailing dot. */
  function Trimmed(names: set<string>): set<string> {
    set n | n in names :: TrimSuffix(n, ".")
  }

  ghost predicate LowerCase(names: set<string>) {
    forall n :: n in names ==> ToLower(n) == n
  }

  lemma NormalizedIsLower(hosts: set<string>)
    ensures LowerCase(Normalized(hosts))
  {
    forall h | h in hosts
      ensures ToLower(Normalize(h)) == Normalize(h)
    {
      ToLowerTwice(TrimSuffix(h, "."));
    }
  }

  lemma ListingOfAny(names: set<string>)
    ensures Listing(BareAndDotted(names)) == names + Trimmed(names)
  {
    forall n | n in names
      ensures n in Listing(BareAndDotted(names))
    {
      TrimAppended(n, ".");
      assert n + "." in BareAndDotted(names);
    }
    forall x | x in BareAndDotted(names)
      ensures TrimSuffix(x, ".") in names + Trimmed(names)
    {
      if x !in names {
        var n :| n in names && x == n + ".";
        TrimAppended(n, ".");
      }
    }
  }

  lemma NormalizedLower(names: set<string>)
    requires LowerCase(names)
    ensures Normalized(names) == Trimmed(names)
  {
    forall n | n in names
      ensures Normalize(n) == TrimSuffix(n, ".")
    {
      NormalizeLower(n);
    }
  }

  lemma LowerTrimmed(names: set<string>)
    requires LowerCase(names)
    ensures LowerCase(Trimmed(names))
  {
    forall n | n in names
      ensures ToLower(TrimSuffix(n, ".")) == TrimSuffix(n, ".")
    {
      NormalizeLower(n);
      ToLowerTwice(TrimSuffix(n, "."));
    }
  }

  /** What adding does to any table there can be: a name that keeps trailing dots loses one of
      them, and a second copy loses two. */
  lemma AddToAnyTable(names: set<string>, host: string)
    requires LowerCase(names)
    ensures Manage(BareAndDotted(names), Add(host)) ==
            BareAndDotted(Trimmed(names + Trimmed(names)) + {Normalize(host)})
  {
    ListingOfAny(names);
    LowerTrimmed(names);
    NormalizedLower(names + Trimmed(names));
    NormalizedUnion(names + Trimmed(names), host);
  }

  /** The same for removing: of all names so shortened, only the host as it is written goes. */
  lemma RemoveFromAnyTable(names: set<string>, host: string)
    requires LowerCase(names)
    ensures Manage(BareAndDotted(names), Remove(host)) == BareAndDotted(Trimmed((names + Trimmed(names)) - {host}))
  {
    ListingOfAny(names);
    LowerTrimmed(names);
    NormalizedLower((names + Trimmed(names)) - {host});
  }

  /** In a table of normal forms, removing a host right after adding it restores the table
      exactly when the host was given in normal form and new, or in another form with at most
      one trailing dot and already there; with more dots, when it was there without them. */
  lemma RemoveUndoesAddIff(names: set<string>, host: string)
    requires NormalForms(names)
    ensures var table := BareAndDotted(names);
            var added := Manage(table, Add(host));
            Manage(added, Remove(host)) == table <==>
            if AtMostOneTrailingDot(host) then (Normalize(host) == host <==> Normalize(host) !in names)
            else Normalize(Normalize(host)) in names
  {
    AddExtendsTable(names, host);
    if AtMostOneTrailingDot(host) {
      RemoveUndoesCleanAddIff(names, host);
    } else {
      RemoveUndoesDottedAddIff(names, host);
    }
  }

  lemma RemoveUndoesCleanAddIff(names: set<string>, host: string)
    requires NormalForms(names) && AtMostOneTrailingDot(host)
    ensures var table, all := BareAndDotted(names), names + {Normalize(host)};
            Manage(BareAndDotted(all), Remove(host)) == table <==> (Normalize(host) == host <==> Normalize(host) !in names)
  {
    var n := Normalize(host);
    var all := names + {n};
    NormalizeIsNormal(host);
    RemoveShrinksTable(all, host);
    BareAndDottedInjective(all - {host}, names);
    if host != n {
      RemoveShrinksTable(names, host);
      assert all - {host} == all;
    }
  }

  lemma RemoveUndoesDottedAddIff(names: set<string>, host: string)
    requires NormalForms(names) && !AtMostOneTrailingDot(host)
    ensures var table, all := BareAndDotted(names), names + {Normalize(host)};
            Manage(BareAndDotted(all), Remove(host)) == table <==> Normalize(Normalize(host)) in names
  {
    var n := Normalize(host);
    ToLowerTwice(TrimSuffix(host, "."));
    NormalizeLower(n);
    DottedHostTrims(host);
    RemoveFromAnyTable(names + {n}, host);
    RemainderOfDotted(names, n, host);
    ExtendedByTrimsIff(names, TrimSuffix(n, "."));
  }

  lemma ExtendedByTrimsIff(names: set<string>, once: string)
    requires NormalForms(names)
    ensures BareAndDotted(names + {once, TrimSuffix(once, ".")}) == BareAndDotted(names) <==> once in names
  {
    var rest := names + {once, TrimSuffix(once, ".")};
    if once in names {
      NormalFormFacts(once);
      assert rest == names;
    } else if BareAndDotted(rest) == BareAndDotted(names) {
      assert once in rest && once in BareAndDotted(rest) && once + "." in BareAndDotted(rest);
      OnlyCleanKeys(names);
      var m :| m in names && once == m + ".";
      EndsWithTwoDots(once + ".");
      assert false;
    }
  }

  lemma DottedHostTrims(host: string)
    requires HasSuffix(host, "..")
    ensures |TrimSuffix(Normalize(host), ".")| < |Normalize(host)| < |host|
  {
    EndsWithTwoDots(host);
    TrimDot(host);
    TrimDot(Normalize(host));
    ToLowerDots(TrimSuffix(host, "."));
    EndsWithDot(TrimSuffix(host, "."));
  }

  lemma OnlyCleanKeys(names: set<string>)
    requires NormalForms(names)
    ensures forall x :: x in BareAndDotted(names) ==> !HasSuffix(x, "..")
  {
    forall x | x in BareAndDotted(names)
      ensures !HasSuffix(x, "..")
    {
      if x in names {
        NormalFormFacts(x);
      } else {
        var n :| n in names && x == n + ".";
        NormalFormFacts(n);
      }
    }
  }

  lemma RemainderOfDotted(names: set<string>, n: string, host: string)
    requires NormalForms(names) && HasSuffix(host, "..")
    requires |TrimSuffix(n, ".")| < |n| < |host|
    ensures var all := names + {n};
            Trimmed((all + Trimmed(all)) - {host}) == names + {TrimSuffix(n, "."), TrimSuffix(TrimSuffix(n, "."), ".")}
  {
    var all := names + {n};
    var once := TrimSuffix(n, ".");
    forall x | x in names
      ensures TrimSuffix(x, ".") == x && x != host
    {
      NormalFormFacts(x);
    }
    assert Trimmed(all) == names + {once};
    assert (all + Trimmed(all)) - {host} == names + {n, once};
    assert Trimmed(names + {n, once}) == Trimmed(names) + {once, TrimSuffix(once, ".")};
    assert Trimmed(names) == names;
  }

  lemma BareAndDottedInjective(a: set<string>, b: set<string>)
    requires NormalForms(a) && NormalForms(b)
    ensures BareAndDotted(a) == BareAndDotted(b) <==> a == b
  {
    RelistNormal(a);
    RelistNormal(b);
  }

  function ManageAll(table: set<string>, ops: seq<Operation>): set<string> {
    if ops == [] then table else Manage(ManageAll(table, ops[..|ops| - 1]), ops[|ops| - 1])
  }

  predicate CleanInput(op: Operation) {
    match op
    case Set(hosts) => forall h :: h in hosts ==> AtMostOneTrailingDot(h)
    case Add(host) => AtMostOneTrailingDot(host)
    case Remove(host) => true
  }

  lemma TableOfHostsRelistsIff(hosts: set<string>)
    ensures Table(Listing(Table(hosts))) == Table(hosts) <==> forall x :: x in Table(hosts) ==> !HasSuffix(x, "..")
  {
    ListingRoundTripIff(hosts);
    NormalizedHosts(hosts);
    if NormalForms(Normalized(hosts)) {
      OnlyCleanKeys(Normalized(hosts));
    } else {
      var h :| h in hosts && HasSuffix(h, "..");
      DottedHostKey(h);
      assert Normalize(h) in Normalized(hosts) && Normalize(h) + "." in Table(hosts);
    }
  }

  lemma DottedHostKey(h: string)
    requires HasSuffix(h, "..")
    ensures HasSuffix(Normalize(h) + ".", "..")
  {
    NormalizeIsNormal(h);
    ToLowerTwice(TrimSuffix(h, "."));
    EndsWithDot(Normalize(h));
    EndsWithTwoDots(Normalize(h) + ".");
  }

  lemma {:induction false} ReachableIsTable(ops: seq<Operation>)
    ensures exists hosts :: ManageAll({}, ops) == Table(hosts)
  {
    if ops == [] {
      assert Table({}) == {};
    } else {
      var table := ManageAll({}, ops[..|ops| - 1]);
      match ops[|ops| - 1]
      case Set(hosts) => assert ManageAll({}, ops) == Table(Elements(hosts));
      case Add(host) => assert ManageAll({}, ops) == Table(Listing(table) + {host});
      case Remove(host) => assert ManageAll({}, ops) == Table(Listing(table) - {host});
    }
  }

  /** A table that is reached from the empty one by any management calls survives a read and a
      write back exactly when none of its keys ends in two dots. */
  lemma ReachableTablesRelistIff(ops: seq<Operation>)
    ensures var table := ManageAll({}, ops);
            Table(Listing(table)) == table <==> forall x :: x in table ==> !HasSuffix(x, "..")
  {
    ReachableIsTable(ops);
    var hosts :| ManageAll({}, ops) == Table(hosts);
    TableOfHostsRelistsIff(hosts);
  }

  /** Every table that is reached from the empty one by calls whose hosts carry at most one
      trailing dot consists of normal forms, and so survives a read and a write back. */
  lemma {:induction false} ReachableTablesRelist(ops: seq<Operation>)
    requires forall op :: op in ops ==> CleanInput(op)
    ensures exists names :: NormalForms(names) && ManageAll({}, ops) == BareAndDotted(names)
    ensures Table(Listing(ManageAll({}, ops))) == ManageAll({}, ops)
  {
    if ops == [] {
      assert NormalForms({}) && BareAndDotted({}) == {};
      RelistNormal({});
    } else {
      var k := |ops| - 1;
      assert CleanInput(ops[k]);
      ReachableTablesRelist(ops[..k]);
      var names :| NormalForms(names) && ManageAll({}, ops[..k]) == BareAndDotted(names);
      ManageNormal(names, ops[k]);
      var names' :| NormalForms(names') && Manage(BareAndDotted(names), ops[k]) == BareAndDotted(names');
      RelistNormal(names');
    }
  }

  lemma ManageNormal(names: set<string>, op: Operation)
    requires NormalForms(names) && CleanInput(op)
    ensures exists names' :: NormalForms(names') && Manage(BareAndDotted(names), op) == BareAndDotted(names')
  {
    match op
    case Set(hosts) =>
      NormalizedHosts(Elements(hosts));
    case Add(host) =>
      AddExtendsTable(names, host);
      NormalizeIsNormal(host);
      assert NormalForms(names + {Normalize(host)});
    case Remove(host) =>
      RemoveShrinksTable(names, host);
      assert NormalForms(names - {host});
  }
}
