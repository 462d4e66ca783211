/** The one host rule every script repeats: a hostname belongs to a listed
    domain when it is that domain or a subdomain of it. */
module Hosts {
  import opened Text

  /** `hostname === entry || hostname.endsWith('.' + entry)`: the entry itself
      matches, and every match ends with the entry. */
  predicate MatchesHost(hostname: string, entry: string): (r: bool)
    ensures hostname == entry ==> r
    ensures r ==> EndsWith(hostname, entry)
  {
    var dotted := "." + entry;
    assert EndsWith(hostname, dotted) ==> hostname[|hostname| - |entry|..] == dotted[1..];
    hostname == entry || EndsWith(hostname, dotted)
  }

  /** `entries.some(h => MatchesHost(hostname, h))`: an empty list matches
      nothing, and a listed hostname matches. */
  predicate MatchesAny(hostname: string, entries: seq<string>): (r: bool)
    ensures entries == [] ==> !r
    ensures hostname in entries ==> r
  {
    exists i :: 0 <= i < |entries| && MatchesHost(hostname, entries[i])
  }

  /** The rule, stated without suffix arithmetic: the hostname is the entry, or
      some labels followed by a dot and then the entry. */
  lemma MatchesHostIff(hostname: string, entry: string)
    ensures MatchesHost(hostname, entry) <==>
            hostname == entry || exists labels :: hostname == labels + "." + entry
  {
    var dotted := "." + entry;
    if EndsWith(hostname, dotted) {
      var labels := hostname[..|hostname| - |dotted|];
      assert hostname == labels + dotted;
      assert hostname == labels + "." + entry;
    }
    forall labels | hostname == labels + "." + entry
      ensures EndsWith(hostname, dotted)
    {
      assert labels + "." + entry == labels + dotted;
      assert hostname[|hostname| - |dotted|..] == dotted;
    }
  }

  /** A subdomain of a matching hostname matches too. */
  lemma SubdomainMatches(hostname: string, entry: string, sub: string)
    requires MatchesHost(hostname, entry)
    ensures MatchesHost(sub + "." + hostname, entry)
  {
    MatchesHostIff(hostname, entry);
    if hostname == entry {
      MatchesHostIff(sub + "." + hostname, entry);
    } else {
      var labels :| hostname == labels + "." + entry;
      assert sub + "." + hostname == (sub + "." + labels) + "." + entry;
      MatchesHostIff(sub + "." + hostname, entry);
    }
  }

  /** Suffix matching is label-aligned: a hostname that merely ends with the
      entry's text does not match it. */
  lemma NotALabelSuffix()
    ensures !MatchesHost("xbrightspace.com", "brightspace.com")
    ensures MatchesHost("school.brightspace.com", "brightspace.com")
  {
    var h := "xbrightspace.com";
    assert h[|h| - |".brightspace.com"|..][0] == 'x';
    var g := "school.brightspace.com";
    assert g[|g| - |".brightspace.com"|..] == ".brightspace.com";
  }
}
