/** The domain filter the provider applies to the zone list it reads: a zone
    is kept when its name matches one of the configured domains, compared
    without case and without a trailing dot. An empty filter entry, or no
    entries at all, matches every zone. */
module Domains {
  import opened Objects
  import Strings

  datatype DomainFilter = DomainFilter(filters: seq<string>)

  /** The domain without one trailing dot. */
  function StripDot(d: string): (r: string)
    ensures Strings.HasSuffix(d, ".") ==> r + "." == d
    ensures !Strings.HasSuffix(d, ".") ==> r == d
  {
    if |d| > 0 && d[|d| - 1] == '.' then
      assert d == d[..|d| - 1] + ".";
      d[..|d| - 1]
    else d
  }

  /** A configured entry as the filter keeps it: white space trimmed, one
      trailing dot dropped, lower-cased. */
  function NormalEntry(f: string): (r: string)
    ensures forall i :: 0 <= i < |r| ==> !Strings.IsAsciiUpper(r[i])
    ensures !Strings.HasSuffix(Strings.TrimSpace(f), ".") ==> |r| == |Strings.TrimSpace(f)|
  {
    Strings.ToLower(StripDot(Strings.TrimSpace(f)))
  }

  /** A domain as the filter compares it: one trailing dot dropped, lower-cased. */
  function NormalDomain(d: string): (r: string)
    ensures forall i :: 0 <= i < |r| ==> !Strings.IsAsciiUpper(r[i])
    ensures !Strings.HasSuffix(d, ".") ==> |r| == |d|
  {
    Strings.ToLower(StripDot(d))
  }

  /** One filter entry accepts a domain when it is empty, when it starts with
      '.' and is a suffix of the domain, when it equals the domain, or when
      the domain ends with '.' followed by it. */
  predicate EntryAccepts(filter: string, domain: string) {
    filter == ""
    || (Strings.HasPrefix(filter, ".") && Strings.HasSuffix(domain, filter))
    || domain == filter
    || Strings.HasSuffix(domain, "." + filter)
  }

  /** The filter keeps a domain when it has no entries or when one of its
      normalised entries accepts the normalised domain. */
  predicate Match(df: DomainFilter, domain: string) {
    |df.filters| == 0 || exists f :: f in df.filters && EntryAccepts(NormalEntry(f), NormalDomain(domain))
  }

  /** The zones that pass the filter, in their original order. */
  function FilteredZones(zones: seq<Zone>, df: DomainFilter): (r: seq<Zone>)
    ensures |r| <= |zones|
    ensures forall z :: z in r <==> z in zones && Match(df, z.fqdn)
  {
    if |zones| == 0 then []
    else
      var rest := FilteredZones(zones[1..], df);
      assert forall z :: z in zones <==> z == zones[0] || z in zones[1..];
      if Match(df, zones[0].fqdn) then [zones[0]] + rest else rest
  }

  /** Filtering works zone by zone: a single zone is kept or dropped on its
      own, and the filtered concatenation is the concatenation of the
      filtered parts, so order and repetitions are preserved. */
  lemma FilteredZonesOne(z: Zone, df: DomainFilter)
    ensures Match(df, z.fqdn) ==> FilteredZones([z], df) == [z]
    ensures !Match(df, z.fqdn) ==> FilteredZones([z], df) == []
  {
    assert [z][1..] == [];
  }

  lemma {:induction false} FilteredZonesAppend(a: seq<Zone>, b: seq<Zone>, df: DomainFilter)
    ensures FilteredZones(a + b, df) == FilteredZones(a, df) + FilteredZones(b, df)
    decreases |a|
  {
    if |a| > 0 {
      FilteredZonesAppend(a[1..], b, df);
      ConsOfAppend(a, b);
      FilteredZonesCons(a + b, df);
      FilteredZonesCons(a, df);
      var p, q, r := FilteredZones([a[0]], df), FilteredZones(a[1..], df), FilteredZones(b, df);
      assert p + (q + r) == (p + q) + r;
    } else {
      assert a + b == b;
    }
  }

  lemma ConsOfAppend<T>(a: seq<T>, b: seq<T>)
    requires |a| > 0
    ensures (a + b)[0] == a[0] && (a + b)[1..] == a[1..] + b
  {
  }

  lemma FilteredZonesCons(zs: seq<Zone>, df: DomainFilter)
    requires |zs| > 0
    ensures FilteredZones(zs, df) == FilteredZones([zs[0]], df) + FilteredZones(zs[1..], df)
  {
    FilteredZonesOne(zs[0], df);
  }

  /** A filter whose entries are all empty keeps every zone, in order. */
  lemma {:induction false} EmptyEntriesKeepAll(zones: seq<Zone>, df: DomainFilter)
    requires forall f :: f in df.filters ==> f == ""
    ensures FilteredZones(zones, df) == zones
    decreases |zones|
  {
    if |zones| > 0 {
      EmptyEntriesKeepAll(zones[1..], df);
      EmptyEntriesMatch(df, zones[0].fqdn);
      assert zones == [zones[0]] + zones[1..];
    }
  }

  lemma EmptyEntriesMatch(df: DomainFilter, domain: string)
    requires forall f :: f in df.filters ==> f == ""
    ensures Match(df, domain)
  {
    if |df.filters| > 0 {
      assert df.filters[0] in df.filters;
      assert NormalEntry(df.filters[0]) == "";
      assert EntryAccepts(NormalEntry(df.filters[0]), NormalDomain(domain));
    }
  }

  /** A filter entry naming a domain accepts the domain itself and every name
      below it, and nothing that merely ends with the same characters. */
  lemma EntryAcceptsExample()
    ensures EntryAccepts("example.com", "example.com")
    ensures EntryAccepts("example.com", "lvl1-1.example.com")
    ensures !EntryAccepts("example.com", "other.com")
    ensures !EntryAccepts("example.com", "nomatch-example.com")
  {
    assert "lvl1-1.example.com"[|"lvl1-1.example.com"| - |".example.com"|..] == ".example.com";
    assert "nomatch-example.com"[|"nomatch-example.com"| - |".example.com"|..] != ".example.com" by {
      assert "nomatch-example.com"[7] == '-';
    }
    assert "other.com"[0] != "example.com"[0];
  }

  /** A filter keeps a domain that one of its entries accepts once both
      are normalised. */
  lemma MatchByEntry(df: DomainFilter, f: string, domain: string)
    requires f in df.filters && EntryAccepts(NormalEntry(f), NormalDomain(domain))
    ensures Match(df, domain)
  {
  }

  /** Domains are compared without case. */
  lemma MatchIgnoresCase()
    ensures Match(DomainFilter(["example.com"]), "Example.COM")
  {
    NormalPlainEntry();
    NormalMixedCase();
    MatchByEntry(DomainFilter(["example.com"]), "example.com", "Example.COM");
  }

  /** Entries are compared without surrounding white space and without a
      trailing dot, and domains without a trailing dot. */
  lemma MatchTrimsEntry()
    ensures Match(DomainFilter([" Example.com. "]), "lvl1-1.example.com.")
  {
    NormalPaddedEntry();
    NormalDottedDomain();
    EntryAcceptsExample();
    MatchByEntry(DomainFilter([" Example.com. "]), " Example.com. ", "lvl1-1.example.com.");
  }

  lemma NormalPlainEntry()
    ensures NormalEntry("example.com") == "example.com"
  {
    TrimExample();
    LowerExample();
    NormalEntryKeeps("example.com");
  }

  lemma TrimExample()
    ensures Strings.TrimSpace("example.com") == "example.com"
  {
    Strings.TrimSpaceKeeps("example.com");
  }

  /** An entry already in normal form is kept as it is. */
  lemma NormalEntryKeeps(f: string)
    requires Strings.TrimSpace(f) == f && Strings.ToLower(f) == f
    requires |f| > 0 ==> f[|f| - 1] != '.'
    ensures NormalEntry(f) == f
  {
  }

  lemma LowerExample()
    ensures Strings.ToLower("example.com") == "example.com"
  {
    Strings.LowerOf("example.com", "example.com");
  }

  lemma NormalMixedCase()
    ensures NormalDomain("Example.COM") == "example.com"
  {
    Strings.LowerOf("Example.COM", "example.com");
  }

  lemma NormalPaddedEntry()
    ensures NormalEntry(" Example.com. ") == "example.com"
  {
    TrimPadded();
    StripDotted();
    LowerMixed();
  }

  lemma TrimPadded()
    ensures Strings.TrimSpace(" Example.com. ") == "Example.com."
  {
    assert " Example.com. " == [' '] + "Example.com." + [' '];
    Strings.TrimSpaceStrips(' ', "Example.com.", ' ');
  }

  lemma StripDotted()
    ensures StripDot("Example.com.") == "Example.com"
  {
    assert "Example.com." == "Example.com" + ".";
  }

  lemma LowerMixed()
    ensures Strings.ToLower("Example.com") == "example.com"
  {
    Strings.LowerOf("Example.com", "example.com");
  }

  lemma NormalDottedDomain()
    ensures NormalDomain("lvl1-1.example.com.") == "lvl1-1.example.com"
  {
    assert "lvl1-1.example.com." == "lvl1-1.example.com" + ".";
    Strings.LowerOf("lvl1-1.example.com", "lvl1-1.example.com");
  }
}
