/** Address handling of `utils/ipUtils.js`: normalisation, scope matching and the
    choice of the client address among the proxy headers. */
module IpUtils {
  import opened Results
  import opened JsText
  import Wildcard

  const Loopback := "127.0.0.1"
  const LoopbackV6 := "::1"
  const MappedLoopback := "::ffff:127.0.0.1"
  const MappedPrefix := "::ffff:"

  predicate IsLoopbackAlias(ip: string) {
    ip == LoopbackV6 || ip == MappedLoopback
  }

  /** `normalizeIp`: both loopback spellings become `127.0.0.1`; any other address
      written with the IPv4-mapped prefix loses exactly that prefix; everything else,
      the empty string included, is returned as is. */
  function NormalizeIp(ip: string): (r: string)
    ensures IsLoopbackAlias(ip) ==> r == Loopback
    ensures !IsLoopbackAlias(ip) && StartsWith(ip, MappedPrefix) ==> MappedPrefix + r == ip
    ensures !IsLoopbackAlias(ip) && !StartsWith(ip, MappedPrefix) ==> r == ip
  {
    if IsLoopbackAlias(ip) then Loopback
    else if StartsWith(ip, MappedPrefix) then ip[|MappedPrefix|..]
    else ip
  }

  /** Exactly three inputs normalise to the IPv4 loopback address. */
  lemma NormalizeToLoopback(ip: string)
    ensures NormalizeIp(ip) == Loopback <==> (IsLoopbackAlias(ip) || ip == Loopback)
  {
    assert !StartsWith(Loopback, MappedPrefix) by {
      assert Loopback[0] != MappedPrefix[0];
    }
    if !IsLoopbackAlias(ip) && StartsWith(ip, MappedPrefix) {
      assert ip == MappedPrefix + NormalizeIp(ip);
      assert NormalizeIp(ip) != Loopback;
    }
  }

  /** Normalisation is not idempotent: a doubly prefixed address loses one prefix per call. */
  lemma NormalizeNotIdempotent()
    ensures exists ip :: NormalizeIp(NormalizeIp(ip)) != NormalizeIp(ip)
  {
    var ip := "::ffff:::ffff:10.0.0.1";
    assert StartsWith(ip, MappedPrefix);
    assert NormalizeIp(ip) == "::ffff:10.0.0.1";
    assert StartsWith("::ffff:10.0.0.1", MappedPrefix);
    assert NormalizeIp(NormalizeIp(ip)) == "10.0.0.1";
  }

  /** A normal form that carries neither the prefix nor the `::1` spelling is a fixed point. */
  lemma NormalizeFixedPoint(ip: string)
    requires !StartsWith(NormalizeIp(ip), MappedPrefix) && NormalizeIp(ip) != LoopbackV6
    ensures NormalizeIp(NormalizeIp(ip)) == NormalizeIp(ip)
  {
  }

  /** The inline normalisation of `isIpAllowed`: only the two loopback spellings. It
      agrees with `normalizeIp` on which addresses are loopback, and on every address
      not written with the IPv4-mapped prefix; otherwise it keeps the text as it is. */
  function CollapseLoopback(ip: string): (r: string)
    ensures r == Loopback <==> NormalizeIp(ip) == Loopback
    ensures !StartsWith(ip, MappedPrefix) ==> r == NormalizeIp(ip)
    ensures r != ip ==> IsLoopbackAlias(ip)
  {
    NormalizeToLoopback(ip);
    if IsLoopbackAlias(ip) then Loopback else ip
  }

  /** `isIpAllowed` leaves IPv4-mapped addresses other than loopback untouched,
      where `normalizeIp` would strip their prefix. */
  lemma CollapseKeepsMappedAddresses(ip: string)
    requires StartsWith(ip, MappedPrefix) && ip != MappedLoopback
    ensures CollapseLoopback(ip) == ip
    ensures NormalizeIp(ip) != ip
  {
    assert |NormalizeIp(ip)| < |ip|;
  }

  /** The test applied to one scope entry: string equality, or, for an entry that
      contains `*`, the anchored regex built by escaping dots and expanding stars. */
  function EntryMatches(entry: string, ip: string): (r: bool)
    ensures entry == ip ==> r
    ensures '*' !in entry ==> (r <==> entry == ip)
    ensures Wildcard.IsPlainPattern(entry) && '*' in entry ==> (r <==> Wildcard.Glob(entry, ip))
  {
    Wildcard.GlobSelf(entry);
    entry == ip || (Includes(entry, '*') && Wildcard.RegexTest(entry, ip))
  }

  /** An entry without `*` matches only its own text; an entry with `*` matches
      exactly the addresses its glob accepts. */
  lemma EntryMatchesMeaning(entry: string, ip: string)
    requires Wildcard.IsPlainPattern(entry)
    ensures EntryMatches(entry, ip) <==>
      (if '*' in entry then Wildcard.Glob(entry, ip) else entry == ip)
  {
    Wildcard.GlobSelf(entry);
  }

  /** An entry `prefix*` admits exactly the addresses that start with the prefix and
      continue without line terminators. */
  lemma PrefixEntryMatches(lit: string, ip: string)
    requires '*' !in lit && Wildcard.IsPlainPattern(lit)
    ensures EntryMatches(lit + "*", ip) <==>
      (|lit| <= |ip| && ip[..|lit|] == lit && forall i | |lit| <= i < |ip| :: !Wildcard.IsLineTerminator(ip[i]))
  {
    var p := lit + "*";
    assert Wildcard.IsPlainPattern(p) by {
      forall i | 0 <= i < |p| ensures p[i] == '.' || p[i] == '*' || !Wildcard.IsSyntaxChar(p[i]) {
        if i < |lit| {
          assert p[i] == lit[i];
        }
      }
    }
    assert '*' in p by {
      assert p[|lit|] == '*';
    }
    EntryMatchesMeaning(p, ip);
    Wildcard.PrefixWildcard(lit, ip);
  }

  const ExampleSubnet := "192.168.1."

  /** `192.168.1.*` admits a host of its subnet, refuses a host of another subnet, and,
      since the star may match nothing, admits the bare prefix `192.168.1.` as well. */
  lemma SubnetWildcardExamples()
    ensures EntryMatches(ExampleSubnet + "*", ExampleSubnet + "42")
    ensures !EntryMatches(ExampleSubnet + "*", "192.168.2.1")
    ensures EntryMatches(ExampleSubnet + "*", ExampleSubnet)
  {
    var subnet := ExampleSubnet;
    assert Wildcard.IsPlainPattern(subnet);
    PrefixEntryMatches(subnet, subnet + "42");
    PrefixEntryMatches(subnet, "192.168.2.1");
    assert "192.168.2.1"[..|subnet|] != subnet by {
      assert "192.168.2.1"[8] != subnet[8];
    }
    PrefixEntryMatches(subnet, subnet);
  }

  /** `entries.some(...)` with the entry test above, scanned left to right. */
  function ScopeAdmits(entries: seq<string>, ip: string): (r: bool)
    ensures r <==> exists i | 0 <= i < |entries| :: EntryMatches(entries[i], ip)
  {
    if |entries| == 0 then false
    else EntryMatches(entries[0], ip) || ScopeAdmits(entries[1..], ip)
  }

  /** The verdict depends only on which entries occur: not on their order, not on duplicates. */
  lemma ScopeAdmitsIgnoresOrder(a: seq<string>, b: seq<string>, ip: string)
    requires forall e :: e in a <==> e in b
    ensures ScopeAdmits(a, ip) == ScopeAdmits(b, ip)
  {
    if ScopeAdmits(a, ip) {
      var i :| 0 <= i < |a| && EntryMatches(a[i], ip);
      assert a[i] in b;
      var j :| 0 <= j < |b| && b[j] == a[i];
    }
    if ScopeAdmits(b, ip) {
      var j :| 0 <= j < |b| && EntryMatches(b[j], ip);
      assert b[j] in a;
      var i :| 0 <= i < |a| && a[i] == b[j];
    }
  }

  /** `isIpAllowed`: an absent or empty list admits every address; otherwise some
      entry must match the address after loopback collapsing. */
  function IsIpAllowed(ip: string, allowedIps: Option<seq<string>>): (r: bool)
    ensures allowedIps.None? || |allowedIps.value| == 0 ==> r
    ensures allowedIps.Some? && |allowedIps.value| > 0 ==>
      (r <==> exists i | 0 <= i < |allowedIps.value| ::
                EntryMatches(allowedIps.value[i], CollapseLoopback(ip)))
  {
    match allowedIps
    case None => true
    case Some(entries) =>
      if |entries| == 0 then true else ScopeAdmits(entries, CollapseLoopback(ip))
  }

  /** The lone entry `*` admits every address without a line terminator. */
  lemma StarEntryAdmitsAll(ip: string)
    requires forall i | 0 <= i < |ip| :: !Wildcard.IsLineTerminator(ip[i])
    ensures EntryMatches("*", ip)
  {
    assert "" + "*" == "*";
    PrefixEntryMatches("", ip);
  }

  /** `isIpAllowed` and the token check agree on a non-empty list whenever the address
      is not IPv4-mapped, but disagree on the empty list: the first admits everyone,
      the second no one. */
  lemma IsIpAllowedVersusScope(ip: string, entries: seq<string>)
    ensures |entries| > 0 && !StartsWith(ip, MappedPrefix) ==>
      IsIpAllowed(ip, Some(entries)) == ScopeAdmits(entries, NormalizeIp(ip))
    ensures IsIpAllowed(ip, Some([])) && !ScopeAdmits([], NormalizeIp(ip))
  {
    if !StartsWith(ip, MappedPrefix) {
      assert StartsWith(MappedLoopback, MappedPrefix) by {
        assert MappedLoopback[..|MappedPrefix|] == MappedPrefix;
      }
      assert CollapseLoopback(ip) == NormalizeIp(ip);
    }
  }

  /** A header takes part only when present and non-empty (JavaScript truthiness). */
  predicate Truthy(header: Option<string>) {
    header.Some? && |header.value| > 0
  }

  /** `getClientIp`: the trimmed first comma-separated `X-Forwarded-For` entry when that
      header is non-empty, else a non-empty `X-Real-IP`, else the socket address. */
  function GetClientIp(forwardedFor: Option<string>, realIp: Option<string>, remoteAddress: string): (r: string)
    ensures Truthy(forwardedFor) ==> r == Trim(FirstField(forwardedFor.value, ','))
    ensures Truthy(forwardedFor) ==> ',' !in r
    ensures !Truthy(forwardedFor) && Truthy(realIp) ==> r == realIp.value
    ensures !Truthy(forwardedFor) && !Truthy(realIp) ==> r == remoteAddress
  {
    if Truthy(forwardedFor) then
      var first := FirstField(forwardedFor.value, ',');
      var r := Trim(first);
      assert forall c | c in r :: c in first;
      r
    else if Truthy(realIp) then realIp.value
    else remoteAddress
  }
}
