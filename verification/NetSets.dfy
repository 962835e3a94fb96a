/** The set of trusted networks (pkg/ip/net_set.go, pkg/ip/parse_ip_net.go): networks are grouped by
    prefix length, and an address is looked up by masking it once for each length in use. Addresses
    and masks are sequences of bits: 32 for Go's 4-byte form, 128 for its 16-byte form. */
module NetSets {
  import opened Text

  type Bits = seq<bool>

  /** `net.CIDRMask`. */
  function CIDRMask(ones: nat, bits: nat): (r: Bits)
    requires ones <= bits
    ensures |r| == bits && forall i :: 0 <= i < bits ==> r[i] == (i < ones)
  {
    seq(bits, i => i < ones)
  }

  /** The prefix of an IPv4 address in 16-byte form. */
  function V4InV6(): (r: Bits)
    ensures |r| == 96 && forall i :: 0 <= i < 96 ==> r[i] == (i >= 80)
  {
    seq(96, i => i >= 80)
  }

  /** A `net.IP` as Go's parsers return it. */
  predicate IsIP(ip: Bits) {
    |ip| == 32 || |ip| == 128
  }

  function To4(ip: Bits): Option<Bits> {
    if |ip| == 32 then Some(ip)
    else if |ip| == 128 && ip[..96] == V4InV6() then Some(ip[96..])
    else None
  }

  function To16(ip: Bits): (r: Bits)
    requires IsIP(ip)
    ensures |r| == 128
  {
    if |ip| == 32 then V4InV6() + ip else ip
  }

  function LeadingOnes(m: Bits): (n: nat)
    ensures n <= |m|
  {
    if m == [] || !m[0] then 0 else 1 + LeadingOnes(m[1..])
  }

  /** `mask.Size()`: the number of ones, or 0 for a mask that is not ones followed by zeros. */
  function Size(m: Bits): nat {
    if m == CIDRMask(LeadingOnes(m), |m|) then LeadingOnes(m) else 0
  }

  lemma {:induction false} SizeOfCIDRMask(ones: nat, bits: nat)
    requires ones <= bits
    ensures LeadingOnes(CIDRMask(ones, bits)) == ones && Size(CIDRMask(ones, bits)) == ones
  {
    if ones > 0 {
      SizeOfCIDRMask(ones - 1, bits - 1);
      assert CIDRMask(ones, bits)[1..] == CIDRMask(ones - 1, bits - 1);
    }
  }

  predicate AllOnes(m: Bits) {
    forall i :: 0 <= i < |m| ==> m[i]
  }

  function And(a: Bits, b: Bits): (r: Bits)
    requires |a| == |b|
    ensures |r| == |a| && forall i :: 0 <= i < |a| ==> r[i] == (a[i] && b[i])
  {
    if a == [] then [] else [a[0] && b[0]] + And(a[1..], b[1..])
  }

  /** A 16-byte mask of ones is shortened for a 4-byte address. */
  function ShortMask(ip: Bits, m: Bits): Bits {
    if |m| == 128 && |ip| == 32 && AllOnes(m[..96]) then m[96..] else m
  }

  /** An IPv4-in-IPv6 address is shortened for a 4-byte mask. */
  function ShortIP(ip: Bits, m: Bits): Bits {
    if |m| == 32 && |ip| == 128 && ip[..96] == V4InV6() then ip[96..] else ip
  }

  /** `ip.Mask(m)`, with its conversions between the forms; None is Go's nil. */
  function Mask(ip: Bits, m: Bits): Option<Bits> {
    if |ShortIP(ip, ShortMask(ip, m))| != |ShortMask(ip, m)| then None
    else Some(And(ShortIP(ip, ShortMask(ip, m)), ShortMask(ip, m)))
  }

  datatype IPNet = IPNet(ip: Bits, mask: Bits)

  // ----- parsing -----

  /** One entry of the list, as the library parsers see it: a plain address (16-byte form), an address
      and a prefix length with the address in the form it is written in, or text they reject. */
  datatype Item = Address(ip: Bits) | Network(addr: Bits, ones: nat) | Malformed

  predicate WellParsed(item: Item) {
    match item
    case Address(ip) => |ip| == 128
    case Network(addr, ones) => IsIP(addr) && ones <= |addr|
    case Malformed => true
  }

  /** `ParseIPNet`: a network whose address has bits beyond the prefix is rejected. */
  function ParseIPNet(item: Item): Option<IPNet>
    requires WellParsed(item)
  {
    match item
    case Malformed => None
    case Address(ip) => Some(IPNet(ip, if To4(ip).Some? then CIDRMask(32, 32) else CIDRMask(128, 128)))
    case Network(addr, ones) =>
      var mask := CIDRMask(ones, |addr|);
      var ip := Mask(To16(addr), mask);
      if ip.None? || To16(ip.value) != To16(addr) then None else Some(IPNet(ip.value, mask))
  }

  // ----- the plain meaning of a list -----

  predicate IsV4(ip: Bits)
    requires IsIP(ip)
  {
    To16(ip)[..96] == V4InV6()
  }

  /** No bit is set beyond the prefix. */
  predicate HostBitsClear(item: Item) {
    item.Network? ==> forall i :: item.ones <= i < |item.addr| ==> !item.addr[i]
  }

  /** The entry is of the address's family and agrees with it on the prefix, both in 16-byte form. */
  predicate Contains(item: Item, ip: Bits)
    requires WellParsed(item) && IsIP(ip)
  {
    match item
    case Malformed => false
    case Address(a) => IsV4(a) == IsV4(ip) && To16(a) == To16(ip)
    case Network(a, ones) =>
      var length := ones + 128 - |a|;
      IsV4(a) == IsV4(ip) && To16(a)[..length] == To16(ip)[..length]
  }

  // ----- masks and prefixes -----

  /** The prefix length of a mask over the 16-byte form. */
  function Length(mask: Bits): nat
    requires |mask| == 32 || |mask| == 128
  {
    LeadingOnes(mask) + 128 - |mask|
  }

  predicate Canonical(mask: Bits) {
    (|mask| == 32 || |mask| == 128) && mask == CIDRMask(LeadingOnes(mask), |mask|)
  }

  /** A mask that addresses of the family can be masked with: any 4-byte mask or a 16-byte mask that
      keeps the IPv4-in-IPv6 prefix for IPv4, a 16-byte mask for IPv6. */
  predicate Fits(mask: Bits, v4: bool) {
    Canonical(mask) && if v4 then Length(mask) >= 96 else |mask| == 128
  }

  /** Masking never fails on an address of the family, and clears exactly the bits of the 16-byte form
      beyond the prefix. */
  lemma MaskClears(ip: Bits, mask: Bits)
    requires IsIP(ip) && Fits(mask, IsV4(ip))
    ensures Mask(ip, mask).Some? && IsIP(Mask(ip, mask).value)
    ensures forall i :: 0 <= i < 128 ==> To16(Mask(ip, mask).value)[i] == (i < Length(mask) && To16(ip)[i])
  {
    if |mask| == 128 && |ip| == 32 {
      assert AllOnes(mask[..96]);
    }
    if IsV4(ip) {
      assert forall i :: 0 <= i < 96 ==> To16(ip)[i] == V4InV6()[i];
      assert |ip| == 128 ==> ip[..96] == V4InV6();
    }
  }

  /** What a set keeps of a network: IP.String() names the 16-byte form, so that form is the key. */
  function Key(ip: Bits): Bits
    requires IsIP(ip)
  {
    To16(ip)
  }

  ghost predicate GoodNet(net: IPNet) {
    && IsIP(net.ip) && Fits(net.mask, IsV4(net.ip))
    && forall i :: Length(net.mask) <= i < 128 ==> !To16(net.ip)[i]
  }

  /** The address agrees with the network on the network's prefix, both in 16-byte form. */
  predicate SamePrefix(net: IPNet, ip: Bits) {
    IsIP(ip) && IsIP(net.ip) && Canonical(net.mask)
    && To16(ip)[..Length(net.mask)] == To16(net.ip)[..Length(net.mask)]
  }

  /** The masked address is the network exactly when the two agree on the prefix. */
  lemma MaskedIsNetwork(net: IPNet, ip: Bits)
    requires GoodNet(net) && IsIP(ip) && Fits(net.mask, IsV4(ip))
    ensures Mask(ip, net.mask).Some? && IsIP(Mask(ip, net.mask).value)
    ensures Key(Mask(ip, net.mask).value) == Key(net.ip) <==> SamePrefix(net, ip)
  {
    MaskClears(ip, net.mask);
    PrefixAgrees(To16(ip), To16(net.ip), To16(Mask(ip, net.mask).value), Length(net.mask));
  }

  /** `r` is `a` with everything beyond the prefix cleared, and `b` has nothing there. */
  lemma PrefixAgrees(a: Bits, b: Bits, r: Bits, n: nat)
    requires |a| == |b| == |r| && n <= |a|
    requires forall i :: 0 <= i < |r| ==> r[i] == (i < n && a[i])
    requires forall i :: n <= i < |b| ==> !b[i]
    ensures r == b <==> a[..n] == b[..n]
  {
    if a[..n] == b[..n] {
      forall i | 0 <= i < |r|
        ensures r[i] == b[i]
      {
        if i < n { assert a[..n][i] == b[..n][i]; }
      }
    }
    if r == b {
      assert forall i :: 0 <= i < n ==> a[i] == r[i];
    }
  }

  /** ParseIPNet accepts exactly the well-formed entries without host bits, and returns the network
      they denote. */
  lemma ParseIPNetMeaning(item: Item)
    requires WellParsed(item)
    ensures ParseIPNet(item).Some? <==> !item.Malformed? && HostBitsClear(item)
    ensures ParseIPNet(item).Some? ==> GoodNet(ParseIPNet(item).value)
    ensures ParseIPNet(item).Some? && item.Address? ==>
              To16(ParseIPNet(item).value.ip) == To16(item.ip) && Length(ParseIPNet(item).value.mask) == 128
    ensures ParseIPNet(item).Some? && item.Network? ==>
              To16(ParseIPNet(item).value.ip) == To16(item.addr)
              && Length(ParseIPNet(item).value.mask) == item.ones + 128 - |item.addr|
  {
    match item
    case Malformed =>
    case Address(ip) =>
      SizeOfCIDRMask(32, 32);
      SizeOfCIDRMask(128, 128);
    case Network(addr, ones) => ParseNetworkMeaning(addr, ones);
  }

  lemma ParseNetworkMeaning(addr: Bits, ones: nat)
    requires IsIP(addr) && ones <= |addr|
    ensures var net := ParseIPNet(Network(addr, ones));
            && (net.Some? <==> HostBitsClear(Network(addr, ones)))
            && (net.Some? ==> GoodNet(net.value) && To16(net.value.ip) == To16(addr)
                              && Length(net.value.mask) == ones + 128 - |addr|)
  {
    var mask, ip16 := CIDRMask(ones, |addr|), To16(addr);
    SizeOfCIDRMask(ones, |addr|);
    if |addr| == 32 {
      assert ip16[..96] == V4InV6();
      MaskClears(ip16, mask);
      assert forall i :: 0 <= i < 32 ==> ip16[i + 96] == addr[i];
    }
    var r := Mask(ip16, mask);
    assert forall i :: 0 <= i < 128 ==> To16(r.value)[i] == (i < Length(mask) && ip16[i]);
    if To16(r.value) == ip16 {
      forall i | ones <= i < |addr|
        ensures !addr[i]
      {
        assert addr[i] == ip16[i + 128 - |addr|];
      }
      if IsV4(addr) && |addr| == 128 {
        assert ip16[..96][95] == V4InV6()[95];
      }
    } else if HostBitsClear(Network(addr, ones)) {
      assert forall i :: 0 <= i < 128 ==> To16(r.value)[i] == ip16[i];
    }
  }

  // ----- the set -----

  datatype IPNetMap = IPNetMap(mask: Bits, ips: set<Bits>) {
    /** `ipNetMap.has`. Where Go would panic, as the mask does not apply, this is false; MaskClears
        shows that it always applies. */
    predicate Has(ip: Bits) {
      var masked := Mask(ip, mask);
      masked.Some? && IsIP(masked.value) && Key(masked.value) in ips
    }
  }

  /** One family's list: masks of the family, no two with the same number of ones. */
  predicate ValidMaps(maps: seq<IPNetMap>, v4: bool) {
    && (forall i :: 0 <= i < |maps| ==> Fits(maps[i].mask, v4))
    && (forall i, j :: 0 <= i < j < |maps| ==> Size(maps[i].mask) != Size(maps[j].mask))
  }

  predicate Covers(maps: seq<IPNetMap>, ip: Bits) {
    exists i :: 0 <= i < |maps| && maps[i].Has(ip)
  }

  /** Within a family the number of ones tells the mask: 4-byte masks have at most 32 and 16-byte masks
      of IPv4 networks at least 96. */
  lemma OnesDetermineMask(a: Bits, b: Bits, v4: bool)
    requires Fits(a, v4) && Fits(b, v4) && Size(a) == Size(b)
    ensures a == b
  {
  }

  class NetSet {
    var ip4NetMaps: seq<IPNetMap>
    var ip6NetMaps: seq<IPNetMap>

    ghost predicate Valid()
      reads this
    {
      ValidMaps(ip4NetMaps, true) && ValidMaps(ip6NetMaps, false)
    }

    ghost function Maps(v4: bool): seq<IPNetMap>
      reads this
    {
      if v4 then ip4NetMaps else ip6NetMaps
    }

    /** Some network of the address's family in the set contains the address. */
    ghost predicate Contains(ip: Bits)
      requires IsIP(ip)
      reads this
    {
      Covers(Maps(IsV4(ip)), ip)
    }

    constructor ()
      ensures Valid() && ip4NetMaps == [] && ip6NetMaps == []
    {
      ip4NetMaps, ip6NetMaps := [], [];
    }

    method Has(ip: Bits) returns (r: bool)
      requires Valid() && IsIP(ip)
      ensures r == Contains(ip)
    {
      To4IsV4(ip);
      var netMaps := if To4(ip).Some? then ip4NetMaps else ip6NetMaps;
      for i := 0 to |netMaps|
        invariant forall j :: 0 <= j < i ==> !netMaps[j].Has(ip)
      {
        MaskClears(ip, netMaps[i].mask);  // no panic
        if netMaps[i].Has(ip) {
          return true;
        }
      }
      return false;
    }

    /** Adds one network to its family's list and nothing else. The measure shows that the method calls
        itself at most once: only when no map has the network's number of ones. */
    method AddIPNet(net: IPNet)
      requires Valid() && GoodNet(net)
      modifies this
      ensures Valid()
      ensures Maps(!IsV4(net.ip)) == old(Maps(!IsV4(net.ip)))
      ensures Extended(old(Maps(IsV4(net.ip))), net, Maps(IsV4(net.ip)))
      decreases if exists i :: 0 <= i < |Maps(IsV4(net.ip))| && Size(Maps(IsV4(net.ip))[i].mask) == Size(net.mask)
                then 0 else 1
    {
      hide Covers, Mask, Size, LeadingOnes, CIDRMask;
      To4IsV4(net.ip);
      var v4 := To4(net.ip).Some?;
      var netMaps := if v4 then ip4NetMaps else ip6NetMaps;
      var ones := Size(net.mask);
      var found := |netMaps|;
      for i := 0 to |netMaps|
        invariant found == |netMaps|
        invariant forall j :: 0 <= j < i ==> Size(netMaps[j].mask) != ones
      {
        if Size(netMaps[i].mask) == ones {
          found := i;
          break;
        }
      }
      if found == |netMaps| {
        var grown := netMaps + [IPNetMap(net.mask, {})];
        if v4 { ip4NetMaps := grown; } else { ip6NetMaps := grown; }
        assert Size(Maps(v4)[found].mask) == ones;
        EmptyMapAddsNothing(netMaps, net.mask);
        AddIPNet(net);
        return;
      }
      OnesDetermineMask(netMaps[found].mask, net.mask, v4);
      var updated := netMaps[found := netMaps[found].(ips := netMaps[found].ips + {Key(net.ip)})];
      if v4 { ip4NetMaps := updated; } else { ip6NetMaps := updated; }
      KeyAddsNetwork(netMaps, found, net);
    }
  }

  /** `after` covers what `before` does and the network's addresses, among those of its family. */
  ghost predicate Extended(before: seq<IPNetMap>, net: IPNet, after: seq<IPNetMap>)
    requires IsIP(net.ip)
  {
    forall ip | IsIP(ip) && IsV4(ip) == IsV4(net.ip) ::
      Covers(after, ip) <==> Covers(before, ip) || SamePrefix(net, ip)
  }

  lemma To4IsV4(ip: Bits)
    requires IsIP(ip)
    ensures To4(ip).Some? <==> IsV4(ip)
  {
    if |ip| == 32 {
      assert To16(ip)[..96] == V4InV6();
    }
  }

  lemma EmptyMapAddsNothing(maps: seq<IPNetMap>, mask: Bits)
    ensures forall ip :: Covers(maps + [IPNetMap(mask, {})], ip) == Covers(maps, ip)
  {
    var grown := maps + [IPNetMap(mask, {})];
    assert forall i :: 0 <= i < |maps| ==> grown[i] == maps[i];
    forall ip
      ensures Covers(grown, ip) == Covers(maps, ip)
    {
      assert !grown[|maps|].Has(ip);
      if Covers(maps, ip) {
        var i :| 0 <= i < |maps| && maps[i].Has(ip);
        assert grown[i].Has(ip);
      }
    }
  }

  lemma KeyAddsNetwork(maps: seq<IPNetMap>, k: nat, net: IPNet)
    requires GoodNet(net) && k < |maps| && maps[k].mask == net.mask
    ensures Extended(maps, net, maps[k := maps[k].(ips := maps[k].ips + {Key(net.ip)})])
  {
    var updated := maps[k := maps[k].(ips := maps[k].ips + {Key(net.ip)})];
    assert forall i :: 0 <= i < |maps| && i != k ==> updated[i] == maps[i];
    forall ip | IsIP(ip) && IsV4(ip) == IsV4(net.ip)
      ensures Covers(updated, ip) <==> Covers(maps, ip) || SamePrefix(net, ip)
    {
      MaskedIsNetwork(net, ip);
      hide Mask, SamePrefix;
      assert updated[k].Has(ip) <==> maps[k].Has(ip) || SamePrefix(net, ip);
      if Covers(maps, ip) {
        var i :| 0 <= i < |maps| && maps[i].Has(ip);
        assert updated[i].Has(ip);
      }
      if Covers(updated, ip) {
        var i :| 0 <= i < |updated| && updated[i].Has(ip);
        assert i == k || maps[i].Has(ip);
      }
    }
  }

  /** The index agrees with the list: parsing succeeds exactly when every entry is well formed and has
      no host bits, and then an address is in the set exactly when some entry contains it, whatever
      the order and the repetitions. */
  method ParseNetSet(items: seq<Item>) returns (r: Option<NetSet>)
    requires forall i :: 0 <= i < |items| ==> WellParsed(items[i])
    ensures r.Some? <==> forall i :: 0 <= i < |items| ==> !items[i].Malformed? && HostBitsClear(items[i])
    ensures r.Some? ==> fresh(r.value) && r.value.Valid()
    ensures r.Some? ==> forall ip | IsIP(ip) ::
                          r.value.Contains(ip) <==> exists i :: 0 <= i < |items| && Contains(items[i], ip)
  {
    hide Covers, ParseIPNet, Contains, SamePrefix, HostBitsClear;
    var netSet := new NetSet();
    NothingCoversNothing();
    for k := 0 to |items|
      invariant netSet.Valid() && fresh(netSet)
      invariant forall i :: 0 <= i < k ==> !items[i].Malformed? && HostBitsClear(items[i])
      invariant forall ip | IsIP(ip) ::
                  netSet.Contains(ip) <==> exists i :: 0 <= i < k && Contains(items[i], ip)
    {
      ParseIPNetMeaning(items[k]);
      var net := ParseIPNet(items[k]);
      if net.None? {
        return None;
      }
      ghost var before4, before6 := netSet.ip4NetMaps, netSet.ip6NetMaps;
      netSet.AddIPNet(net.value);
      ItemIsNetwork(items[k], net.value);
      forall ip | IsIP(ip)
        ensures netSet.Contains(ip) <==> Covers(if IsV4(ip) then before4 else before6, ip) || Contains(items[k], ip)
      {
      }
    }
    return Some(netSet);
  }

  lemma NothingCoversNothing()
    ensures forall ip :: !Covers([], ip)
  {
  }

  lemma ItemIsNetwork(item: Item, net: IPNet)
    requires WellParsed(item) && ParseIPNet(item) == Some(net)
    ensures IsIP(net.ip)
    ensures forall ip | IsIP(ip) :: Contains(item, ip) <==> IsV4(net.ip) == IsV4(ip) && SamePrefix(net, ip)
  {
    ParseIPNetMeaning(item);
    hide ParseIPNet, LeadingOnes, CIDRMask;
  }

  /** `defaultTrustedProxyIPs` (oauthproxy.go:62): 0.0.0.0/0 and ::/0. */
  const DEFAULT_TRUSTED: seq<Item> := [Network(CIDRMask(0, 32), 0), Network(CIDRMask(0, 128), 0)]

  /** The default list parses, and contains every address. */
  lemma DefaultListContainsAll(ip: Bits)
    requires IsIP(ip)
    ensures forall i :: 0 <= i < |DEFAULT_TRUSTED| ==>
                        WellParsed(DEFAULT_TRUSTED[i]) && HostBitsClear(DEFAULT_TRUSTED[i])
    ensures exists i :: 0 <= i < |DEFAULT_TRUSTED| && Contains(DEFAULT_TRUSTED[i], ip)
  {
    hide CIDRMask;
    var v4, v6 := CIDRMask(0, 32), CIDRMask(0, 128);
    assert To16(v4)[..96] == V4InV6();
    assert !To16(v6)[..96][95] && V4InV6()[95];
    assert Contains(Network(if IsV4(ip) then v4 else v6, 0), ip);
    assert Contains(DEFAULT_TRUSTED[if IsV4(ip) then 0 else 1], ip);
  }
}
