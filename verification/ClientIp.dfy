/** Which hop of a forwarding chain is the client: trusted proxies by prefix, and the walk from the right. */
module ClientIp {
  import opened Prelude
  import opened IpText

  datatype ParsedIp = V4(value: nat) | V6(value: nat)

  function ParseIp(input: string): Option<ParsedIp> {
    var trimmed := Trim(input);
    if trimmed == "" then None
    else if ParseIpv4(trimmed).Some? then Some(V4(ParseIpv4(trimmed).value))
    else if ParseIpv6(trimmed).Some? then Some(V6(ParseIpv6(trimmed).value))
    else None
  }

  function BitLength(ip: ParsedIp): nat { if ip.V4? then 32 else 128 }

  predicate Fits(ip: ParsedIp) {
    ip.value < if ip.V4? then 0x1_0000_0000 else 0x1_0000_0000_0000_0000_0000_0000_0000_0000
  }

  /** A parsed address never exceeds its version's width. */
  lemma ParsedIpFits(input: string)
    ensures ParseIp(input).Some? ==> Fits(ParseIp(input).value)
  {
    var trimmed := Trim(input);
    Ipv4Exactly(trimmed, ["0", "0", "0", "0"]);
    if ParseIpv6(trimmed).Some? { OnlyTextualFormsParse(trimmed); }
  }

  lemma ColonIsNoIpv4(text: string)
    requires ':' in text
    ensures ParseIpv4(text) == None
  {
    if ParseIpv4(text).Some? {
      Ipv4Exactly(text, ["0", "0", "0", "0"]);
      JoinedOctets(Split(text, '.'));
      assert false;
    }
  }

  lemma Ipv4IsRead(before: string, octets: seq<string>, after: string)
    requires AllSpace(before) && AllSpace(after) && |octets| == 4 && Octets(octets)
    ensures ParseIp(before + Join(octets, '.') + after) == Some(V4(ValueOf(OctetValues(octets), 256)))
  {
    var text := Join(octets, '.');
    JoinedOctets(octets);
    assert text != "" by { assert '.' in text; }
    NoSpaceInside(text);
    TrimLeaves(before, text, after);
    Ipv4Exactly(text, octets);
  }

  lemma NoSpaceInside(text: string)
    requires forall i :: 0 <= i < |text| ==> text[i] == '.' || text[i] == ':' || HexDigit(text[i])
    ensures Trimmed(text)
  {
  }

  lemma Ipv6IsRead(before: string, text: string, after: string)
    requires AllSpace(before) && AllSpace(after) && ':' in text && ParseIpv6(text).Some?
    requires forall i :: 0 <= i < |text| ==> text[i] == '.' || text[i] == ':' || HexDigit(text[i])
    ensures ParseIp(before + text + after) == Some(V6(ParseIpv6(text).value))
  {
    NoSpaceInside(text);
    TrimLeaves(before, text, after);
    ColonIsNoIpv4(text);
  }

  /** Every text of an IPv6 address is read as that address, whatever white space surrounds it. */
  lemma EveryIpv6TextIsRead(before: string, f: Form, after: string)
    requires AllSpace(before) && AllSpace(after) && WellFormed(f)
    ensures ParseIp(before + TextOf(f) + after) == Some(V6(Address(f)))
  {
    FormChars(f);
    EveryTextualFormParses(f);
    Ipv6IsRead(before, TextOf(f), after);
  }

  lemma EveryEmbeddedIpv6TextIsRead(before: string, e: EmbeddedForm, after: string)
    requires AllSpace(before) && AllSpace(after) && WellFormedEmbedded(e)
    ensures ParseIp(before + EmbeddedText(e) + after) == Some(V6(EmbeddedAddress(e)))
  {
    LeadingTextIsPlain(e);
    JoinedOctets(e.octets);
    var text := EmbeddedText(e);
    assert text[|LeadingText(e)| - 1] == ':';
    EveryEmbeddedFormParses(e);
    Ipv6IsRead(before, text, after);
  }

  // ---------------------------------------------------------------------------
  // Shifting and bits
  // ---------------------------------------------------------------------------

  lemma TwiceAProduct(a: nat, b: nat)
    ensures 2 * (a * b) == a * (2 * b)
  {
  }

  lemma {:induction false} PowersMultiply(m: nat, n: nat)
    ensures PowN(2, m + n) == PowN(2, m) * PowN(2, n)
  {
    if n == 0 {
    } else {
      PowersMultiply(m, n - 1);
      TwiceAProduct(PowN(2, m), PowN(2, n - 1));
    }
  }

  lemma PowerSquared(n: nat, p: nat)
    requires PowN(2, n) == p
    ensures PowN(2, n + n) == p * p
  {
    PowersMultiply(n, n);
  }

  lemma TopPowers()
    ensures PowN(2, 32) == 0x1_0000_0000 && PowN(2, 128) == 0x1_0000_0000_0000_0000_0000_0000_0000_0000
  {
    assert PowN(2, 4) == 16;
    PowerSquared(4, 16);
    PowerSquared(8, 256);
    PowerSquared(16, 0x1_0000);
    PowerSquared(32, 0x1_0000_0000);
    PowerSquared(64, 0x1_0000_0000_0000_0000);
  }

  /** `v >> n`. */
  function Shr(v: nat, n: nat): nat {
    Quotient(v, PowN(2, n));
    v / PowN(2, n)
  }

  lemma Quotient(v: nat, p: nat)
    requires p > 0
    ensures 0 <= v / p
  {
  }

  /** Bit `i` of a number, the least significant one being bit 0. */
  function Bit(v: nat, i: nat): nat { Shr(v, i) % 2 }

  lemma ShrOnce(v: nat, n: nat)
    ensures Shr(v, n + 1) == Shr(v, n) / 2
  {
    DivTwice(v, PowN(2, n));
  }

  lemma DivTwice(v: nat, p: nat)
    requires p > 0
    ensures v / (2 * p) == v / p / 2
  {
    var q, r := v / p, v % p;
    var h, s := q / 2, q % 2;
    assert v == p * q + r;
    Distribute(p, 2 * h, s);
    Reorder(p, h);
    AtMostOne(p, s);
    QuotientIs(v, 2 * p, h, p * s + r);
  }

  lemma Distribute(a: nat, b: nat, c: nat)
    ensures a * (b + c) == a * b + a * c
  {
  }

  lemma Reorder(p: nat, h: nat)
    ensures p * (2 * h) == (2 * p) * h
  {
  }

  lemma AtMostOne(p: nat, s: nat)
    requires s <= 1
    ensures 0 <= p * s <= p
  {
    if s == 0 { assert p * s == 0; } else { assert p * s == p; }
  }

  lemma QuotientIs(v: nat, d: nat, q: nat, r: nat)
    requires d > 0 && v == d * q + r && r < d
    ensures v / d == q
  {
    var k := v / d;
    assert v == d * k + v % d;
    if k < q { MulGap(d, k, q); }
    if q < k { MulGap(d, q, k); }
  }

  lemma MulGap(d: nat, k: nat, q: nat)
    requires k < q
    ensures d * k + d <= d * q
  {
    Distribute(d, k + 1, q - k - 1);
    Distribute(d, k, 1);
  }

  lemma ShrToNothing(v: nat, n: nat)
    requires v < PowN(2, n)
    ensures Shr(v, n) == 0
  {
    QuotientIs(v, PowN(2, n), 0, v);
  }

  lemma HalvesAndParity(x: nat, y: nat)
    ensures x == y <==> x / 2 == y / 2 && x % 2 == y % 2
  {
  }

  predicate HighBitsAgree(a: nat, b: nat, from: nat, bits: nat) { forall i :: from <= i < bits ==> Bit(a, i) == Bit(b, i) }

  /** Shifting the low bits away compares exactly the bits above them. */
  lemma {:induction false} ShiftComparesHighBits(a: nat, b: nat, shift: nat, bits: nat)
    requires shift <= bits && a < PowN(2, bits) && b < PowN(2, bits)
    ensures Shr(a, shift) == Shr(b, shift) <==> HighBitsAgree(a, b, shift, bits)
    decreases bits - shift
  {
    if shift == bits {
      ShrToNothing(a, bits);
      ShrToNothing(b, bits);
    } else {
      ShiftComparesHighBits(a, b, shift + 1, bits);
      ShrOnce(a, shift);
      ShrOnce(b, shift);
      HalvesAndParity(Shr(a, shift), Shr(b, shift));
      assert Bit(a, shift) == Shr(a, shift) % 2 && Bit(b, shift) == Shr(b, shift) % 2;
      assert HighBitsAgree(a, b, shift, bits) <==> Bit(a, shift) == Bit(b, shift) && HighBitsAgree(a, b, shift + 1, bits);
    }
  }

  // ---------------------------------------------------------------------------
  // Trusted proxies
  // ---------------------------------------------------------------------------

  function FirstSlash(s: string): (k: Option<nat>)
    ensures match k
            case None => '/' !in s
            case Some(i) => i < |s| && s[i] == '/' && '/' !in s[..i]
  {
    if s == "" then None
    else if s[0] == '/' then Some(0)
    else
      match FirstSlash(s[1..])
      case None => None
      case Some(i) => assert s[..i + 1] == [s[0]] + s[1..][..i]; Some(i + 1)
  }

  /** A configured proxy: one address, a prefix of an address, or something that matches nothing. */
  datatype Proxy = Unreadable | Host(ip: ParsedIp) | Network(ip: ParsedIp, prefix: Option<int>)

  /** `toNumber` converts the text after the slash to a number; `None` when that is not an integer. */
  function ReadProxy(proxy: string, toNumber: string -> Option<int>): Proxy {
    match FirstSlash(proxy)
    case None => if ParseIp(proxy).Some? then Host(ParseIp(proxy).value) else Unreadable
    case Some(k) => if ParseIp(proxy[..k]).Some? then Network(ParseIp(proxy[..k]).value, toNumber(proxy[k + 1..])) else Unreadable
  }

  lemma {:induction false} SlashAfter(text: string, rest: string)
    requires '/' !in text
    ensures FirstSlash(text) == None && FirstSlash(text + "/" + rest) == Some(|text|)
  {
    var whole := text + "/" + rest;
    if text == "" {
      assert whole == "/" + rest;
    } else {
      assert text[0] in text && '/' !in text[1..];
      SlashAfter(text[1..], rest);
      assert whole[1..] == text[1..] + "/" + rest;
    }
  }

  /** A proxy without a slash is one address; what precedes the first slash is the prefix's address. */
  lemma ProxyIsRead(text: string, rest: string, toNumber: string -> Option<int>)
    requires '/' !in text
    ensures ReadProxy(text, toNumber) == match ParseIp(text) case None => Unreadable case Some(ip) => Host(ip)
    ensures ReadProxy(text + "/" + rest, toNumber) == match ParseIp(text) case None => Unreadable case Some(ip) => Network(ip, toNumber(rest))
  {
    SlashAfter(text, rest);
    assert (text + "/" + rest)[..|text|] == text && (text + "/" + rest)[|text| + 1..] == rest;
  }

  predicate SameVersion(a: ParsedIp, b: ParsedIp) { a.V4? <==> b.V4? }

  predicate Matches(ip: ParsedIp, proxy: Proxy) {
    match proxy
    case Unreadable => false
    case Host(host) => SameVersion(host, ip) && host.value == ip.value
    case Network(network, prefix) =>
      && SameVersion(network, ip)
      && prefix.Some? && 0 <= prefix.value <= BitLength(ip)
      && Shr(ip.value, BitLength(ip) - prefix.value) == Shr(network.value, BitLength(ip) - prefix.value)
  }

  /** Section 3.1 of RFC 4632: an address matches a prefix exactly when it has the same version and the
      same leading bits, as many as the prefix is long. */
  lemma PrefixMatchesExactlyOnLeadingBits(ip: ParsedIp, network: ParsedIp, prefix: nat)
    requires Fits(ip) && Fits(network) && prefix <= BitLength(ip)
    ensures Matches(ip, Network(network, Some(prefix)))
            <==> SameVersion(network, ip)
                 && HighBitsAgree(ip.value, network.value, BitLength(ip) - prefix, BitLength(ip))
  {
    TopPowers();
    if SameVersion(network, ip) {
      ShiftComparesHighBits(ip.value, network.value, BitLength(ip) - prefix, BitLength(ip));
    }
  }

  /** A prefix that is no whole number from 0 to the width of the address matches nothing, and neither does
      a proxy that cannot be read. */
  lemma OnlyPrefixesInRangeMatch(ip: ParsedIp, proxy: Proxy)
    requires Matches(ip, proxy)
    ensures !proxy.Unreadable? && SameVersion(proxy.ip, ip)
    ensures proxy.Network? ==> proxy.prefix.Some? && 0 <= proxy.prefix.value <= if ip.V4? then 32 else 128
  {
  }

  /** The longest prefix is the address itself. */
  lemma FullPrefixIsTheHost(ip: ParsedIp, network: ParsedIp)
    requires SameVersion(network, ip)
    ensures Matches(ip, Network(network, Some(if ip.V4? then 32 else 128))) <==> ip == network
    ensures Matches(ip, Host(network)) <==> ip == network
  {
    assert Shr(ip.value, 0) == ip.value && Shr(network.value, 0) == network.value;
  }

  predicate IsTrusted(ip: ParsedIp, proxies: seq<string>, toNumber: string -> Option<int>) {
    exists proxy <- proxies :: Matches(ip, ReadProxy(proxy, toNumber))
  }

  /** A hop that can be the client: an address that is not trusted. */
  function GenuineFor(parse: string -> Option<ParsedIp>, trusted: ParsedIp -> bool): string -> bool {
    hop => parse(hop).Some? && !trusted(parse(hop).value)
  }

  // ---------------------------------------------------------------------------
  // The walk
  // ---------------------------------------------------------------------------

  /** The rightmost genuine hop; `None` stands for the unknown client. */
  function Resolve(chain: seq<string>, genuine: string -> bool): Option<string> {
    if chain == [] then None
    else if genuine(chain[|chain| - 1]) then Some(chain[|chain| - 1])
    else Resolve(chain[..|chain| - 1], genuine)
  }

  predicate RightmostGenuine(chain: seq<string>, k: nat, genuine: string -> bool) {
    k < |chain| && genuine(chain[k]) && forall j :: k < j < |chain| ==> !genuine(chain[j])
  }

  /** The client is the rightmost genuine hop, and unknown exactly when no hop is genuine: when every
      hop that can be read is trusted. */
  lemma {:induction false} ClientIsTheRightmostGenuineHop(chain: seq<string>, genuine: string -> bool)
    ensures Resolve(chain, genuine).None? <==> forall k :: 0 <= k < |chain| ==> !genuine(chain[k])
    ensures Resolve(chain, genuine).Some? ==>
              exists k: nat :: RightmostGenuine(chain, k, genuine) && chain[k] == Resolve(chain, genuine).value
  {
    if chain == [] {
    } else {
      var n := |chain| - 1;
      var shorter := chain[..n];
      if genuine(chain[n]) {
        assert RightmostGenuine(chain, n, genuine);
      } else {
        ClientIsTheRightmostGenuineHop(shorter, genuine);
        assert forall k :: 0 <= k < n ==> shorter[k] == chain[k];
        if Resolve(shorter, genuine).Some? {
          var k: nat :| RightmostGenuine(shorter, k, genuine) && shorter[k] == Resolve(shorter, genuine).value;
          assert RightmostGenuine(chain, k, genuine);
        }
      }
    }
  }

  /** Hops put in front of a chain never change a known answer; they are looked at only when no hop of the
      chain is genuine. */
  lemma {:induction false} PrependingNeverChangesAKnownAnswer(extra: seq<string>, chain: seq<string>, genuine: string -> bool)
    ensures Resolve(extra + chain, genuine) ==
              if Resolve(chain, genuine).Some? then Resolve(chain, genuine) else Resolve(extra, genuine)
    decreases |chain|
  {
    if chain == [] {
      assert extra + chain == extra;
    } else {
      var n := |chain| - 1;
      assert (extra + chain)[..|extra| + n] == extra + chain[..n];
      PrependingNeverChangesAKnownAnswer(extra, chain[..n], genuine);
    }
  }

  // ---------------------------------------------------------------------------
  // The program
  // ---------------------------------------------------------------------------

  function HopOf(part: string): seq<string> { if Trim(part) == "" then [] else [Trim(part)] }

  function FlatMap(parts: seq<string>, f: string -> seq<string>): seq<string> {
    if parts == [] then [] else f(parts[0]) + FlatMap(parts[1..], f)
  }

  /** The hops of a forwarding header: split at commas, trimmed, blanks dropped. */
  function Hops(parts: seq<string>): seq<string> { FlatMap(parts, HopOf) }

  function PeerHop(realIp: Option<string>): seq<string> {
    if realIp.None? || Trim(realIp.value) == "" then [] else [Trim(realIp.value)]
  }

  function ForwardedHops(forwarded: Option<string>): seq<string> {
    if forwarded.None? then [] else Hops(Split(forwarded.value, ','))
  }

  function Chain(forwarded: Option<string>, realIp: Option<string>): seq<string> {
    ForwardedHops(forwarded) + PeerHop(realIp)
  }

  lemma AppendInTurn(first: seq<string>, second: seq<string>, third: seq<string>)
    ensures (first + second) + third == first + (second + third)
  {
  }

  lemma {:induction false} FlatMapAppend(first: seq<string>, second: seq<string>, f: string -> seq<string>)
    ensures FlatMap(first + second, f) == FlatMap(first, f) + FlatMap(second, f)
  {
    if first == [] {
      assert first + second == second;
    } else {
      FlatMapAppend(first[1..], second, f);
      assert (first + second)[1..] == first[1..] + second;
      AppendInTurn(f(first[0]), FlatMap(first[1..], f), FlatMap(second, f));
    }
  }

  lemma FlatMapOneMore(parts: seq<string>, i: nat, f: string -> seq<string>)
    requires i < |parts|
    ensures FlatMap(parts[..i + 1], f) == FlatMap(parts[..i], f) + f(parts[i])
  {
    FlatMapAppend(parts[..i], [parts[i]], f);
    assert parts[..i + 1] == parts[..i] + [parts[i]];
    assert FlatMap([parts[i]], f) == f(parts[i]) + FlatMap([], f);
  }

  lemma HopsOneMore(parts: seq<string>, i: nat)
    requires i < |parts|
    ensures Hops(parts[..i + 1]) == if Trim(parts[i]) == "" then Hops(parts[..i]) else Hops(parts[..i]) + [Trim(parts[i])]
  {
    FlatMapOneMore(parts, i, HopOf);
  }

  /** Text put in front of a forwarding header, whatever it is, never changes a known client; it is looked
      at only when neither the header nor the peer names one. */
  lemma PrependedTextNeverChangesAKnownAnswer(
    extra: string, forwarded: string, realIp: Option<string>, genuine: string -> bool)
    ensures Resolve(Chain(Some(extra + "," + forwarded), realIp), genuine) ==
              var known := Resolve(Chain(Some(forwarded), realIp), genuine);
              if known.Some? then known else Resolve(Hops(Split(extra, ',')), genuine)
  {
    SplitAppend(extra, forwarded, ',');
    FlatMapAppend(Split(extra, ','), Split(forwarded, ','), HopOf);
    PrependingNeverChangesAKnownAnswer(Hops(Split(extra, ',')), Chain(Some(forwarded), realIp), genuine);
    AppendInTurn(Hops(Split(extra, ',')), Hops(Split(forwarded, ',')), PeerHop(realIp));
  }

  lemma PeerComesLast(forwarded: Option<string>, peer: string)
    requires Trim(peer) != ""
    ensures Chain(forwarded, Some(peer)) == ForwardedHops(forwarded) + [Trim(peer)]
  {
  }

  lemma LastGenuineHopIsTheClient(before: seq<string>, hop: string, genuine: string -> bool)
    requires genuine(hop)
    ensures Resolve(before + [hop], genuine) == Some(hop)
  {
    assert (before + [hop])[|before|] == hop;
  }

  /** The direct peer comes closest: when it is genuine it is the client, whatever was forwarded. */
  lemma GenuinePeerIsTheClient(forwarded: Option<string>, peer: string, genuine: string -> bool)
    requires Trim(peer) != "" && genuine(Trim(peer))
    ensures Resolve(Chain(forwarded, Some(peer)), genuine) == Some(Trim(peer))
  {
    PeerComesLast(forwarded, peer);
    LastGenuineHopIsTheClient(ForwardedHops(forwarded), Trim(peer), genuine);
  }

  lemma OneHop(hop: string)
    requires Trim(hop) != ""
    ensures Hops([hop]) == [Trim(hop)]
  {
    assert FlatMap([hop], HopOf) == HopOf(hop) + FlatMap([], HopOf);
  }

  lemma PeerAfterHop(hop: string, peer: seq<string>, genuine: string -> bool)
    requires genuine(hop) && |peer| <= 1 && forall p <- peer :: !genuine(p)
    ensures Resolve([hop] + peer, genuine) == Some(hop)
  {
    if |peer| == 1 {
      assert ([hop] + peer)[1] in peer;
      assert ([hop] + peer)[..1] == [hop];
    } else {
      assert [hop] + peer == [hop];
    }
  }

  /** Otherwise the last hop of the header comes closest. */
  lemma GenuineLastHopIsTheClient(forwarded: string, hop: string, realIp: Option<string>, genuine: string -> bool)
    requires ',' !in hop && Trim(hop) != "" && genuine(Trim(hop))
    requires realIp.Some? && Trim(realIp.value) != "" ==> !genuine(Trim(realIp.value))
    ensures Resolve(Chain(Some(hop), realIp), genuine) == Some(Trim(hop))
    ensures Resolve(Chain(Some(forwarded + "," + hop), realIp), genuine) == Some(Trim(hop))
  {
    SplitPrefix(hop, "", ',');
    OneHop(hop);
    PeerAfterHop(Trim(hop), PeerHop(realIp), genuine);
    PrependedTextNeverChangesAKnownAnswer(forwarded, hop, realIp, genuine);
  }

  method ReadHops(forwarded: string) returns (chain: seq<string>)
    ensures chain == Hops(Split(forwarded, ','))
  {
    var parts := Split(forwarded, ',');
    chain := [];
    for i := 0 to |parts|
      invariant chain == Hops(parts[..i])
    {
      HopsOneMore(parts, i);
      var trimmed := Trim(parts[i]);
      if trimmed != "" {
        chain := chain + [trimmed];
      }
    }
    assert parts[..|parts|] == parts;
  }

  /** Walks the chain from the closest hop outward, skipping what cannot be read and what is trusted. */
  method Walk(chain: seq<string>, parse: string -> Option<ParsedIp>, trusted: ParsedIp -> bool) returns (client: Option<string>)
    ensures client == Resolve(chain, GenuineFor(parse, trusted))
  {
    var genuine := GenuineFor(parse, trusted);
    var index := |chain|;
    assert chain[..index] == chain;
    while index > 0
      invariant 0 <= index <= |chain|
      invariant Resolve(chain, genuine) == Resolve(chain[..index], genuine)
    {
      index := index - 1;
      assert chain[..index + 1][..index] == chain[..index];
      var parsed := parse(chain[index]);
      if parsed.None? { continue; }
      if trusted(parsed.value) { continue; }
      return Some(chain[index]);
    }
    return None;
  }

  method ResolveClientIp(forwarded: Option<string>, realIp: Option<string>, proxies: seq<string>, toNumber: string -> Option<int>)
    returns (client: Option<string>)
    ensures client == Resolve(Chain(forwarded, realIp), GenuineFor(ParseIp, ip => IsTrusted(ip, proxies, toNumber)))
  {
    var chain: seq<string> := [];
    if forwarded.Some? {
      chain := ReadHops(forwarded.value);
    }
    if realIp.Some? {
      var peer := Trim(realIp.value);
      if peer != "" {
        chain := chain + [peer];
      }
    }
    assert chain == Chain(forwarded, realIp);
    client := Walk(chain, ParseIp, ip => IsTrusted(ip, proxies, toNumber));
  }
}
