/** The firewall: a list of rules scanned linearly, and an index of the same rules grouped by
    source prefix. */
module Firewall {
  import opened Options

  // ---------------------------------------------------------------------------
  // IP addresses and prefixes
  // ---------------------------------------------------------------------------

  const WORD: int := 0x1_0000_0000

  type Bits32 = n: int | 0 <= n < WORD

  type Bits128 = n: int | 0 <= n < WORD * WORD * WORD * WORD

  /** An address as the library holds it: absent, 4 bytes, or 16 bytes. */
  datatype Ip = NoIp | Ip4(n: Bits32) | Ip16(b: Bits128)

  /** The IPv4 reading of an address: 4-byte addresses and IPv4-mapped 16-byte ones have one. */
  function To4(ip: Ip): Option<Bits32> {
    match ip
    case NoIp => None
    case Ip4(n) => Some(n)
    case Ip16(b) => if b / WORD == 0xffff then Some(b % WORD) else None
  }

  /** Address equality; an IPv4 address equals its IPv4-mapped form. */
  predicate Equal(a: Ip, b: Ip) {
    match (a, b)
    case (NoIp, NoIp) => true
    case (Ip4(m), Ip4(n)) => m == n
    case (Ip16(m), Ip16(n)) => m == n
    case (Ip4(m), Ip16(_)) => To4(b) == Some(m)
    case (Ip16(_), Ip4(n)) => To4(a) == Some(n)
    case _ => false
  }

  datatype Mask = Mask4(ones: nat) | Mask16(ones: nat)

  datatype IpNet = IpNet(ip: Ip, mask: Mask)

  /** A network in canonical form: its first `ones` bits are significant. */
  datatype Prefix = Prefix4(n: Bits32, ones: nat) | Prefix16(b: Bits128, ones: nat)

  function Pow2(n: nat): (p: nat)
    ensures p > 0
  {
    if n == 0 then 1 else 2 * Pow2(n - 1)
  }

  /** The size of the block of addresses that share the first `ones` of `width` bits. */
  function Block(width: nat, ones: nat): (p: nat)
    ensures p > 0
  {
    if ones >= width then 1 else Pow2(width - ones)
  }

  /** Network number and mask, reading IPv4-mapped networks as IPv4; none for a malformed network. */
  function Canonical(net: IpNet): Option<Prefix> {
    match (To4(net.ip), net.mask)
    case (Some(n), Mask4(ones)) => Some(Prefix4(n, ones))
    case (Some(n), Mask16(ones)) => Some(Prefix4(n, if ones <= 96 then 0 else ones - 96))
    case (None, Mask16(ones)) => if net.ip.Ip16? then Some(Prefix16(net.ip.b, ones)) else None
    case (None, Mask4(_)) => None
  }

  /** The address lies in the prefix: same family, same leading bits. */
  predicate InPrefix(p: Prefix, ip: Ip) {
    match (p, To4(ip))
    case (Prefix4(n, ones), Some(x)) => x / Block(32, ones) == n / Block(32, ones)
    case (Prefix16(b, ones), None) => ip.Ip16? && ip.b / Block(128, ones) == b / Block(128, ones)
    case _ => false
  }

  /** Library containment; a malformed network has no bytes to compare and so contains only the
      absent address. */
  predicate Contains(net: IpNet, ip: Ip) {
    match Canonical(net)
    case Some(p) => InPrefix(p, ip)
    case None => ip == NoIp
  }

  /** A single address as a network of one. */
  function IpToNetwork(ip: Ip): IpNet {
    if To4(ip) != None then IpNet(ip, Mask4(32)) else IpNet(ip, Mask16(128))
  }

  /** The network of one contains exactly the addresses equal to it. */
  lemma SingletonNetwork(ip: Ip, x: Ip)
    ensures Contains(IpToNetwork(ip), x) <==> Equal(ip, x)
  {
    if ip.Ip16? && x.Ip16? {
      assert ip.b == ip.b / WORD * WORD + ip.b % WORD;
      assert x.b == x.b / WORD * WORD + x.b % WORD;
    }
  }

  // ---------------------------------------------------------------------------
  // What is compared, bit by bit
  // ---------------------------------------------------------------------------

  /** Drops the last bits of a number, one at a time. */
  function DropBits(x: nat, count: nat): nat {
    if count == 0 then x else DropBits(x / 2, count - 1)
  }

  lemma HalfThenDivide(x: nat, p: nat)
    requires p > 0
    ensures x / 2 / p == x / (2 * p)
  {
    var h, q := x / 2, x / 2 / p;
    assert h == q * p + h % p;
    var r := 2 * (h % p) + x % 2;
    assert x == q * (2 * p) + r && 0 <= r < 2 * p;
    QuotientUnique(x, 2 * p, q, r);
  }

  lemma QuotientUnique(x: nat, p: nat, q: nat, r: nat)
    requires x == q * p + r && r < p
    ensures x / p == q
  {
    var d := q - x / p;
    assert x == x / p * p + x % p;
    assert d * p == x % p - r;
    if d > 0 { AtLeastOne(d, p); } else if d < 0 { AtLeastOne(-d, p); }
  }

  lemma {:induction false} DropBitsIsQuotient(x: nat, count: nat)
    ensures DropBits(x, count) == x / Pow2(count)
  {
    if count == 0 {
    } else {
      DropBitsIsQuotient(x / 2, count - 1);
      HalfThenDivide(x, Pow2(count - 1));
    }
  }

  /** The numbers agree in the first `ones` of `width` bits. */
  predicate SameLeadingBits(width: nat, ones: nat, a: nat, b: nat) {
    var count := if ones < width then width - ones else 0;
    DropBits(a, count) == DropBits(b, count)
  }

  lemma BlockComparesBits(width: nat, ones: nat, a: nat, b: nat)
    ensures a / Block(width, ones) == b / Block(width, ones) <==> SameLeadingBits(width, ones, a, b)
  {
    if ones < width {
      DropBitsIsQuotient(a, width - ones);
      DropBitsIsQuotient(b, width - ones);
    }
  }

  /** A prefix holds exactly the addresses of its family that agree with it in its leading bits. */
  lemma PrefixComparesBits(p: Prefix, ip: Ip)
    ensures InPrefix(p, ip)
       <==> match p
            case Prefix4(n, ones) => To4(ip).Some? && SameLeadingBits(32, ones, n, To4(ip).value)
            case Prefix16(b, ones) => ip.Ip16? && To4(ip).None? && SameLeadingBits(128, ones, b, ip.b)
  {
    match p
    case Prefix4(n, ones) =>
      if To4(ip).Some? { BlockComparesBits(32, ones, To4(ip).value, n); }
    case Prefix16(b, ones) =>
      if ip.Ip16? { BlockComparesBits(128, ones, ip.b, b); }
  }

  /** An address as 16 bytes, an IPv4 address in its mapped form. */
  function As16(ip: Ip): Option<Bits128> {
    match ip
    case NoIp => None
    case Ip4(n) => Some(0xffff * WORD + n)
    case Ip16(b) => Some(b)
  }

  lemma MappedOnly(b: Bits128, n: Bits32)
    ensures To4(Ip16(b)) == Some(n) <==> b == 0xffff * WORD + n
  {
    assert b == b / WORD * WORD + b % WORD;
  }

  /** Two addresses are equal exactly if they are the same 16 bytes. */
  lemma EqualSameBytes(a: Ip, b: Ip)
    ensures Equal(a, b) <==> As16(a) == As16(b)
  {
    match (a, b)
    case (Ip4(m), Ip16(n)) => MappedOnly(n, m);
    case (Ip16(m), Ip4(n)) => MappedOnly(m, n);
    case _ =>
  }

  /** A network holds an address: both are IPv4, mapped or not, or both are not, and the masked bits agree. The
      first 96 bits of a 16-byte mask do not count for an IPv4 network. */
  predicate Inside(net: IpNet, ip: Ip) {
    if To4(net.ip).Some? then
      && To4(ip).Some?
      && SameLeadingBits(if net.mask.Mask4? then 32 else 128, net.mask.ones,
                         Bytes(net.mask, To4(net.ip).value), Bytes(net.mask, To4(ip).value))
    else if net.ip.Ip16? && net.mask.Mask16? then
      ip.Ip16? && To4(ip).None? && SameLeadingBits(128, net.mask.ones, net.ip.b, ip.b)
    else ip == NoIp
  }

  /** An IPv4 number as wide as the mask. */
  function Bytes(mask: Mask, n: Bits32): nat {
    if mask.Mask4? then n else 0xffff * WORD + n
  }

  lemma {:induction false} DropLowBits(high: nat, width: nat, n: nat, count: nat)
    requires count <= width
    ensures DropBits(high * Pow2(width) + n, count) == high * Pow2(width - count) + DropBits(n, count)
  {
    if count == 0 {
    } else {
      var half := high * Pow2(width - 1);
      assert high * Pow2(width) == 2 * half;
      assert (2 * half + n) / 2 == half + n / 2;
      DropLowBits(high, width - 1, n / 2, count - 1);
    }
  }

  lemma {:induction false} DropBitsTwice(x: nat, a: nat, b: nat)
    ensures DropBits(x, a + b) == DropBits(DropBits(x, a), b)
  {
    if a == 0 {
    } else {
      DropBitsTwice(x / 2, a - 1, b);
    }
  }

  lemma {:induction false} Pow2Sum(a: nat, b: nat)
    ensures Pow2(a + b) == Pow2(a) * Pow2(b)
  {
    if a == 0 {
    } else {
      Pow2Sum(a - 1, b);
    }
  }

  lemma WordIsPow2()
    ensures Pow2(32) == WORD
  {
    assert Pow2(2) == 4;
    Pow2Sum(2, 2);
    Pow2Sum(4, 4);
    Pow2Sum(8, 8);
    Pow2Sum(16, 16);
  }

  lemma DropWord(n: Bits32)
    ensures DropBits(n, 32) == 0
  {
    DropBitsIsQuotient(n, 32);
    WordIsPow2();
  }

  /** In mapped form, all bits up to the 96th agree, and from there on they are those of the IPv4 numbers. */
  lemma MappedBits(ones: nat, a: Bits32, b: Bits32)
    ensures SameLeadingBits(128, ones, 0xffff * WORD + a, 0xffff * WORD + b)
       <==> SameLeadingBits(32, if ones <= 96 then 0 else ones - 96, a, b)
  {
    WordIsPow2();
    DropWord(a);
    DropWord(b);
    if ones <= 96 {
      DropLowBits(0xffff, 32, a, 32);
      DropLowBits(0xffff, 32, b, 32);
      DropBitsTwice(0xffff * WORD + a, 32, 96 - ones);
      DropBitsTwice(0xffff * WORD + b, 32, 96 - ones);
    } else if ones < 128 {
      DropLowBits(0xffff, 32, a, 128 - ones);
      DropLowBits(0xffff, 32, b, 128 - ones);
    }
  }

  /** Library containment is containment bit by bit. */
  lemma ContainsIffInside(net: IpNet, ip: Ip)
    ensures Contains(net, ip) <==> Inside(net, ip)
  {
    if Canonical(net).Some? {
      PrefixComparesBits(Canonical(net).value, ip);
    }
    if To4(net.ip).Some? && To4(ip).Some? && net.mask.Mask16? {
      MappedBits(net.mask.ones, To4(net.ip).value, To4(ip).value);
    }
  }

  // ---------------------------------------------------------------------------
  // Network text
  // ---------------------------------------------------------------------------

  /** Clears the bits after the prefix. */
  function Masked(p: Prefix): Prefix {
    match p
    case Prefix4(n, ones) => MaskBound(n, Block(32, ones)); Prefix4(n / Block(32, ones) * Block(32, ones), ones)
    case Prefix16(b, ones) => MaskBound(b, Block(128, ones)); Prefix16(b / Block(128, ones) * Block(128, ones), ones)
  }

  lemma MaskBound(x: int, p: nat)
    requires x >= 0 && p > 0
    ensures 0 <= x / p * p <= x
    ensures (x / p * p) / p == x / p
  {
    var q := x / p;
    assert x == q * p + x % p;
    assert q >= 0;
    DivideBack(q, p);
  }

  lemma AtLeastOne(d: int, p: nat)
    requires d >= 1
    ensures d * p >= p
  {
    assert d * p == (d - 1) * p + p;
  }

  lemma DivideBack(q: int, p: nat)
    requires p > 0
    ensures (q * p) / p == q
  {
    var x := q * p;
    var r, m := x / p, x % p;
    assert x == r * p + m && 0 <= m < p;
    assert (q - r) * p == m && (r - q) * p == -m;
    if q > r {
      AtLeastOne(q - r, p);
    } else if q < r {
      AtLeastOne(r - q, p);
    }
  }

  /** How the library prints a network and parses it back. Printing goes through the canonical
      form, and a malformed network prints as a text that does not parse. */
  datatype Text = Text(show: Option<Prefix> -> string, parse: string -> Option<Prefix>)

  /** Parsing what was printed gives the same network with its host bits cleared. */
  ghost predicate RoundTrips(text: Text) {
    && (forall p :: text.parse(text.show(Some(p))) == Some(Masked(p)))
    && text.parse(text.show(None)) == None
  }

  lemma MaskedContainsSame(p: Prefix, ip: Ip)
    ensures InPrefix(Masked(p), ip) <==> InPrefix(p, ip)
  {
    match p
    case Prefix4(n, ones) => MaskBound(n, Block(32, ones));
    case Prefix16(b, ones) => MaskBound(b, Block(128, ones));
  }

  lemma MaskedIsLeast(x: nat, n: nat, p: nat)
    requires p > 0 && x / p == n / p
    ensures n / p * p <= x
  {
    MaskBound(x, p);
  }

  /** Clearing the host bits gives the first address of the prefix. */
  lemma MaskedIsFirst(p: Prefix, x: nat)
    ensures Masked(p).ones == p.ones
    ensures match p
            case Prefix4(n, ones) =>
              && SameLeadingBits(32, ones, n, Masked(p).n)
              && (SameLeadingBits(32, ones, n, x) ==> Masked(p).n <= x)
            case Prefix16(b, ones) =>
              && SameLeadingBits(128, ones, b, Masked(p).b)
              && (SameLeadingBits(128, ones, b, x) ==> Masked(p).b <= x)
  {
    match p
    case Prefix4(n, ones) =>
      MaskBound(n, Block(32, ones));
      BlockComparesBits(32, ones, n, Masked(p).n);
      BlockComparesBits(32, ones, n, x);
      if SameLeadingBits(32, ones, n, x) { MaskedIsLeast(x, n, Block(32, ones)); }
    case Prefix16(b, ones) =>
      MaskBound(b, Block(128, ones));
      BlockComparesBits(128, ones, b, Masked(p).b);
      BlockComparesBits(128, ones, b, x);
      if SameLeadingBits(128, ones, b, x) { MaskedIsLeast(x, b, Block(128, ones)); }
  }

  // ---------------------------------------------------------------------------
  // The linear firewall
  // ---------------------------------------------------------------------------

  /** A rule allows a source to reach a destination. Each end is a network if one is given, and
      otherwise a single address, which is absent when a stored rule left it out. */
  datatype Rule = Rule(sourceNet: Option<IpNet>, sourceIp: Ip, destNet: Option<IpNet>, destIp: Ip)

  predicate MatchesSource(rule: Rule, ip: Ip) {
    if rule.sourceNet.Some? then Contains(rule.sourceNet.value, ip) else Equal(rule.sourceIp, ip)
  }

  predicate MatchesDest(rule: Rule, ip: Ip) {
    if rule.destNet.Some? then Contains(rule.destNet.value, ip) else Equal(rule.destIp, ip)
  }

  predicate Matches(rule: Rule, source: Ip, dest: Ip) {
    MatchesSource(rule, source) && MatchesDest(rule, dest)
  }

  /** Reference semantics: everything is allowed when there are no rules, and otherwise what some
      rule matches. */
  predicate Allowed(rules: seq<Rule>, source: Ip, dest: Ip) {
    rules == [] || exists i :: 0 <= i < |rules| && Matches(rules[i], source, dest)
  }

  /** An end of a rule fits an address: the network it gives holds it bit by bit, or it is the same address. */
  predicate EndFits(net: Option<IpNet>, single: Ip, ip: Ip) {
    if net.Some? then Inside(net.value, ip) else As16(single) == As16(ip)
  }

  /** The decision, rule by rule and bit by bit: without rules everything is allowed; the first rule forbids all
      but what it fits, and every further rule allows what it fits besides. */
  lemma AllowedRuleByRule(rules: seq<Rule>, rule: Rule, source: Ip, dest: Ip)
    ensures Allowed([], source, dest)
    ensures Allowed(rules + [rule], source, dest)
       <==> || (rules != [] && Allowed(rules, source, dest))
            || (EndFits(rule.sourceNet, rule.sourceIp, source) && EndFits(rule.destNet, rule.destIp, dest))
  {
    var all := rules + [rule];
    RuleFits(rule, source, dest);
    assert all[|rules|] == rule && forall i :: 0 <= i < |rules| ==> all[i] == rules[i];
  }

  /** Both ends of the rule fit. */
  predicate Fits(rule: Rule, source: Ip, dest: Ip) {
    EndFits(rule.sourceNet, rule.sourceIp, source) && EndFits(rule.destNet, rule.destIp, dest)
  }

  lemma AllowedIffFits(rules: seq<Rule>, source: Ip, dest: Ip)
    ensures Allowed(rules, source, dest)
       <==> rules == [] || exists i :: 0 <= i < |rules| && Fits(rules[i], source, dest)
  {
    forall i | 0 <= i < |rules| ensures Matches(rules[i], source, dest) <==> Fits(rules[i], source, dest) {
      RuleFits(rules[i], source, dest);
    }
  }

  lemma RuleFits(rule: Rule, source: Ip, dest: Ip)
    ensures Matches(rule, source, dest)
       <==> EndFits(rule.sourceNet, rule.sourceIp, source) && EndFits(rule.destNet, rule.destIp, dest)
  {
    if rule.sourceNet.Some? { ContainsIffInside(rule.sourceNet.value, source); }
    if rule.destNet.Some? { ContainsIffInside(rule.destNet.value, dest); }
    EqualSameBytes(rule.sourceIp, source);
    EqualSameBytes(rule.destIp, dest);
  }

  /** The addresses whose destination may be reached, in order. `destOf` is the host:port parser;
      addresses it cannot read are dropped. */
  function Filtered(allowed: Ip -> bool, destOf: string -> Ip, addresses: seq<string>): seq<string> {
    if addresses == [] then []
    else
      var rest := Filtered(allowed, destOf, addresses[..|addresses| - 1]);
      var last := addresses[|addresses| - 1];
      if destOf(last) != NoIp && allowed(destOf(last)) then rest + [last] else rest
  }

  lemma FilteredNext(allowed: Ip -> bool, destOf: string -> Ip, addresses: seq<string>, i: nat)
    requires i < |addresses|
    ensures Filtered(allowed, destOf, addresses[..i + 1])
         == Filtered(allowed, destOf, addresses[..i])
            + if destOf(addresses[i]) != NoIp && allowed(destOf(addresses[i])) then [addresses[i]] else []
  {
    assert addresses[..i + 1][..i] == addresses[..i];
  }

  function Reach(rules: seq<Rule>, source: Ip): Ip -> bool {
    (dest: Ip) => Allowed(rules, source, dest)
  }

  /** What a filter returns for a rule list; with no rules the list is returned untouched. */
  function Permitted(rules: seq<Rule>, source: Ip, destOf: string -> Ip, addresses: seq<string>): seq<string> {
    if rules == [] then addresses else Filtered(Reach(rules, source), destOf, addresses)
  }

  /** Filtering decides about each address by itself and keeps the order: unreadable addresses are dropped, but
      only when there are rules. */
  lemma PermittedEach(rules: seq<Rule>, source: Ip, destOf: string -> Ip, addresses: seq<string>, a: string)
    ensures Permitted(rules, source, destOf, addresses + [a])
         == Permitted(rules, source, destOf, addresses)
            + if rules == [] || (destOf(a) != NoIp && Allowed(rules, source, destOf(a))) then [a] else []
    ensures Permitted(rules, source, destOf, []) == []
  {
    assert (addresses + [a])[..|addresses|] == addresses;
  }

  class LinearFirewall {
    var rules: seq<Rule>

    constructor ()
      ensures rules == []
    {
      rules := [];
    }

    method IsAllowed(source: Ip, dest: Ip) returns (allowed: bool)
      ensures allowed <==> Allowed(rules, source, dest)
      ensures allowed <==> rules == [] || exists i :: 0 <= i < |rules| && Fits(rules[i], source, dest)
    {
      AllowedIffFits(rules, source, dest);
      if |rules| == 0 { return true; }
      for i := 0 to |rules|
        invariant forall j :: 0 <= j < i ==> !Matches(rules[j], source, dest)
      {
        if MatchesSource(rules[i], source) && MatchesDest(rules[i], dest) { return true; }
      }
      return false;
    }

    method FilterAddresses(source: Ip, destOf: string -> Ip, addresses: seq<string>) returns (allowed: seq<string>)
      ensures allowed == Permitted(rules, source, destOf, addresses)
    {
      if |rules| == 0 { return addresses; }
      allowed := [];
      for i := 0 to |addresses|
        invariant allowed == Filtered(Reach(rules, source), destOf, addresses[..i])
      {
        FilteredNext(Reach(rules, source), destOf, addresses, i);
        var dest := destOf(addresses[i]);
        if dest != NoIp {
          var ok := IsAllowed(source, dest);
          if ok { allowed := allowed + [addresses[i]]; }
        }
      }
      assert addresses[..|addresses|] == addresses;
    }
  }

  // ---------------------------------------------------------------------------
  // The index
  // ---------------------------------------------------------------------------

  type Index = map<string, seq<IpNet>>

  function SourceKey(text: Text, rule: Rule): string {
    text.show(Canonical(if rule.sourceNet.Some? then rule.sourceNet.value else IpToNetwork(rule.sourceIp)))
  }

  function DestNetwork(rule: Rule): IpNet {
    if rule.destNet.Some? then rule.destNet.value else IpToNetwork(rule.destIp)
  }

  function AddRule(text: Text, index: Index, rule: Rule): Index {
    var key := SourceKey(text, rule);
    index[key := (if key in index then index[key] else []) + [DestNetwork(rule)]]
  }

  function BuildIndex(text: Text, rules: seq<Rule>): Index {
    if rules == [] then map[]
    else AddRule(text, BuildIndex(text, rules[..|rules| - 1]), rules[|rules| - 1])
  }

  predicate SourceMatches(text: Text, key: string, ip: Ip) {
    match text.parse(key)
    case Some(p) => InPrefix(p, ip)
    case None => false
  }

  /** Some group whose source matches lists a destination network that contains `dest`. */
  predicate GroupMatches(text: Text, index: Index, source: Ip, dest: Ip) {
    exists key :: key in index && SourceMatches(text, key, source) && AnyContains(index[key], dest)
  }

  predicate AnyContains(nets: seq<IpNet>, dest: Ip) {
    exists i :: 0 <= i < |nets| && Contains(nets[i], dest)
  }

  predicate IndexAllows(text: Text, index: Index, source: Ip, dest: Ip) {
    index == map[] || GroupMatches(text, index, source, dest)
  }

  // ---------------------------------------------------------------------------
  // Agreement
  // ---------------------------------------------------------------------------

  /** A rule whose source denotes no address at all: left out, or a malformed network. */
  predicate VoidSource(rule: Rule) {
    Canonical(if rule.sourceNet.Some? then rule.sourceNet.value else IpToNetwork(rule.sourceIp)).None?
  }

  /** Looking a rule up by its printed source decides like the rule itself, except that a void
      source matches an absent address only in the linear scan. */
  lemma KeyMatches(text: Text, rule: Rule, source: Ip)
    requires RoundTrips(text)
    ensures SourceMatches(text, SourceKey(text, rule), source) <==> MatchesSource(rule, source) && !VoidSource(rule)
    ensures VoidSource(rule) ==> (MatchesSource(rule, source) <==> source == NoIp)
    ensures !VoidSource(rule) ==> (MatchesSource(rule, source) ==> source != NoIp)
  {
    var net := if rule.sourceNet.Some? then rule.sourceNet.value else IpToNetwork(rule.sourceIp);
    if rule.sourceNet.None? { SingletonNetwork(rule.sourceIp, source); }
    if Canonical(net).Some? { MaskedContainsSame(Canonical(net).value, source); }
  }

  lemma AnyContainsAppend(nets: seq<IpNet>, net: IpNet, dest: Ip)
    ensures AnyContains(nets + [net], dest) <==> AnyContains(nets, dest) || Contains(net, dest)
  {
    if AnyContains(nets, dest) {
      var i :| 0 <= i < |nets| && Contains(nets[i], dest);
      assert (nets + [net])[i] == nets[i];
    }
    assert (nets + [net])[|nets|] == net;
  }

  /** Adding a rule changes the group of its source only, which then also contains the rule's destination. */
  lemma AddRuleGroup(text: Text, index: Index, rule: Rule, dest: Ip, k: string)
    ensures var key, after := SourceKey(text, rule), AddRule(text, index, rule);
            && (k in after <==> k in index || k == key)
            && (k in after ==>
                  (AnyContains(after[k], dest)
                   <==> (k in index && AnyContains(index[k], dest)) || (k == key && MatchesDest(rule, dest))))
  {
    var key := SourceKey(text, rule);
    AnyContainsAppend(if key in index then index[key] else [], DestNetwork(rule), dest);
    if rule.destNet.None? { SingletonNetwork(rule.destIp, dest); }
  }

  lemma AddRuleMatches(text: Text, index: Index, rule: Rule, source: Ip, dest: Ip)
    requires RoundTrips(text)
    ensures GroupMatches(text, AddRule(text, index, rule), source, dest)
       <==> GroupMatches(text, index, source, dest)
            || (SourceMatches(text, SourceKey(text, rule), source) && MatchesDest(rule, dest))
  {
    var key, after := SourceKey(text, rule), AddRule(text, index, rule);
    AddRuleGroup(text, index, rule, dest, key);
    if k :| k in index && SourceMatches(text, k, source) && AnyContains(index[k], dest) {
      AddRuleGroup(text, index, rule, dest, k);
      assert k in after && SourceMatches(text, k, source) && AnyContains(after[k], dest);
    }
    if k :| k in after && SourceMatches(text, k, source) && AnyContains(after[k], dest) {
      AddRuleGroup(text, index, rule, dest, k);
    }
    if SourceMatches(text, key, source) && MatchesDest(rule, dest) {
      assert key in after && AnyContains(after[key], dest);
    }
  }

  /** The index matches exactly when some rule with a proper source does. */
  /** Some rule that names a source matches. */
  ghost predicate SomeRuleMatches(rules: seq<Rule>, source: Ip, dest: Ip) {
    exists i :: 0 <= i < |rules| && Matches(rules[i], source, dest) && !VoidSource(rules[i])
  }

  lemma {:induction false} IndexMatches(text: Text, rules: seq<Rule>, source: Ip, dest: Ip)
    requires RoundTrips(text)
    ensures GroupMatches(text, BuildIndex(text, rules), source, dest)
       <==> SomeRuleMatches(rules, source, dest)
    ensures BuildIndex(text, rules) == map[] <==> rules == []
  {
    if rules == [] {
    } else {
      var init, last := rules[..|rules| - 1], rules[|rules| - 1];
      IndexMatches(text, init, source, dest);
      AddRuleMatches(text, BuildIndex(text, init), last, source, dest);
      KeyMatches(text, last, source);
      assert SourceKey(text, last) in BuildIndex(text, rules);
      SomeRuleMatchesAppend(init, last, source, dest);
      assert rules == init + [last];
    }
  }

  lemma SomeRuleMatchesAppend(init: seq<Rule>, last: Rule, source: Ip, dest: Ip)
    ensures SomeRuleMatches(init + [last], source, dest)
       <==> SomeRuleMatches(init, source, dest) || (Matches(last, source, dest) && !VoidSource(last))
  {
    var rules := init + [last];
    assert rules[|init|] == last && forall i :: 0 <= i < |init| ==> rules[i] == init[i];
  }

  /** The indexed firewall decides like the linear one for every rule list, source and destination,
      with one exception: an absent source address, which the linear scan lets match a rule whose
      own source is void. */
  lemma IndexAgrees(text: Text, rules: seq<Rule>, source: Ip, dest: Ip)
    requires RoundTrips(text)
    ensures IndexAllows(text, BuildIndex(text, rules), source, dest) == Allowed(rules, source, dest)
       <==> !(source == NoIp && exists i :: 0 <= i < |rules| && VoidSource(rules[i]) && MatchesDest(rules[i], dest))
  {
    IndexMatches(text, rules, source, dest);
    forall i | 0 <= i < |rules|
      ensures Matches(rules[i], source, dest) && VoidSource(rules[i]) ==> source == NoIp
      ensures source == NoIp && VoidSource(rules[i]) ==> MatchesSource(rules[i], source)
      ensures source == NoIp && !VoidSource(rules[i]) ==> !MatchesSource(rules[i], source)
    {
      KeyMatches(text, rules[i], source);
    }
  }

  /** The exception is real: a stored rule without a source lets an absent address through the
      linear scan and not through the index. */
  lemma AbsentSourceDisagrees(text: Text)
    requires RoundTrips(text)
    ensures var rules := [Rule(None, NoIp, None, Ip4(1))];
            Allowed(rules, NoIp, Ip4(1)) && !IndexAllows(text, BuildIndex(text, rules), NoIp, Ip4(1))
  {
    var rules := [Rule(None, NoIp, None, Ip4(1))];
    assert VoidSource(rules[0]) && Matches(rules[0], NoIp, Ip4(1));
    IndexAgrees(text, rules, NoIp, Ip4(1));
  }

  function IndexReach(text: Text, index: Index, source: Ip): Ip -> bool {
    (dest: Ip) => GroupMatches(text, index, source, dest)
  }

  /** What the indexed filter returns; with an empty index the list is returned untouched. */
  function IndexPermitted(text: Text, index: Index, source: Ip, destOf: string -> Ip, addresses: seq<string>)
    : seq<string>
  {
    if index == map[] then addresses else Filtered(IndexReach(text, index, source), destOf, addresses)
  }

  /** A readable address on which the two decisions differ. */
  predicate Differs(destOf: string -> Ip, p: Ip -> bool, q: Ip -> bool, address: string) {
    destOf(address) != NoIp && p(destOf(address)) != q(destOf(address))
  }

  /** A filter that lets through less returns a shorter list, unless the two never differ. */
  lemma {:induction false} FilteredLess(p: Ip -> bool, q: Ip -> bool, destOf: string -> Ip, addresses: seq<string>)
    requires forall d :: p(d) ==> q(d)
    ensures |Filtered(p, destOf, addresses)| <= |Filtered(q, destOf, addresses)|
    ensures (exists a :: a in addresses && Differs(destOf, p, q, a))
            ==> |Filtered(p, destOf, addresses)| < |Filtered(q, destOf, addresses)|
    ensures (forall a :: a in addresses ==> !Differs(destOf, p, q, a))
            ==> Filtered(p, destOf, addresses) == Filtered(q, destOf, addresses)
  {
    if addresses == [] {
    } else {
      var init, last := addresses[..|addresses| - 1], addresses[|addresses| - 1];
      FilteredLess(p, q, destOf, init);
      assert forall a :: a in addresses <==> a in init || a == last by {
        assert addresses == init + [last];
      }
      if Differs(destOf, p, q, last) || exists a :: a in init && Differs(destOf, p, q, a) {
        assert p(destOf(last)) ==> q(destOf(last));
      } else {
        assert !Differs(destOf, p, q, last);
      }
    }
  }

  /** The address is readable and only a rule without a source lets an absent source reach it. */
  predicate OnlyByVoidRule(rules: seq<Rule>, source: Ip, dest: Ip) {
    && source == NoIp && dest != NoIp
    && exists i :: 0 <= i < |rules| && VoidSource(rules[i]) && MatchesDest(rules[i], dest)
  }

  lemma ReachDiffers(text: Text, rules: seq<Rule>, source: Ip, dest: Ip)
    requires RoundTrips(text) && rules != []
    ensures var p, q := IndexReach(text, BuildIndex(text, rules), source), Reach(rules, source);
            (p(dest) ==> q(dest)) && (dest != NoIp ==> (p(dest) != q(dest) <==> OnlyByVoidRule(rules, source, dest)))
  {
    IndexAgrees(text, rules, source, dest);
    IndexMatches(text, rules, source, dest);
  }

  /** Both filters return the same addresses in the same order, for every rule list and every source, if
      and only if no listed address is reached by an absent source through a rule without a source. */
  lemma FiltersAgree(text: Text, rules: seq<Rule>, source: Ip, destOf: string -> Ip, addresses: seq<string>)
    requires RoundTrips(text)
    ensures IndexPermitted(text, BuildIndex(text, rules), source, destOf, addresses)
            == Permitted(rules, source, destOf, addresses)
       <==> forall a :: a in addresses ==> !OnlyByVoidRule(rules, source, destOf(a))
  {
    IndexMatches(text, rules, source, NoIp);
    if rules != [] {
      var p, q := IndexReach(text, BuildIndex(text, rules), source), Reach(rules, source);
      forall d ensures p(d) ==> q(d) { ReachDiffers(text, rules, source, d); }
      forall a ensures Differs(destOf, p, q, a) <==> OnlyByVoidRule(rules, source, destOf(a)) {
        ReachDiffers(text, rules, source, destOf(a));
      }
      FilteredLess(p, q, destOf, addresses);
    }
  }

  class IndexedFirewall {
    const text: Text
    var index: Index
    var totalChecks: nat
    var totalAllowed: nat
    var totalBlocked: nat
    ghost var rules: seq<Rule>  // the rules the index was built from

    ghost predicate Valid()
      reads this
    {
      index == BuildIndex(text, rules) && totalChecks == totalAllowed + totalBlocked
    }

    constructor (text: Text)
      ensures this.text == text && Valid() && rules == []
    {
      this.text := text;
      index := map[];
      totalChecks, totalAllowed, totalBlocked := 0, 0, 0;
      rules := [];
    }

    /** Rebuilds the index from the provider's rules; when the provider fails the old index stays. */
    method RebuildIndex(provided: Option<seq<Rule>>) returns (ok: bool)
      requires Valid()
      modifies this`index, this`rules
      ensures Valid()
      ensures ok == provided.Some?
      ensures rules == if ok then provided.value else old(rules)
    {
      if provided.None? { return false; }
      var newIndex: Index := map[];
      for i := 0 to |provided.value|
        invariant newIndex == BuildIndex(text, provided.value[..i])
      {
        var rule := provided.value[i];
        assert provided.value[..i + 1][..i] == provided.value[..i];
        var key := SourceKey(text, rule);
        var dest := if rule.destNet.Some? then rule.destNet.value else IpToNetwork(rule.destIp);
        newIndex := newIndex[key := (if key in newIndex then newIndex[key] else []) + [dest]];
      }
      assert provided.value[..|provided.value|] == provided.value;
      index, rules := newIndex, provided.value;
      return true;
    }

    /** Scans the groups, in no particular order, for one that lets `source` reach `dest`. */
    method ScanGroups(source: Ip, dest: Ip) returns (found: bool)
      ensures found <==> GroupMatches(text, index, source, dest)
    {
      var todo := index.Keys;
      while todo != {}
        invariant todo <= index.Keys
        invariant forall key :: key in index && key !in todo ==>
                    !(SourceMatches(text, key, source) && AnyContains(index[key], dest))
      {
        var key :| key in todo;
        if SourceMatches(text, key, source) {
          var hit := ScanNetworks(index[key], dest);
          if hit { return true; }
        }
        todo := todo - {key};
      }
      return false;
    }

    static method ScanNetworks(nets: seq<IpNet>, dest: Ip) returns (found: bool)
      ensures found <==> AnyContains(nets, dest)
    {
      for i := 0 to |nets|
        invariant forall j :: 0 <= j < i ==> !Contains(nets[j], dest)
      {
        if Contains(nets[i], dest) { return true; }
      }
      return false;
    }

    method IsAllowed(source: Ip, dest: Ip) returns (allowed: bool)
      requires Valid() && RoundTrips(text)
      modifies this`totalChecks, this`totalAllowed, this`totalBlocked
      ensures Valid()
      ensures allowed <==> IndexAllows(text, index, source, dest)
      ensures allowed == Allowed(rules, source, dest)
         <==> !(source == NoIp && exists i :: 0 <= i < |rules| && VoidSource(rules[i]) && MatchesDest(rules[i], dest))
      ensures source != NoIp ==>
                (allowed <==> rules == [] || exists i :: 0 <= i < |rules| && Fits(rules[i], source, dest))
      ensures totalChecks == old(totalChecks) + 1
      ensures totalAllowed == old(totalAllowed) + if allowed then 1 else 0
    {
      IndexAgrees(text, rules, source, dest);
      AllowedIffFits(rules, source, dest);
      if |index| == 0 {
        allowed := true;
      } else {
        allowed := ScanGroups(source, dest);
      }
      totalChecks := totalChecks + 1;
      if allowed { totalAllowed := totalAllowed + 1; } else { totalBlocked := totalBlocked + 1; }
    }

    method FilterAddresses(source: Ip, destOf: string -> Ip, addresses: seq<string>) returns (allowed: seq<string>)
      requires Valid() && RoundTrips(text)
      ensures allowed == IndexPermitted(text, index, source, destOf, addresses)
      ensures allowed == Permitted(rules, source, destOf, addresses)
         <==> forall a :: a in addresses ==> !OnlyByVoidRule(rules, source, destOf(a))
    {
      FiltersAgree(text, rules, source, destOf, addresses);
      if |index| == 0 { return addresses; }
      allowed := ScanAddresses(source, destOf, addresses);
    }

    /** The loop over the addresses. */
    method ScanAddresses(source: Ip, destOf: string -> Ip, addresses: seq<string>) returns (allowed: seq<string>)
      ensures allowed == Filtered(IndexReach(text, index, source), destOf, addresses)
    {
      allowed := [];
      for i := 0 to |addresses|
        invariant allowed == Filtered(IndexReach(text, index, source), destOf, addresses[..i])
      {
        FilteredNext(IndexReach(text, index, source), destOf, addresses, i);
        var dest := destOf(addresses[i]);
        if dest != NoIp {
          var ok := ScanGroups(source, dest);
          if ok { allowed := allowed + [addresses[i]]; }
        }
      }
      assert addresses[..|addresses|] == addresses;
    }
  }
}
