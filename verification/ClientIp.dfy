/** Client addresses behind trusted proxies, and the network scopes limits are kept by. */
module ClientIp {
  import opened Wrappers
  import opened Text

  // ----------------------------------------------------------------- addresses

  type Bits = seq<bool>

  function Repeat(bit: bool, n: nat): (bits: Bits)
    ensures |bits| == n && forall i :: 0 <= i < n ==> bits[i] == bit
  {
    seq(n, _ => bit)
  }

  type Bits32 = bits: Bits | |bits| == 32 witness Repeat(false, 32)

  type Bits128 = bits: Bits | |bits| == 128 witness Repeat(false, 128)

  /** A parsed address: its bits, the leading one first, and the zone of an IPv6 address. */
  datatype Addr = V4(bits4: Bits32) | V6(bits6: Bits128, zone: string)

  function BitsOf(a: Addr): Bits {
    if a.V4? then a.bits4 else a.bits6
  }

  /** ::ffff:0:0 */
  const MAPPED: Bits := Repeat(false, 80) + Repeat(true, 16)

  /** ::ffff:a.b.c.d */
  predicate Is4In6(a: Addr) {
    a.V6? && a.bits6[..96] == MAPPED
  }

  function Unmap(a: Addr): (u: Addr)
    ensures !Is4In6(u)
  {
    if Is4In6(a) then V4(a.bits6[96..]) else a
  }

  datatype Prefix = Prefix(addr: Addr, length: nat)

  predicate ValidPrefix(p: Prefix) {
    p.length <= |BitsOf(p.addr)|
  }

  /** Keeps the leading bits of the prefix's address; a prefix has no zone. */
  function Masked(p: Prefix): (m: Prefix)
    requires ValidPrefix(p)
    ensures ValidPrefix(m)
  {
    var bits := BitsOf(p.addr)[..p.length] + Repeat(false, |BitsOf(p.addr)| - p.length);
    Prefix(if p.addr.V4? then V4(bits) else V6(bits, ""), p.length)
  }

  /** Same family, no zone, same leading bits. */
  predicate Contains(p: Prefix, a: Addr)
    requires ValidPrefix(p)
  {
    && p.addr.V4? == a.V4?
    && (a.V6? ==> a.zone == "")
    && BitsOf(a)[..p.length] == BitsOf(p.addr)[..p.length]
  }

  datatype Family = IPv4 | IPv6

  datatype Scope = Scope(family: Family, prefix: Prefix)

  /** SourceScope: a single IPv4 address, or the /64 of an IPv6 address. */
  function SourceScope(a: Addr): (s: Scope)
    ensures ValidPrefix(s.prefix)
  {
    var u := Unmap(a);
    if u.V4? then Scope(IPv4, Masked(Prefix(u, 32))) else Scope(IPv6, Masked(Prefix(u, 64)))
  }

  lemma MaskedContains(p: Prefix, a: Addr)
    requires ValidPrefix(p)
    ensures Contains(Masked(p), a) <==> Contains(p, a)
  {
    assert BitsOf(Masked(p).addr)[..p.length] == BitsOf(p.addr)[..p.length];
  }

  /**
   Two addresses share a scope exactly when the scope's network contains the
   other one; an address with a zone is inside no network but keeps its scope.
   */
  lemma ScopeExact(a: Addr, b: Addr)
    ensures Contains(SourceScope(a).prefix, Unmap(b)) <==>
            SourceScope(a) == SourceScope(b) && (Unmap(b).V6? ==> Unmap(b).zone == "")
  {
    var u, v := Unmap(a), Unmap(b);
    var n := if u.V4? then 32 else 64;
    MaskedContains(Prefix(u, n), v);
    if u.V4? == v.V4? {
      assert BitsOf(Masked(Prefix(u, n)).addr)[..n] == BitsOf(u)[..n];
      assert BitsOf(Masked(Prefix(v, n)).addr)[..n] == BitsOf(v)[..n];
    }
  }

  /** IPv4 addresses share a scope only with themselves, IPv6 addresses with all that have the same first 64 bits. */
  lemma ScopeBits(a: Addr, b: Addr)
    requires !Is4In6(a) && !Is4In6(b)
    ensures SourceScope(a) == SourceScope(b) <==>
      (a.V4? && b.V4? && a.bits4 == b.bits4) || (a.V6? && b.V6? && a.bits6[..64] == b.bits6[..64])
  {
    if a.V4? == b.V4? {
      var n := if a.V4? then 32 else 64;
      assert BitsOf(Masked(Prefix(a, n)).addr)[..n] == BitsOf(a)[..n];
      assert BitsOf(Masked(Prefix(b, n)).addr)[..n] == BitsOf(b)[..n];
      assert a.V4? ==> BitsOf(a)[..n] == a.bits4 && BitsOf(b)[..n] == b.bits4;
    }
  }

  /**
   A dotted address and its IPv6 spelling, 80 zero bits and 16 one bits in
   front of it, are one address to every rule here.
   */
  lemma MappedIsPlain(a: Addr, mapped: Addr)
    requires a.V4? && mapped.V6? && mapped.bits6[96..] == a.bits4
    requires forall i :: 0 <= i < 96 ==> (mapped.bits6[i] <==> i >= 80)
    ensures Unmap(mapped) == a && SourceScope(mapped) == SourceScope(a)
  {
    assert mapped.bits6[..96] == MAPPED;
  }

  // ------------------------------------------------------------------- parsing

  /** netip.ParseAddr */
  type AddrParser = string -> Option<Addr>

  datatype Error = PeerRequired | BadPeer

  /** parseAddress; hostOf is the host of a host:port text, if the text is one. */
  function ParsePeer(parse: AddrParser, hostOf: string -> Option<string>, text: string): Result<Addr, Error> {
    var value := TrimSpace(text);
    if value == "" then Failure(PeerRequired)
    else
      var host := if hostOf(value).Some? then hostOf(value).value else value;
      match parse(host)
      case None => Failure(BadPeer)
      case Some(a) => Success(Unmap(a))
  }

  /**
   The peer: blanks around the text never matter, a port is dropped, the
   address is unmapped; an empty text and one that does not parse are errors.
   */
  lemma PeerExact(parse: AddrParser, hostOf: string -> Option<string>, left: string, core: string, right: string)
    requires AllBlank(left) && Tight(core) && AllBlank(right)
    ensures var peer := ParsePeer(parse, hostOf, left + core + right);
      && (core == "" ==> peer == Failure(PeerRequired))
      && (forall host :: core != "" && hostOf(core) == Some(host) ==>
            (forall a :: parse(host) == Some(a) ==> peer == Success(Unmap(a)))
            && (parse(host) == None ==> peer == Failure(BadPeer)))
      && (core != "" && hostOf(core) == None ==>
            (forall a :: parse(core) == Some(a) ==> peer == Success(Unmap(a)))
            && (parse(core) == None ==> peer == Failure(BadPeer)))
      && (peer.Success? ==> !Is4In6(peer.value))
  {
    TrimSpaceIs(left, core, right);
    hide TrimSpace;
  }

  ghost predicate Trusted(proxies: seq<Prefix>, a: Addr)
    requires forall i :: 0 <= i < |proxies| ==> ValidPrefix(proxies[i])
  {
    exists i :: 0 <= i < |proxies| && Contains(proxies[i], a)
  }

  method IsTrusted(proxies: seq<Prefix>, a: Addr) returns (yes: bool)
    requires forall i :: 0 <= i < |proxies| ==> ValidPrefix(proxies[i])
    ensures yes <==> Trusted(proxies, a)
  {
    for i := 0 to |proxies|
      invariant forall j :: 0 <= j < i ==> !Contains(proxies[j], a)
    {
      if Contains(proxies[i], a) {
        return true;
      }
    }
    return false;
  }

  /** New: the first range that does not parse is an error. */
  method New(parsePrefix: string -> Option<Prefix>, ranges: seq<string>) returns (r: Option<seq<Prefix>>)
    requires forall s :: parsePrefix(s).Some? ==> ValidPrefix(parsePrefix(s).value)
    ensures r.None? <==> exists i :: 0 <= i < |ranges| && parsePrefix(TrimSpace(ranges[i])).None?
    ensures r.Some? ==> |r.value| == |ranges| && forall i :: 0 <= i < |ranges| ==> ValidPrefix(r.value[i])
    ensures r.Some? ==> forall i, a :: 0 <= i < |ranges| ==>
      (Contains(r.value[i], a) <==> Contains(parsePrefix(TrimSpace(ranges[i])).value, a))
  {
    hide TrimSpace, Contains, Masked;
    var prefixes := [];
    for i := 0 to |ranges|
      invariant |prefixes| == i
      invariant forall j :: 0 <= j < i ==> parsePrefix(TrimSpace(ranges[j])).Some?
      invariant forall j :: 0 <= j < i ==> prefixes[j] == Masked(parsePrefix(TrimSpace(ranges[j])).value)
    {
      var prefix := parsePrefix(TrimSpace(ranges[i]));
      if prefix.None? {
        return None;
      }
      prefixes := prefixes + [Masked(prefix.value)];
    }
    forall i, a | 0 <= i < |ranges|
      ensures Contains(prefixes[i], a) <==> Contains(parsePrefix(TrimSpace(ranges[i])).value, a)
    {
      var p := parsePrefix(TrimSpace(ranges[i])).value;
      MaskedContains(p, a);
    }
    return Some(prefixes);
  }

  /** The addresses of a forwarding chain, if every part of it is one. */
  function Addresses(parse: AddrParser, parts: seq<string>): Option<seq<Addr>> {
    if parts == [] then Some([])
    else
      match Addresses(parse, parts[..|parts| - 1])
      case None => None
      case Some(done) =>
        match parse(TrimSpace(parts[|parts| - 1]))
        case None => None
        case Some(a) => Some(done + [Unmap(a)])
  }

  method ParseForwardedFor(parse: AddrParser, values: seq<string>) returns (addresses: seq<Addr>, ok: bool)
    ensures ok <==> values != [] && Addresses(parse, SplitAll(values, ',')).Some?
    ensures ok ==> Some(addresses) == Addresses(parse, SplitAll(values, ',')) && addresses != []
  {
    hide Addresses, Split, SplitAll, TrimSpace, Unmap;
    addresses := [];
    ghost var parts: seq<string> := [];
    NothingSplit(parse, ',');
    assert values[..0] == [];
    for i := 0 to |values|
      invariant parts == SplitAll(values[..i], ',') && |parts| >= i && |addresses| == |parts|
      invariant Addresses(parse, parts) == Some(addresses)
    {
      var fields := Split(values[i], ',');
      ghost var before := parts;
      SplitAllSnoc(values[..i], values[i], ',');
      assert values[..i + 1] == values[..i] + [values[i]];
      for k := 0 to |fields|
        invariant parts == before + fields[..k] && |addresses| == |parts|
        invariant Addresses(parse, parts) == Some(addresses)
      {
        var addr := parse(TrimSpace(fields[k]));
        AddressesSnoc(parse, parts, fields[k]);
        parts := parts + [fields[k]];
        assert parts == before + fields[..k + 1];
        if addr.None? {
          OnePartFails(parse, values, i, k + 1);
          return [], false;
        }
        addresses := addresses + [Unmap(addr.value)];
      }
    }
    assert values[..|values|] == values;
    ok := |addresses| > 0;
  }

  lemma NothingSplit(parse: AddrParser, sep: char)
    ensures SplitAll([], sep) == [] && Addresses(parse, []) == Some([])
  {
  }

  lemma OnePartFails(parse: AddrParser, values: seq<string>, i: nat, k: nat)
    requires i < |values| && k <= |Split(values[i], ',')|
    requires Addresses(parse, SplitAll(values[..i], ',') + Split(values[i], ',')[..k]).None?
    ensures Addresses(parse, SplitAll(values, ',')).None?
  {
    hide Addresses, Split, SplitAll;
    var before, fields, after := SplitAll(values[..i], ','), Split(values[i], ','), SplitAll(values[i + 1..], ',');
    SplitAllSnoc(values[..i], values[i], ',');
    assert values[..i + 1] == values[..i] + [values[i]];
    SplitAllConcat(values[..i + 1], values[i + 1..], ',');
    assert values == values[..i + 1] + values[i + 1..];
    assert SplitAll(values, ',') == before + fields + after;
    assert before + fields + after == (before + fields[..k]) + (fields[k..] + after);
    AddressesNone(parse, before + fields[..k], fields[k..] + after);
  }

  lemma AddressesSnoc(parse: AddrParser, parts: seq<string>, part: string)
    ensures Addresses(parse, parts + [part]) ==
            if Addresses(parse, parts).Some? && parse(TrimSpace(part)).Some?
            then Some(Addresses(parse, parts).value + [Unmap(parse(TrimSpace(part)).value)]) else None
  {
    assert (parts + [part])[..|parts|] == parts;
  }

  /** Blanks around the parts of a chain never matter. */
  lemma {:induction false} ChainBlanks(parse: AddrParser, parts: seq<string>, parts': seq<string>)
    requires |parts| == |parts'| && forall i :: 0 <= i < |parts| ==> TrimSpace(parts[i]) == TrimSpace(parts'[i])
    ensures Addresses(parse, parts) == Addresses(parse, parts')
    decreases |parts|
  {
    hide TrimSpace;
    if parts != [] {
      var n := |parts| - 1;
      assert TrimSpace(parts[n]) == TrimSpace(parts'[n]);
      ChainBlanks(parse, parts[..n], parts'[..n]);
    }
  }

  lemma {:induction false} AddressesNone(parse: AddrParser, parts: seq<string>, more: seq<string>)
    requires Addresses(parse, parts).None?
    ensures Addresses(parse, parts + more).None?
  {
    if more == [] {
      assert parts + more == parts;
    } else {
      var n := |more| - 1;
      AddressesNone(parse, parts, more[..n]);
      assert (parts + more)[..|parts| + n] == parts + more[..n];
    }
  }

  /** A chain parses part by part, from either side. */
  lemma {:induction false} AddressesConcat(parse: AddrParser, left: seq<string>, right: seq<string>)
    ensures Addresses(parse, left + right) ==
            if Addresses(parse, left).Some? && Addresses(parse, right).Some?
            then Some(Addresses(parse, left).value + Addresses(parse, right).value) else None
  {
    hide Addresses, TrimSpace, Unmap;
    NothingSplit(parse, ',');
    if right == [] {
      assert left + right == left;
      if Addresses(parse, left).Some? {
        assert Addresses(parse, left).value + [] == Addresses(parse, left).value;
      }
    } else {
      var n := |right| - 1;
      AddressesConcat(parse, left, right[..n]);
      AddressesSnoc(parse, right[..n], right[n]);
      AddressesSnoc(parse, left + right[..n], right[n]);
      assert right == right[..n] + [right[n]];
      assert left + right == (left + right[..n]) + [right[n]];
      var l, r, a := Addresses(parse, left), Addresses(parse, right[..n]), parse(TrimSpace(right[n]));
      if l.Some? && r.Some? && a.Some? {
        assert (l.value + r.value) + [Unmap(a.value)] == l.value + (r.value + [Unmap(a.value)]);
      }
    }
  }

  lemma {:induction false} SplitAllConcat(a: seq<string>, b: seq<string>, sep: char)
    ensures SplitAll(a + b, sep) == SplitAll(a, sep) + SplitAll(b, sep)
  {
    hide Split;
    if a == [] {
      assert a + b == b;
    } else {
      SplitAllConcat(a[1..], b, sep);
      assert (a + b)[1..] == a[1..] + b && (a + b)[0] == a[0];
    }
  }

  lemma SplitAllSnoc(lines: seq<string>, line: string, sep: char)
    ensures SplitAll(lines + [line], sep) == SplitAll(lines, sep) + Split(line, sep)
  {
    SplitAllConcat(lines, [line], sep);
    OneLine(line, sep);
  }

  lemma OneLine(line: string, sep: char)
    ensures SplitAll([line], sep) == Split(line, sep)
  {
    assert [line][1..] == [];
    assert SplitAll([line], sep) == Split(line, sep) + SplitAll([], sep);
  }

  // ---------------------------------------------------------------- resolution

  /** The rightmost address that is no trusted proxy; the leftmost if all are. */
  ghost function Client(proxies: seq<Prefix>, chain: seq<Addr>): Addr
    requires chain != [] && forall i :: 0 <= i < |proxies| ==> ValidPrefix(proxies[i])
  {
    var last := chain[|chain| - 1];
    if !Trusted(proxies, last) || |chain| == 1 then last else Client(proxies, chain[..|chain| - 1])
  }

  ghost function RealIp(parse: AddrParser, realIp: string, peer: Addr): Addr {
    var text := TrimSpace(realIp);
    if text != "" && parse(text).Some? then Unmap(parse(text).value) else peer
  }

  /** What a request resolves to: header lines as received, the empty text for an absent X-Real-IP. */
  ghost function Resolution(proxies: seq<Prefix>, parse: AddrParser, peer: Addr, forwarded: seq<string>, realIp: string)
    : Addr
    requires forall i :: 0 <= i < |proxies| ==> ValidPrefix(proxies[i])
  {
    var chain := Addresses(parse, SplitAll(forwarded, ','));
    if !Trusted(proxies, peer) then peer
    else if forwarded == [] then RealIp(parse, realIp, peer)
    else if chain.None? || chain.value == [] then peer
    else Client(proxies, chain.value)
  }

  method Resolve(proxies: seq<Prefix>, parse: AddrParser, hostOf: string -> Option<string>,
                 peerAddress: string, forwarded: seq<string>, realIp: string) returns (r: Result<Addr, Error>)
    requires forall i :: 0 <= i < |proxies| ==> ValidPrefix(proxies[i])
    ensures r.Failure? <==> ParsePeer(parse, hostOf, peerAddress).Failure?
    ensures r.Failure? ==> r == ParsePeer(parse, hostOf, peerAddress)
    ensures r.Success? ==>
      r.value == Resolution(proxies, parse, ParsePeer(parse, hostOf, peerAddress).value, forwarded, realIp)
  {
    hide Addresses, Client, Split, SplitAll, Trusted, TrimSpace, ParsePeer;
    var peer := ParsePeer(parse, hostOf, peerAddress);
    if peer.Failure? {
      return peer;
    }
    var near := IsTrusted(proxies, peer.value);
    if !near {
      return peer;
    }
    if |forwarded| > 0 {
      var addresses, ok := ParseForwardedFor(parse, forwarded);
      if !ok {
        return peer;
      }
      var i := |addresses|;
      while i > 0
        invariant 0 <= i <= |addresses|
        invariant forall j :: i <= j < |addresses| ==> Trusted(proxies, addresses[j])
      {
        i := i - 1;
        var trusted := IsTrusted(proxies, addresses[i]);
        if !trusted {
          ClientIs(proxies, addresses, i);
          return Success(addresses[i]);
        }
      }
      ClientIs(proxies, addresses, 0);
      return Success(addresses[0]);
    }
    var text := TrimSpace(realIp);
    if text != "" {
      var addr := parse(text);
      if addr.Some? {
        return Success(Unmap(addr.value));
      }
    }
    return peer;
  }

  /** The client is the address whose right-hand neighbours are all proxies and that is itself none, or is the first. */
  lemma {:induction false} ClientIs(proxies: seq<Prefix>, chain: seq<Addr>, i: nat)
    requires i < |chain| && forall j :: 0 <= j < |proxies| ==> ValidPrefix(proxies[j])
    requires forall j :: i < j < |chain| ==> Trusted(proxies, chain[j])
    requires i == 0 || !Trusted(proxies, chain[i])
    ensures Client(proxies, chain) == chain[i]
    decreases |chain|
  {
    if i < |chain| - 1 {
      ClientIs(proxies, chain[..|chain| - 1], i);
    }
  }

  /** The position of the client in its chain. */
  lemma {:induction false} ClientAt(proxies: seq<Prefix>, chain: seq<Addr>) returns (i: nat)
    requires chain != [] && forall j :: 0 <= j < |proxies| ==> ValidPrefix(proxies[j])
    ensures i < |chain| && Client(proxies, chain) == chain[i]
    ensures forall j :: i < j < |chain| ==> Trusted(proxies, chain[j])
    ensures i == 0 || !Trusted(proxies, chain[i])
  {
    hide Trusted;
    i := |chain| - 1;
    if Trusted(proxies, chain[i]) && i > 0 {
      i := ClientAt(proxies, chain[..i]);
    }
  }

  ghost predicate AllTrusted(proxies: seq<Prefix>, chain: seq<Addr>)
    requires forall i :: 0 <= i < |proxies| ==> ValidPrefix(proxies[i])
  {
    forall i :: 0 <= i < |chain| ==> Trusted(proxies, chain[i])
  }

  lemma ClientOfConcat(proxies: seq<Prefix>, left: seq<Addr>, right: seq<Addr>)
    requires right != [] && forall j :: 0 <= j < |proxies| ==> ValidPrefix(proxies[j])
    ensures Client(proxies, left + right) ==
            if AllTrusted(proxies, right) && left != [] then Client(proxies, left) else Client(proxies, right)
  {
    hide Client, Trusted;
    var all := left + right;
    assert forall j :: |left| <= j < |all| ==> all[j] == right[j - |left|];
    if AllTrusted(proxies, right) && left != [] {
      var i := ClientAt(proxies, left);
      ClientIs(proxies, all, i);
    } else {
      var i := ClientAt(proxies, right);
      assert all[|left| + i] == right[i];
      ClientIs(proxies, all, |left| + i);
    }
  }

  lemma RightDecides(proxies: seq<Prefix>, parse: AddrParser, peer: Addr, lines: seq<string>,
                     left: seq<string>, right: seq<string>, realIp: string)
    requires forall i :: 0 <= i < |proxies| ==> ValidPrefix(proxies[i])
    requires Trusted(proxies, peer) && lines != [] && SplitAll(lines, ',') == left + right
    requires Addresses(parse, right).Some? && !AllTrusted(proxies, Addresses(parse, right).value)
    ensures Resolution(proxies, parse, peer, lines, realIp) ==
            if Addresses(parse, left).Some? then Client(proxies, Addresses(parse, right).value) else peer
  {
    hide Addresses, Client, Split, SplitAll, Trusted, TrimSpace;
    AddressesConcat(parse, left, right);
    if Addresses(parse, left).Some? {
      ClientOfConcat(proxies, Addresses(parse, left).value, Addresses(parse, right).value);
    }
  }

  /**
   What stands to the left of an untrusted address never matters, inside a line
   or across lines: two headers that agree from there on, the first of which
   parses, resolve alike exactly when the second parses as well, or the answer
   was the peer itself.
   */
  lemma LeftNeverMatters(proxies: seq<Prefix>, parse: AddrParser, peer: Addr, lines: seq<string>, lines': seq<string>,
                         left: seq<string>, left': seq<string>, right: seq<string>, realIp: string)
    requires forall i :: 0 <= i < |proxies| ==> ValidPrefix(proxies[i])
    requires Trusted(proxies, peer) && lines != [] && lines' != []
    requires SplitAll(lines, ',') == left + right && SplitAll(lines', ',') == left' + right
    requires Addresses(parse, left).Some? && Addresses(parse, right).Some?
    requires !AllTrusted(proxies, Addresses(parse, right).value)
    ensures Resolution(proxies, parse, peer, lines', realIp) == Resolution(proxies, parse, peer, lines, realIp) <==>
            Addresses(parse, left').Some? || Resolution(proxies, parse, peer, lines, realIp) == peer
  {
    hide Addresses, Client, Split, SplitAll, Trusted, AllTrusted, Resolution;
    RightDecides(proxies, parse, peer, lines, left, right, realIp);
    RightDecides(proxies, parse, peer, lines', left', right, realIp);
  }

  /**
   Without X-Forwarded-For, a trusted peer's X-Real-IP is the answer exactly
   when it is an address between blanks; else the answer is the peer.
   */
  lemma RealIpAnswers(proxies: seq<Prefix>, parse: AddrParser, peer: Addr, left: string, core: string, right: string)
    requires forall i :: 0 <= i < |proxies| ==> ValidPrefix(proxies[i])
    requires Trusted(proxies, peer) && AllBlank(left) && Tight(core) && AllBlank(right)
    ensures var answer := Resolution(proxies, parse, peer, [], left + core + right);
      && (forall a :: core != "" && parse(core) == Some(a) ==> answer == Unmap(a))
      && (core == "" || parse(core) == None ==> answer == peer)
  {
    hide TrimSpace, Addresses, SplitAll, Client, Trusted;
    TrimSpaceIs(left, core, right);
  }

  /** A list spread over several header lines is the one comma-joined line (section 5.3 of RFC 9110). */
  lemma LinesAreOneLine(proxies: seq<Prefix>, parse: AddrParser, peer: Addr, lines: seq<string>, realIp: string)
    requires lines != [] && forall i :: 0 <= i < |proxies| ==> ValidPrefix(proxies[i])
    ensures Resolution(proxies, parse, peer, [Join(lines, ',')], realIp) ==
            Resolution(proxies, parse, peer, lines, realIp)
  {
    hide Addresses, Client, Split, Trusted, Join;
    SplitJoinAll(lines, ',');
    OneLine(Join(lines, ','), ',');
  }

  /**
   Headers are believed only from a trusted peer, X-Real-IP only without an
   X-Forwarded-For, and an answer out of the chain is an untrusted address
   unless every address of the chain is a proxy.
   */
  lemma HeadersBelieved(proxies: seq<Prefix>, parse: AddrParser, peer: Addr, forwarded: seq<string>, realIp: string,
                        other: string)
    requires forall i :: 0 <= i < |proxies| ==> ValidPrefix(proxies[i])
    ensures !Trusted(proxies, peer) ==> Resolution(proxies, parse, peer, forwarded, realIp) == peer
    ensures forwarded != [] ==>
      Resolution(proxies, parse, peer, forwarded, realIp) == Resolution(proxies, parse, peer, forwarded, other)
    ensures var answer := Resolution(proxies, parse, peer, forwarded, realIp);
            var chain := Addresses(parse, SplitAll(forwarded, ','));
            Trusted(proxies, peer) && forwarded != [] && chain.Some? && !AllTrusted(proxies, chain.value) ==>
              answer in chain.value && !Trusted(proxies, answer)
  {
    hide Addresses, Client, Split, SplitAll, Trusted, TrimSpace;
    var chain := Addresses(parse, SplitAll(forwarded, ','));
    if chain.Some? && chain.value != [] {
      var i := ClientAt(proxies, chain.value);
      assert chain.value[i] in chain.value;
    }
  }
}
