/**
  What the capture filter's primitives mean, said on the bytes of a frame and without
  reference to the compiler: which frames a filter wants, and when it can want none.
 */
module BpfMeaning {
  import opened Words
  import opened Bpf
  import opened BpfCompile

  predicate BytesAt(fr: seq<u8>, off: nat, s: seq<u8>) {
    off + |s| <= |fr| && fr[off..off + |s|] == s
  }

  /** PROTO, or PORT on its own, asks about the protocol byte. */
  predicate AsksProtocol(f: FilterSpec) { f.proto == Tcp || f.proto == Udp || f.proto == Icmp || f.port.Some? }

  /** The protocol numbers asked for: TCP is 6, UDP is 17, and a port alone means either; ICMP differs by family. */
  predicate ProtocolIs(f: FilterSpec, b: u8, icmp: u8) {
    match f.proto
    case Tcp => b == 6
    case Udp => b == 17
    case Icmp => b == icmp
    case _ => b == 6 || b == 17
  }

  predicate ProtocolWanted(f: FilterSpec, fr: seq<u8>, off: nat, icmp: u8) {
    AsksProtocol(f) ==> off < |fr| && ProtocolIs(f, fr[off], icmp)
  }

  /** HOST: the address is the source or the destination. */
  predicate HostWanted(fr: seq<u8>, src: nat, dst: nat, addr: seq<u8>) {
    BytesAt(fr, src, addr) || BytesAt(fr, dst, addr)
  }

  /** PORT: a TCP or UDP packet whose source or destination port, at `at`, is the one asked for. */
  predicate PortWanted(fr: seq<u8>, proto: nat, at: nat, port: nat)
    requires port <= 65535
  {
    && proto < |fr| && (fr[proto] == 6 || fr[proto] == 17)
    && (BytesAt(fr, at, TwoBytes(port)) || BytesAt(fr, at + 2, TwoBytes(port)))
  }

  /** Only the first fragment of an IPv4 packet carries ports. */
  predicate FirstFragment(fr: seq<u8>) {
    |fr| >= 22 && fr[20] % 32 == 0 && fr[21] == 0
  }

  /** IPv4: type 0800, protocol in byte 23, addresses at 26 and 30, ports behind a header of 4 to 60 bytes at 14. */
  predicate WantedV4(f: FilterSpec, fr: seq<u8>)
    requires PortOk(f)
  {
    && BytesAt(fr, 12, [0x08, 0x00])
    && f.proto != Arp && f.proto != Ip6
    && ProtocolWanted(f, fr, 23, 1)
    && (match f.host
        case NoHost => true
        case Host4(h) => HostWanted(fr, 26, 30, FourBytes(h))
        case Host6(_) => false)
    && (f.port.Some? ==> FirstFragment(fr) && PortWanted(fr, 23, 14 + fr[14] % 16 * 4, f.port.value))
  }

  /** IPv6: type 86DD, next header in byte 20, addresses at 22 and 38, ports behind the fixed header at 54. */
  predicate WantedV6(f: FilterSpec, fr: seq<u8>)
    requires PortOk(f)
  {
    && BytesAt(fr, 12, [0x86, 0xdd])
    && f.proto != Arp && f.proto != Ip
    && ProtocolWanted(f, fr, 20, 58)
    && (match f.host case NoHost => true case Host4(_) => false case Host6(a) => HostWanted(fr, 22, 38, a))
    && (f.port.Some? ==> PortWanted(fr, 20, 54, f.port.value))
  }

  /** ARP: type 0806; about IPv4 with the sender's address at 28 and the target's at 38. */
  predicate WantedArp(f: FilterSpec, fr: seq<u8>) {
    && BytesAt(fr, 12, [0x08, 0x06])
    && (f.proto == AnyProto || f.proto == Arp)
    && f.port.None?
    && (match f.host
        case NoHost => true
        case Host4(h) => BytesAt(fr, 16, [0x08, 0x00]) && HostWanted(fr, 28, 38, FourBytes(h))
        case Host6(_) => false)
  }

  /** Nothing at all is asked. */
  predicate AsksNothing(f: FilterSpec) { f.proto.AnyProto? && f.host == NoHost && f.port == None }

  /** The frames HOST, PORT and PROTO ask for together. */
  predicate Wanted(f: FilterSpec, fr: seq<u8>)
    requires PortOk(f)
  {
    AsksNothing(f) || WantedV4(f, fr) || WantedV6(f, fr) || WantedArp(f, fr)
  }

  // ---------------------------------------------------------------- fields are bytes

  lemma Field1(fr: seq<u8>, off: nat, want: u8)
    ensures FieldIs(fr, off, 1, want) == if off + 1 > |fr| then Cut else if BytesAt(fr, off, [want]) then Yes else No
  {
    if off + 1 <= |fr| { BigEndianSmall(fr[off..off + 1]); assert fr[off..off + 1] == [fr[off]]; }
  }

  lemma Field2(fr: seq<u8>, off: nat, want: nat)
    requires want <= 65535
    ensures FieldIs(fr, off, 2, want) ==
      if off + 2 > |fr| then Cut else if BytesAt(fr, off, TwoBytes(want)) then Yes else No
  {
    if off + 2 <= |fr| { BigEndianSmall(fr[off..off + 2]); assert fr[off..off + 2] == [fr[off], fr[off + 1]]; }
  }

  lemma Field4(fr: seq<u8>, off: nat, want: u32)
    ensures FieldIs(fr, off, 4, want) ==
      if off + 4 > |fr| then Cut else if BytesAt(fr, off, FourBytes(want)) then Yes else No
  {
    if off + 4 <= |fr| {
      BigEndianSmall(fr[off..off + 4]);
      assert fr[off..off + 4] == [fr[off], fr[off + 1], fr[off + 2], fr[off + 3]];
      FourBytesInverse(fr[off], fr[off + 1], fr[off + 2], fr[off + 3], want);
    }
  }

  lemma Word4(fr: seq<u8>, off: nat, a: Addr6, i: nat)
    requires i < 4
    ensures FieldIs(fr, off, 4, Word6(a, i)) ==
      if off + 4 > |fr| then Cut else if BytesAt(fr, off, a[4 * i..4 * i + 4]) then Yes else No
  {
    var s := a[4 * i..4 * i + 4];
    BigEndianSmall(s);
    FourBytesInverse(s[0], s[1], s[2], s[3], Word6(a, i));
    assert s == [s[0], s[1], s[2], s[3]];
    Field4(fr, off, Word6(a, i));
  }

  /** The fragment offset is the low thirteen bits of the flags word. */
  lemma FragmentMask(fr: seq<u8>)
    requires |fr| >= 22
    ensures And32(Load(fr, IP4_FLAGS, 2).value, 0x1fff) == 0 <==> FirstFragment(fr)
  {
    Pow2Is32();
    BigEndianSmall(fr[20..22]);
    var hi, lo := fr[20] as int, fr[21] as int;
    var flags := hi * 256 + lo;
    hide Pow2, And;
    AndLowMask(flags, 13);
    assert Load(fr, IP4_FLAGS, 2).value == flags;
    DivModUnique(flags, 8192, hi / 32, hi % 32 * 256 + lo);
  }

  /** The header length is four times the low nibble of the first byte. */
  lemma HeaderMask(fr: seq<u8>)
    requires |fr| >= 15
    ensures HeaderLen4(Load(fr, ETH_LEN, 1).value) == fr[14] % 16 * 4
  {
    Pow2Is32();
    BigEndianSmall(fr[14..15]);
    hide Pow2, And;
    AndLowMask(fr[14], 4);
  }

  // ---------------------------------------------------------------- frames cut short

  /** The field is not wholly captured. */
  predicate Missing(fr: seq<u8>, off: nat, n: nat) { off + n > |fr| }

  predicate ProtocolCut(f: FilterSpec, fr: seq<u8>, off: nat) { AsksProtocol(f) && Missing(fr, off, 1) }

  /** Neither address is seen to be the one asked for, and one of them is not there to see. */
  predicate Host4Cut(fr: seq<u8>, src: nat, dst: nat, addr: seq<u8>) {
    Missing(fr, src, 4) || (!BytesAt(fr, src, addr) && Missing(fr, dst, 4))
  }

  /** As far as whole longwords go the address agrees, and the next longword is not there. */
  predicate Addr6Cut(fr: seq<u8>, off: nat, a: Addr6) {
    exists n: nat :: n < 4 && Agrees(fr, off, a, n) && Missing(fr, off + 4 * n, 4)
  }

  /** The first `n` longwords of the address are there and agree. */
  predicate Agrees(fr: seq<u8>, off: nat, a: Addr6, n: nat)
    requires n <= 4
  {
    forall j :: 0 <= j < n ==> BytesAt(fr, off + 4 * j, a[4 * j..4 * j + 4])
  }

  predicate Host6Cut(fr: seq<u8>, a: Addr6) {
    Addr6Cut(fr, 22, a) || (!BytesAt(fr, 22, a) && Addr6Cut(fr, 38, a))
  }

  predicate PortCut(fr: seq<u8>, at: nat, port: nat)
    requires port <= 65535
  {
    Missing(fr, at, 2) || (!BytesAt(fr, at, TwoBytes(port)) && Missing(fr, at + 2, 2))
  }

  predicate Ports4Cut(fr: seq<u8>, port: nat)
    requires port <= 65535
  {
    Missing(fr, 20, 2) || (FirstFragment(fr) && PortCut(fr, 14 + fr[14] % 16 * 4, port))
  }

  predicate CutV4(f: FilterSpec, fr: seq<u8>)
    requires PortOk(f)
  {
    || ProtocolCut(f, fr, 23)
    || (ProtocolWanted(f, fr, 23, 1) && f.host.Host4? && Host4Cut(fr, 26, 30, FourBytes(f.host.v4)))
    || (ProtocolWanted(f, fr, 23, 1) && (f.host.Host4? ==> HostWanted(fr, 26, 30, FourBytes(f.host.v4)))
        && f.port.Some? && Ports4Cut(fr, f.port.value))
  }

  predicate CutV6(f: FilterSpec, fr: seq<u8>)
    requires PortOk(f)
  {
    || ProtocolCut(f, fr, 20)
    || (ProtocolWanted(f, fr, 20, 58) && f.host.Host6? && Host6Cut(fr, f.host.v6))
    || (ProtocolWanted(f, fr, 20, 58) && (f.host.Host6? ==> HostWanted(fr, 22, 38, f.host.v6))
        && f.port.Some? && PortCut(fr, 54, f.port.value))
  }

  predicate CutArp(f: FilterSpec, fr: seq<u8>) {
    && f.host.Host4?
    && (Missing(fr, 16, 2) || (BytesAt(fr, 16, [0x08, 0x00]) && Host4Cut(fr, 28, 38, FourBytes(f.host.v4))))
  }

  /**
    The frame ends inside a field the filter asks about, everything asked before it being as
    wanted: the type, then by type the protocol, the addresses, the ports behind the header.
   */
  predicate CutShort(f: FilterSpec, fr: seq<u8>)
    requires PortOk(f)
  {
    && !AsksNothing(f)
    && (|| Missing(fr, 12, 2)
        || (BytesAt(fr, 12, [0x08, 0x00]) && f.proto != Arp && f.proto != Ip6 && !f.host.Host6? && CutV4(f, fr))
        || (BytesAt(fr, 12, [0x86, 0xdd]) && f.proto != Arp && f.proto != Ip && !f.host.Host4? && CutV6(f, fr))
        || (BytesAt(fr, 12, [0x08, 0x06]) && (f.proto == AnyProto || f.proto == Arp) && f.port.None? && CutArp(f, fr)))
  }

  // ---------------------------------------------------------------- the compiler's answer is the meaning

  /** The answer to a question whose meaning is `wanted` and which is undecided when `cut`. */
  ghost predicate Means(a: Answer, wanted: bool, cut: bool) {
    && (wanted ==> !cut)
    && a == if wanted then Yes else if cut then Cut else No
  }

  lemma ProtocolMeans(f: FilterSpec, fr: seq<u8>, off: nat, icmp: u8)
    ensures Means(TransportIs(fr, off, TransportOf(f, icmp)), ProtocolWanted(f, fr, off, icmp), ProtocolCut(f, fr, off))
  {
    Field1(fr, off, icmp);
    Field1(fr, off, 6);
    Field1(fr, off, 17);
    hide FieldIs;
    if off < |fr| { assert fr[off..off + 1] == [fr[off]]; }
  }

  lemma Host4Means(fr: seq<u8>, src: nat, dst: nat, h: u32)
    requires src <= dst
    ensures Means(EitherHost4(fr, src, dst, h), HostWanted(fr, src, dst, FourBytes(h)),
                  Host4Cut(fr, src, dst, FourBytes(h)))
  {
    Field4(fr, src, h);
    Field4(fr, dst, h);
  }

  lemma PortsMean(fr: seq<u8>, at: nat, port: nat)
    requires port <= 65535
    ensures Means(OrElse(FieldIs(fr, at, 2, port), FieldIs(fr, at + 2, 2, port)),
                  BytesAt(fr, at, TwoBytes(port)) || BytesAt(fr, at + 2, TwoBytes(port)), PortCut(fr, at, port))
  {
    Field2(fr, at, port);
    Field2(fr, at + 2, port);
  }

  lemma Ports4Means(fr: seq<u8>, port: nat)
    requires port <= 65535
    ensures Means(Ports4(fr, port),
                  FirstFragment(fr) && (var at := ETH_LEN + fr[14] % 16 * 4;
                                        BytesAt(fr, at, TwoBytes(port)) || BytesAt(fr, at + 2, TwoBytes(port))),
                  Ports4Cut(fr, port))
  {
    if |fr| >= 22 {
      FragmentMask(fr);
      HeaderMask(fr);
      PortsMean(fr, ETH_LEN + fr[14] % 16 * 4, port);
    }
  }

  lemma AllAgree(fr: seq<u8>, off: nat, a: Addr6)
    ensures Agrees(fr, off, a, 4) <==> BytesAt(fr, off, a)
  {
    if off + 16 <= |fr| {
      var s := fr[off..off + 16];
      forall j | 0 <= j < 4 ensures s[4 * j..4 * j + 4] == fr[off + 4 * j..off + 4 * j + 4] {
        Inside(fr, off, off + 16, 4 * j, 4 * j + 4);
      }
      assert s == s[0..4] + s[4..8] + s[8..12] + s[12..16];
      assert a == a[0..4] + a[4..8] + a[8..12] + a[12..16];
      if Agrees(fr, off, a, 4) {
        assert forall j :: 0 <= j < 4 ==> BytesAt(fr, off + 4 * j, a[4 * j..4 * j + 4]);
        assert s[4 * 0..4 * 0 + 4] == a[4 * 0..4 * 0 + 4] && s[4 * 1..4 * 1 + 4] == a[4 * 1..4 * 1 + 4];
        assert s[4 * 2..4 * 2 + 4] == a[4 * 2..4 * 2 + 4] && s[4 * 3..4 * 3 + 4] == a[4 * 3..4 * 3 + 4];
      }
    } else {
      var j := 3;
      var at, t := off + 4 * j, a[4 * j..4 * j + 4];
      assert !BytesAt(fr, at, t);
    }
  }

  lemma Inside(s: seq<u8>, from: nat, to: nat, i: nat, j: nat)
    requires i <= j && from + j <= to <= |s|
    ensures s[from..to][i..j] == s[from + i..from + j]
  {
    var x, y := s[from..to][i..j], s[from + i..from + j];
    assert |x| == |y| && forall k :: 0 <= k < |x| ==> x[k] == s[from..to][i + k];
  }

  /** The answer of the longwords from number n on, and what it means. */
  function LongwordsFrom(fr: seq<u8>, off: nat, a: Addr6, n: nat): (r: Answer)
    requires n <= 4
    decreases 4 - n
  {
    if n == 4 then Yes else AndThen(FieldIs(fr, off + 4 * n, 4, Word6(a, n)), LongwordsFrom(fr, off, a, n + 1))
  }

  lemma {:induction false} LongwordsMean(fr: seq<u8>, off: nat, a: Addr6, n: nat)
    requires n <= 4 && Agrees(fr, off, a, n)
    ensures LongwordsFrom(fr, off, a, n) == Yes <==> Agrees(fr, off, a, 4)
    ensures LongwordsFrom(fr, off, a, n) == Cut <==> Addr6Cut(fr, off, a)
    decreases 4 - n
  {
    if n < 4 {
      Word4(fr, off + 4 * n, a, n);
      hide FieldIs, Word6, BytesAt;
      assert Agrees(fr, off, a, n + 1) <==> BytesAt(fr, off + 4 * n, a[4 * n..4 * n + 4]);
      if BytesAt(fr, off + 4 * n, a[4 * n..4 * n + 4]) {
        LongwordsMean(fr, off, a, n + 1);
      }
      FieldThere(fr, off + 4 * n, a[4 * n..4 * n + 4]);
      forall m: nat | m < n ensures !Missing(fr, off + 4 * m, 4) {
        FieldThere(fr, off + 4 * m, a[4 * m..4 * m + 4]);
      }
      assert forall m: nat :: n < m <= 4 && Agrees(fr, off, a, m) ==> Agrees(fr, off, a, n + 1);
    } else {
      forall m: nat | m < 4 ensures !Missing(fr, off + 4 * m, 4) {
        FieldThere(fr, off + 4 * m, a[4 * m..4 * m + 4]);
      }
    }
  }

  lemma FieldThere(fr: seq<u8>, off: nat, s: seq<u8>)
    ensures BytesAt(fr, off, s) ==> !Missing(fr, off, |s|)
  {
  }

  /** The four longword comparisons: the first one that does not agree decides. */
  lemma Addr6Means(fr: seq<u8>, off: nat, a: Addr6)
    ensures Means(Addr6Is(fr, off, a), BytesAt(fr, off, a), Addr6Cut(fr, off, a))
  {
    LongwordsMean(fr, off, a, 0);
    AllAgree(fr, off, a);
    hide FieldIs, BytesAt, Word6, Addr6Cut;
    assert LongwordsFrom(fr, off, a, 0) == Addr6Is(fr, off, a) by {
      assert LongwordsFrom(fr, off, a, 3) == FieldIs(fr, off + 12, 4, Word6(a, 3));
      assert LongwordsFrom(fr, off, a, 2) ==
             AndThen(FieldIs(fr, off + 8, 4, Word6(a, 2)), LongwordsFrom(fr, off, a, 3));
      assert LongwordsFrom(fr, off, a, 1) ==
             AndThen(FieldIs(fr, off + 4, 4, Word6(a, 1)), LongwordsFrom(fr, off, a, 2));
    }
  }

  lemma Host6Means(fr: seq<u8>, a: Addr6)
    ensures Means(OrElse(Addr6Is(fr, IP6_SRC, a), Addr6Is(fr, IP6_DST, a)),
                  HostWanted(fr, IP6_SRC, IP6_DST, a), Host6Cut(fr, a))
  {
    Addr6Means(fr, IP6_SRC, a);
    Addr6Means(fr, IP6_DST, a);
    hide Addr6Is, BytesAt, Addr6Cut;
    if Addr6Cut(fr, IP6_SRC, a) {
      CutBefore(fr, IP6_SRC, IP6_DST, a);
    }
  }

  /** An address that is cut hides a later one altogether. */
  lemma CutBefore(fr: seq<u8>, off: nat, later: nat, a: Addr6)
    requires Addr6Cut(fr, off, a) && later >= off + 16
    ensures !BytesAt(fr, later, a)
  {
  }

  lemma V4Means(f: FilterSpec, fr: seq<u8>)
    requires PortOk(f) && UseV4(f) && !Contradictory(f) && BytesAt(fr, 12, [0x08, 0x00])
    ensures Means(AnswerV4(f, fr), WantedV4(f, fr), CutV4(f, fr))
  {
    hide TransportIs, EitherHost4, Ports4, HostWanted, BytesAt, Host4Cut, Ports4Cut;
    ProtocolMeans(f, fr, 23, 1);
    if f.host.Host4? { Host4Means(fr, IP4_SRC, IP4_DST, f.host.v4); }
    if f.port.Some? { Ports4Means(fr, f.port.value); }
  }

  lemma V6Means(f: FilterSpec, fr: seq<u8>)
    requires PortOk(f) && UseV6(f) && !Contradictory(f) && BytesAt(fr, 12, [0x86, 0xdd])
    ensures Means(AnswerV6(f, fr), WantedV6(f, fr), CutV6(f, fr))
  {
    hide TransportIs, Addr6Is, BytesAt, FieldIs, HostWanted, Host6Cut, PortCut;
    ProtocolMeans(f, fr, 20, 58);
    if f.host.Host6? { Host6Means(fr, f.host.v6); }
    if f.port.Some? { PortsMean(fr, IP6_PORTS, f.port.value); }
  }

  lemma ArpMeans(f: FilterSpec, fr: seq<u8>)
    requires UseArp(f) && BytesAt(fr, 12, [0x08, 0x06])
    ensures Means(AnswerArp(f, fr), WantedArp(f, fr), CutArp(f, fr))
  {
    Field2(fr, ARP_PTYPE, ETHERTYPE_IP);
    FieldThere(fr, ARP_PTYPE, TwoBytes(ETHERTYPE_IP));
    hide FieldIs, BytesAt, EitherHost4, HostWanted, Host4Cut;
    if f.host.Host4? { Host4Means(fr, ARP_SPA, ARP_TPA, f.host.v4); }
  }

  lemma TypeIs(fr: seq<u8>, ty: nat)
    requires ty <= 65535
    ensures BytesAt(fr, ETH_TYPE, TwoBytes(ty)) <==> Load(fr, ETH_TYPE, 2).Some? && Load(fr, ETH_TYPE, 2).value == ty
  {
    Field2(fr, ETH_TYPE, ty);
  }

  /** Each family wants frames of its own type only, and only where the filter lets it in. */
  lemma WantedNeeds(f: FilterSpec, fr: seq<u8>)
    requires PortOk(f) && !Contradictory(f)
    ensures WantedV4(f, fr) ==> BytesAt(fr, 12, [0x08, 0x00]) && UseV4(f)
    ensures WantedV6(f, fr) ==> BytesAt(fr, 12, [0x86, 0xdd]) && UseV6(f)
    ensures WantedArp(f, fr) ==> BytesAt(fr, 12, [0x08, 0x06]) && UseArp(f)
  {
    hide BytesAt, HostWanted, PortWanted;
  }

  /** On every frame the answer is Yes when it is wanted, Cut when it is cut short, and No otherwise. */
  lemma AnswerIsMeaning(f: FilterSpec, fr: seq<u8>)
    requires PortOk(f) && !Contradictory(f)
    ensures Means(AnswerFor(f, fr), Wanted(f, fr), CutShort(f, fr))
  {
    TypeIs(fr, ETHERTYPE_IP);
    TypeIs(fr, ETHERTYPE_IP6);
    TypeIs(fr, ETHERTYPE_ARP);
    assert Load(fr, ETH_TYPE, 2).None? <==> Missing(fr, ETH_TYPE, 2);
    WantedNeeds(f, fr);
    hide BytesAt, Load, AnswerV4, AnswerV6, AnswerArp, CutV4, CutV6, CutArp, WantedV4, WantedV6, WantedArp;
    if Load(fr, ETH_TYPE, 2).Some? {
      if BytesAt(fr, 12, [0x08, 0x00]) && UseV4(f) { V4Means(f, fr); }
      if BytesAt(fr, 12, [0x86, 0xdd]) && UseV6(f) { V6Means(f, fr); }
      if BytesAt(fr, 12, [0x08, 0x06]) && UseArp(f) { ArpMeans(f, fr); }
    }
  }

  /**
    What an accepted filter keeps, on every frame: without NOT the wanted ones; under NOT the
    ones that are not wanted, unless they are cut short.
   */
  lemma KeptIffWanted(f: FilterSpec, fr: seq<u8>)
    requires Compilable(f) && !Contradictory(f)
    ensures !f.invert ==> Decide(f, fr) == if Wanted(f, fr) then f.snaplen else 0
    ensures f.invert ==> Decide(f, fr) == if !Wanted(f, fr) && !CutShort(f, fr) then f.snaplen else 0
  {
    AnswerIsMeaning(f, fr);
    hide AnswerFor, Wanted, CutShort;
  }

  /** A filter and its NOT share the frames out between them exactly off the frames cut short, which neither keeps. */
  lemma NotIsComplement(f: FilterSpec, fr: seq<u8>)
    requires Compilable(f) && !Contradictory(f)
    ensures var g := f.(invert := !f.invert);
            (Decide(f, fr) == 0) != (Decide(g, fr) == 0) <==> !CutShort(f, fr)
    ensures CutShort(f, fr) ==> !Wanted(f, fr)
  {
    AnswerIsMeaning(f, fr);
    assert AnswerFor(f.(invert := !f.invert), fr) == AnswerFor(f, fr);
    hide AnswerFor, Wanted, CutShort;
  }

  /** The failing case of NOT is real: a frame that ends before its type is no TCP frame, and NOT tcp drops it. */
  lemma NotDropsCutFrame()
    ensures var f := FilterSpec(96, Tcp, NoHost, None, true); var fr: seq<u8> := [0, 0, 0, 0, 0, 0, 0, 0, 0, 0, 0, 0];
            !Wanted(f, fr) && CutShort(f, fr) && Decide(f, fr) == 0
  {
    KeptIffWanted(FilterSpec(96, Tcp, NoHost, None, true), [0, 0, 0, 0, 0, 0, 0, 0, 0, 0, 0, 0]);
  }

  /** No frame of 78 bytes or more is cut short: that covers every header the filter looks at. */
  lemma LongFramesAreWhole(f: FilterSpec, fr: seq<u8>)
    requires PortOk(f) && |fr| >= 78
    ensures !CutShort(f, fr)
  {
    hide BytesAt;
  }

  // ---------------------------------------------------------------- refused exactly when hopeless

  /** A protocol number the filter is content with. */
  function ProtocolFor(f: FilterSpec, icmp: u8): (b: u8)
    ensures ProtocolIs(f, b, icmp)
  {
    match f.proto case Udp => 17 case Icmp => icmp case _ => 6
  }

  /** An IPv4 frame with a chosen protocol byte, source address and source port. */
  function Frame4(proto: u8, src: seq<u8>, port: seq<u8>): (fr: seq<u8>)
    requires |src| == 4 && |port| == 2
    ensures BytesAt(fr, 12, [0x08, 0x00]) && |fr| > 23 && fr[23] == proto
    ensures BytesAt(fr, 26, src)
    ensures FirstFragment(fr) && fr[14] == 0x45 && BytesAt(fr, 34, port)
  {
    var fr := seq(36, i requires 0 <= i < 36 =>
      if i == 12 then 8 else if i == 14 then 0x45 else if i == 23 then proto
      else if 26 <= i < 30 then src[i - 26] else if 34 <= i then port[i - 34] else 0);
    assert fr[23..24] == [proto] && fr[26..30] == src;
    fr
  }

  /** An IPv6 frame with a chosen next header, source address and source port. */
  function Frame6(proto: u8, src: Addr6, port: seq<u8>): (fr: seq<u8>)
    requires |port| == 2
    ensures BytesAt(fr, 12, [0x86, 0xdd]) && |fr| > 20 && fr[20] == proto
    ensures BytesAt(fr, 22, src)
    ensures BytesAt(fr, 54, port)
  {
    var fr := seq(56, i requires 0 <= i < 56 =>
      if i == 12 then 0x86 else if i == 13 then 0xdd else if i == 20 then proto
      else if 22 <= i < 38 then src[i - 22] else if 54 <= i then port[i - 54] else 0);
    assert fr[20..21] == [proto] && fr[22..38] == src;
    fr
  }

  /** An ARP frame about IPv4 with a chosen sender address. */
  function FrameArp(spa: seq<u8>): (fr: seq<u8>)
    requires |spa| == 4
    ensures BytesAt(fr, 12, [0x08, 0x06]) && BytesAt(fr, 16, [0x08, 0x00])
    ensures BytesAt(fr, 28, spa)
  {
    seq(32, i requires 0 <= i < 32 =>
      if i == 12 then 8 else if i == 13 then 6 else if i == 16 then 8 else if 28 <= i then spa[i - 28] else 0)
  }

  /** Some frame is wanted by every filter the compiler does not call impossible. */
  lemma SomeFrameWanted(f: FilterSpec) returns (fr: seq<u8>)
    requires PortOk(f) && !Contradictory(f)
    ensures Wanted(f, fr)
  {
    hide BytesAt, Frame4, Frame6, FrameArp;
    var port := if f.port.Some? then TwoBytes(f.port.value) else [0, 0];
    var addr := if f.host.Host4? then FourBytes(f.host.v4) else [0, 0, 0, 0];
    if UseV4(f) {
      fr := Frame4(ProtocolFor(f, 1), addr, port);
      assert WantedV4(f, fr);
    } else if UseV6(f) {
      var src: Addr6 := if f.host.Host6? then f.host.v6 else [0, 0, 0, 0, 0, 0, 0, 0, 0, 0, 0, 0, 0, 0, 0, 0];
      fr := Frame6(ProtocolFor(f, 58), src, port);
      assert WantedV6(f, fr);
    } else {
      fr := FrameArp(addr);
      assert WantedArp(f, fr);
    }
  }

  /** A contradiction wants no frame, and nothing else wants none. */
  lemma ContradictoryIffNothingWanted(f: FilterSpec)
    requires PortOk(f)
    ensures Contradictory(f) <==> forall fr :: !Wanted(f, fr)
  {
    if !Contradictory(f) {
      var fr := SomeFrameWanted(f);
    } else {
      forall fr ensures !Wanted(f, fr) {
        if f.port.Some? && (f.proto == Icmp || f.proto == Arp) {
          hide BytesAt;
        }
      }
    }
  }

  /** The frames a whole filter asks for, NOT included. */
  predicate AskedFor(f: FilterSpec, fr: seq<u8>)
    requires PortOk(f)
  {
    Wanted(f, fr) != f.invert
  }

  /**
    "The combination can never match a frame" is true of a filter refused with that error exactly
    when it is not NOT of a contradiction, which asks for every frame; and every filter that is
    not refused keeps some frame, inverted or not.
   */
  lemma ImpossibleIsHopelessIff(f: FilterSpec)
    requires Compilable(f)
    ensures Impossible(f) ==> ((forall fr :: !AskedFor(f, fr)) <==> !(f.invert && Contradictory(f)))
    ensures f.invert && Contradictory(f) ==> forall fr :: AskedFor(f, fr)
    ensures !Impossible(f) ==> exists fr :: Decide(f, fr) != 0
  {
    ContradictoryIffNothingWanted(f);
    if !Impossible(f) {
      var fr := KeepsSome(f);
    } else if Trivial(f) {
      assert forall fr :: Wanted(f, fr);
    }
    hide Wanted, Decide;
    assert AskedFor(f, []) || !AskedFor(f, []);
  }

  lemma KeepsSome(f: FilterSpec) returns (fr: seq<u8>)
    requires Compilable(f) && !Impossible(f)
    ensures Decide(f, fr) != 0
  {
    if f.invert {
      fr := [0, 0, 0, 0, 0, 0, 0, 0, 0, 0, 0, 0, 0, 0];
      BigEndianSmall(fr[12..14]);
      assert Load(fr, ETH_TYPE, 2).value == 0;
    } else {
      assert !Contradictory(f) by { TrivialIsConsistent(f); }
      fr := SomeFrameWanted(f);
      KeptIffWanted(f, fr);
    }
  }

  lemma TrivialIsConsistent(f: FilterSpec)
    ensures Trivial(f) ==> !Contradictory(f)
  {
  }

  /** The refusal that is wrong: NOT of a port on ARP asks for every frame and is called impossible. */
  lemma RefusedAlthoughAlwaysAsked()
    ensures var f := FilterSpec(96, Arp, NoHost, Some(80), true);
            Compilable(f) && Impossible(f) && forall fr :: AskedFor(f, fr)
  {
    ImpossibleIsHopelessIff(FilterSpec(96, Arp, NoHost, Some(80), true));
  }

  // ---------------------------------------------------------------- from the filter to the frame

  /**
    The capture tool and the library together: a filter compiled by the one and run by the other,
    on a frame in any number of runs, keeps what the headers say and nothing else.
   */
  method CompileAndFilter(f: FilterSpec, max: nat, v: View) returns (r: Result, kept: u32)
    requires v.Valid()
    ensures r.Ok? ==> PortOk(f)
    ensures r.Ok? && !f.invert ==> kept == if Wanted(f, Flat(v.segs)) then f.snaplen else 0
    ensures r.Ok? && f.invert ==>
      kept == if !Wanted(f, Flat(v.segs)) && !CutShort(f, Flat(v.segs)) then f.snaplen else 0
  {
    hide Filter, Decide, Wanted, CutShort, View.Valid, ValidProgram, Assemble;
    kept := 0;
    r := Compile(f, max);
    if r.Ok? {
      kept := FilterView(r.prog, v);
      assert v.ToPacket().bytes == Flat(v.segs);
      TrivialIsConsistent(f);
      KeptIffWanted(f, Flat(v.segs));
    }
  }
}
