/** Wire format of an announce (lib/mesh/announce_codec.cpp): quantised link
    qualities and costs in a byte buffer that may be too small for all of it. */
module AnnounceCodec {
  import opened Basics
  import opened Bytes
  import opened MeshTypes
  import opened Router
  import N = NeighborTable
  import R = RoutingTable

  const REPORT_BYTES: nat := 18
  const ROUTE_BYTES: nat := 35
  const HAS_CAPS: nat := 0x80

  // --------------------------------------------------------- quantisation

  function QToByte(q: real): u8
  {
    var q' := if q < 0.0 then 0.0 else if q > 1.0 then 1.0 else q;
    (q' * 255.0 + 0.5).Floor
  }

  function ByteToQ(b: u8): real { b as real / 255.0 }

  function CostToU16(cost: real): u16
  {
    var c := if cost < 0.0 then 0.0 else cost;
    var v := c * 16.0 + 0.5;
    if v > 65535.0 then 65535 else v.Floor
  }

  function U16ToCost(v: u16): real { v as real / 16.0 }

  function WireReport(r: Report): Report { r.(q := ByteToQ(QToByte(r.q))) }
  function WireRoute(r: RouteAdv): RouteAdv { r.(cost := U16ToCost(CostToU16(r.cost))) }

  /** Below saturation the wire cost is the nearest sixteenth: never more than 1/32
      off, and never below a whole number the true cost reaches. */
  lemma CostQuantum(cost: real, floor: nat)
    requires floor as real <= cost <= 4095.0
    ensures floor as real <= U16ToCost(CostToU16(cost))
    ensures cost - 1.0 / 32.0 <= U16ToCost(CostToU16(cost)) <= cost + 1.0 / 32.0
  {
    var v := cost * 16.0 + 0.5;
    assert v.Floor as real <= v < v.Floor as real + 1.0;
    assert (16 * floor) as real == 16.0 * floor as real;
    FloorAbove(v, 16 * floor);
  }

  lemma FloorAbove(v: real, n: int)
    requires n as real <= v
    ensures n <= v.Floor
  {
  }

  /** A quality travels as the nearest 255th of 1, a cost as the nearest sixteenth of 1 up
      to 4095.94; both stop at the ends of their range. */
  lemma QuantaExact(q: real, cost: real, b: u8, v: u16)
    ensures 0.0 <= q <= 1.0 ==> 255.0 * q - 0.5 < QToByte(q) as real <= 255.0 * q + 0.5
    ensures (q < 0.0 ==> QToByte(q) == 0) && (q > 1.0 ==> QToByte(q) == 255) && ByteToQ(b) * 255.0 == b as real
    ensures 0.0 <= cost <= 4095.9 ==> 16.0 * cost - 0.5 < CostToU16(cost) as real <= 16.0 * cost + 0.5
    ensures (cost < 0.0 ==> CostToU16(cost) == 0) && (cost >= 4096.0 ==> CostToU16(cost) == 65535)
    ensures U16ToCost(v) * 16.0 == v as real
  {
  }

  /** Quantised values survive a second trip unchanged. */
  lemma QuantisedStable(b: u8, v: u16)
    ensures QToByte(ByteToQ(b)) == b
    ensures v < 65535 ==> CostToU16(U16ToCost(v)) == v
  {
    var x := ByteToQ(b) * 255.0;
    assert x == b as real;
    assert 0.0 <= ByteToQ(b) <= 1.0;
    assert (x + 0.5).Floor == b;
    var y := U16ToCost(v) * 16.0;
    assert y == v as real;
    assert v < 65535 ==> (y + 0.5).Floor == v;
  }

  // --------------------------------------------------------------- layout

  ghost predicate WireSized(a: Announce)
  {
    && |a.reports| <= N.MAX_NEIGHBORS && |a.routes| <= R.MAX_ROUTES && a.caps < 0x1_0000
    && forall r :: r in a.routes ==> r.hops < 256
  }

  function HeaderBytes(hasCaps: bool): nat { if hasCaps then 4 else 2 }

  function EncodeReport(r: Report): (b: seq<u8>)
    ensures |b| == REPORT_BYTES
  {
    LeBytes(r.id, 16) + [QToByte(r.q), r.alias]
  }

  function EncodeRoute(r: RouteAdv): (b: seq<u8>)
    ensures |b| == ROUTE_BYTES
  {
    LeBytes(r.dst, 16) + LeBytes(r.nextHop, 16) + LeBytes(CostToU16(r.cost), 2) + [r.hops % 256]
  }

  function EncodeReports(s: seq<Report>): (b: seq<u8>)
    ensures |b| == REPORT_BYTES * |s|
  {
    if |s| == 0 then [] else EncodeReports(s[..|s| - 1]) + EncodeReport(s[|s| - 1])
  }

  function EncodeRoutes(s: seq<RouteAdv>): (b: seq<u8>)
    ensures |b| == ROUTE_BYTES * |s|
  {
    if |s| == 0 then [] else EncodeRoutes(s[..|s| - 1]) + EncodeRoute(s[|s| - 1])
  }

  function EncodeHeader(nReports: nat, nRoutes: nat, hasCaps: bool, caps: nat): (b: seq<u8>)
    requires nReports <= N.MAX_NEIGHBORS && nRoutes <= R.MAX_ROUTES
    ensures |b| == HeaderBytes(hasCaps)
  {
    [nReports + if hasCaps then HAS_CAPS else 0, nRoutes] + if hasCaps then LeBytes(caps, 2) else []
  }

  /** How many reports and then routes fit in cap bytes. */
  function FitReports(a: Announce, cap: nat): (n: nat)
    requires cap >= HeaderBytes(a.hasCaps)
    ensures n <= |a.reports|
    ensures HeaderBytes(a.hasCaps) + REPORT_BYTES * n <= cap
    ensures n < |a.reports| ==> HeaderBytes(a.hasCaps) + REPORT_BYTES * (n + 1) > cap
  {
    Min(|a.reports|, (cap - HeaderBytes(a.hasCaps)) / REPORT_BYTES)
  }

  function FitRoutes(a: Announce, cap: nat): (n: nat)
    requires cap >= HeaderBytes(a.hasCaps)
    ensures n <= |a.routes|
    ensures HeaderBytes(a.hasCaps) + REPORT_BYTES * FitReports(a, cap) + ROUTE_BYTES * n <= cap
    ensures n < |a.routes| ==> HeaderBytes(a.hasCaps) + REPORT_BYTES * FitReports(a, cap) + ROUTE_BYTES * (n + 1) > cap
  {
    Min(|a.routes|, (cap - HeaderBytes(a.hasCaps) - REPORT_BYTES * FitReports(a, cap)) / ROUTE_BYTES)
  }

  /** The announce that leaves a sender with cap bytes of room. */
  function Encoded(a: Announce, cap: nat): seq<u8>
    requires |a.reports| <= N.MAX_NEIGHBORS && |a.routes| <= R.MAX_ROUTES
  {
    if cap < HeaderBytes(a.hasCaps) then []
    else
      var n, m := FitReports(a, cap), FitRoutes(a, cap);
      EncodeHeader(n, m, a.hasCaps, a.caps) + EncodeReports(a.reports[..n]) + EncodeRoutes(a.routes[..m])
  }

  // -------------------------------------------------------------- parsing

  function DecodeReport(b: seq<u8>): Report
    requires |b| == REPORT_BYTES
  {
    Report(DecodeId(b[..16]), ByteToQ(b[16]), b[17])
  }

  function DecodeId(b: seq<u8>): NodeId
    requires |b| == 16
  {
    ByteValBound(b);
    Pow256Small();
    ByteVal(b)
  }

  function DecodeRoute(b: seq<u8>): RouteAdv
    requires |b| == ROUTE_BYTES
  {
    RouteAdv(DecodeId(b[..16]), DecodeId(b[16..32]), U16ToCost(LeU16(b[32..34])), b[34])
  }

  function DecodeReports(b: seq<u8>, n: nat): (s: seq<Report>)
    requires |b| >= REPORT_BYTES * n
    ensures |s| == n
  {
    if n == 0 then [] else DecodeReports(b, n - 1) + [DecodeReport(b[REPORT_BYTES * (n - 1)..REPORT_BYTES * n])]
  }

  function DecodeRoutes(b: seq<u8>, n: nat): (s: seq<RouteAdv>)
    requires |b| >= ROUTE_BYTES * n
    ensures |s| == n
  {
    if n == 0 then [] else DecodeRoutes(b, n - 1) + [DecodeRoute(b[ROUTE_BYTES * (n - 1)..ROUTE_BYTES * n])]
  }

  datatype Parsed = Malformed | Parsed(announce: Announce)

  /** Parse untrusted bytes; counts beyond the tables or the buffer are refused. */
  function Decoded(b: seq<u8>): Parsed
  {
    if |b| < 2 then Malformed
    else
      var hasCaps := b[0] >= HAS_CAPS;
      var n := b[0] % HAS_CAPS;
      var m: nat := b[1];
      if n > N.MAX_NEIGHBORS || m > R.MAX_ROUTES then Malformed
      else if |b| < HeaderBytes(hasCaps) + REPORT_BYTES * n + ROUTE_BYTES * m then Malformed
      else
        var h := HeaderBytes(hasCaps);
        Parsed(Announce(DecodeReports(b[h..], n), DecodeRoutes(b[h + REPORT_BYTES * n..], m),
                        if hasCaps then LeU16(b[2..4]) else 0, hasCaps))
  }

  /** A report stands in 18 bytes: the neighbour in 16, low byte first, its quality in one
      and the alias in one. */
  ghost predicate ReportAt(b: seq<u8>, o: nat, r: Report)
    requires o + 18 <= |b|
  {
    r.id == ByteVal(b[o..o + 16]) && 255.0 * r.q == b[o + 16] as real && r.alias == b[o + 17]
  }

  /** And a route in 35: destination and next hop in 16 each, the cost in sixteenths in
      two, low byte first, and the hop count in one. */
  ghost predicate RouteAt(b: seq<u8>, o: nat, r: RouteAdv)
    requires o + 35 <= |b|
  {
    && r.dst == ByteVal(b[o..o + 16]) && r.nextHop == ByteVal(b[o + 16..o + 32])
    && 16.0 * r.cost == (b[o + 32] as int + 0x100 * b[o + 33] as int) as real && r.hops == b[o + 34]
  }

  lemma Inside(b: seq<u8>, h: nat, lo: nat, n: nat, e: seq<u8>)
    requires h + lo + n <= |b| && e == b[h..][lo..lo + n]
    ensures |e| == n && forall k :: 0 <= k < n ==> e[k] == b[h + lo + k]
  {
  }

  lemma {:induction false} ReportsAt(b: seq<u8>, h: nat, n: nat, i: nat)
    requires h + 18 * n <= |b| && i < n
    ensures ReportAt(b, h + 18 * i, DecodeReports(b[h..], n)[i])
  {
    if i < n - 1 {
      ReportsAt(b, h, n - 1, i);
    } else {
      var o, e := h + 18 * i, b[h..][18 * i..18 * i + 18];
      Inside(b, h, 18 * i, 18, e);
      assert e[..16] == b[o..o + 16];
    }
  }

  lemma {:induction false} RoutesAt(b: seq<u8>, h: nat, n: nat, i: nat)
    requires h + 35 * n <= |b| && i < n
    ensures RouteAt(b, h + 35 * i, DecodeRoutes(b[h..], n)[i])
  {
    if i < n - 1 {
      RoutesAt(b, h, n - 1, i);
    } else {
      var o, e := h + 35 * i, b[h..][35 * i..35 * i + 35];
      Inside(b, h, 35 * i, 35, e);
      assert e[..16] == b[o..o + 16];
      assert e[16..32] == b[o + 16..o + 32];
      TwoBytes(e[32..34]);
    }
  }

  /** Parsing on the bytes: the first holds the number of reports, at most 32, and in its
      top bit whether two bytes of capabilities follow; the second the number of routes,
      at most 64; then come the reports and the routes, and whatever follows is ignored. */
  lemma DecodedExact(b: seq<u8>)
    ensures Decoded(b) == Malformed <==>
              || |b| < 2 || b[0] % 0x80 > 32 || b[1] > 64
              || |b| < (if b[0] >= 0x80 then 4 else 2) + 18 * (b[0] as int % 0x80) + 35 * b[1] as int
    ensures Decoded(b).Parsed? ==>
              var a, h, n := Decoded(b).announce, if b[0] >= 0x80 then 4 else 2, b[0] % 0x80;
              && |a.reports| == n && |a.routes| == b[1] && (a.hasCaps <==> b[0] >= 0x80)
              && a.caps == (if a.hasCaps then b[2] as int + 0x100 * b[3] as int else 0)
              && (forall i :: 0 <= i < n ==> ReportAt(b, h + 18 * i, a.reports[i]))
              && forall i :: 0 <= i < |a.routes| ==> RouteAt(b, h + 18 * n + 35 * i, a.routes[i])
  {
    if Decoded(b).Parsed? {
      var a, h: nat, n: nat := Decoded(b).announce, if b[0] >= 0x80 then 4 else 2, b[0] % 0x80;
      if b[0] >= 0x80 { TwoBytes(b[2..4]); }
      forall i | 0 <= i < n
        ensures ReportAt(b, h + 18 * i, a.reports[i])
      {
        ReportsAt(b, h, n, i);
      }
      forall i | 0 <= i < |a.routes|
        ensures RouteAt(b, h + 18 * n + 35 * i, a.routes[i])
      {
        RoutesAt(b, h + 18 * n, |a.routes|, i);
      }
    }
  }

  // ------------------------------------------------------------ round trip

  lemma ReportRoundTrip(r: Report)
    ensures DecodeReport(EncodeReport(r)) == WireReport(r)
  {
    Pow256Small();
    LeBytesVal(r.id, 16);
    assert EncodeReport(r)[..16] == LeBytes(r.id, 16);
  }

  function WireReports(s: seq<Report>): (w: seq<Report>)
    ensures |w| == |s|
  {
    seq(|s|, i requires 0 <= i < |s| => WireReport(s[i]))
  }

  function WireRoutes(s: seq<RouteAdv>): (w: seq<RouteAdv>)
    ensures |w| == |s|
  {
    seq(|s|, i requires 0 <= i < |s| => WireRoute(s[i]))
  }

  /** A list of encoded entries up to its last, and the last. */
  lemma Behind(lead: seq<u8>, last: seq<u8>, rest: seq<u8>)
    ensures (lead + last) + rest == lead + (last + rest)
    ensures ((lead + last) + rest)[|lead|..|lead| + |last|] == last
  {
  }

  lemma {:induction false} ReportsRoundTrip(s: seq<Report>, rest: seq<u8>)
    ensures DecodeReports(EncodeReports(s) + rest, |s|) == WireReports(s)
  {
    if |s| > 0 {
      var n := |s| - 1;
      var last := EncodeReport(s[n]);
      ReportsRoundTrip(s[..n], last + rest);
      Behind(EncodeReports(s[..n]), last, rest);
      ReportRoundTrip(s[n]);
      assert WireReports(s) == WireReports(s[..n]) + [WireReport(s[n])];
    }
  }

  lemma RouteRoundTrip(r: RouteAdv)
    requires r.hops < 256
    ensures DecodeRoute(EncodeRoute(r)) == WireRoute(r)
  {
    var b := EncodeRoute(r);
    Pow256Small();
    LeBytesVal(r.dst, 16);
    LeBytesVal(r.nextHop, 16);
    U16RoundTrip(CostToU16(r.cost));
    Sections(LeBytes(r.dst, 16), LeBytes(r.nextHop, 16), LeBytes(CostToU16(r.cost), 2), r.hops, b);
  }

  lemma Sections(dst: seq<u8>, hop: seq<u8>, cost: seq<u8>, hops: u8, b: seq<u8>)
    requires |dst| == |hop| == 16 && |cost| == 2 && b == dst + hop + cost + [hops]
    ensures b[..16] == dst && b[16..32] == hop && b[32..34] == cost && b[34] == hops
  {
  }

  lemma U16RoundTrip(v: u16)
    ensures LeU16(LeBytes(v, 2)) == v
  {
    Pow256Small();
    LeBytesVal(v, 2);
  }

  lemma {:induction false} RoutesRoundTrip(s: seq<RouteAdv>, rest: seq<u8>)
    requires forall r :: r in s ==> r.hops < 256
    ensures DecodeRoutes(EncodeRoutes(s) + rest, |s|) == WireRoutes(s)
  {
    if |s| > 0 {
      var n := |s| - 1;
      var last := EncodeRoute(s[n]);
      RoutesRoundTrip(s[..n], last + rest);
      Behind(EncodeRoutes(s[..n]), last, rest);
      RouteRoundTrip(s[n]);
      assert WireRoutes(s) == WireRoutes(s[..n]) + [WireRoute(s[n])];
    }
  }

  /** What a receiver sees: the longest prefix of reports, then of routes, that fits,
      with qualities and costs quantised. */
  ghost function WirePrefix(a: Announce, cap: nat): Announce
    requires cap >= HeaderBytes(a.hasCaps)
  {
    var n, m := FitReports(a, cap), FitRoutes(a, cap);
    Announce(WireReports(a.reports[..n]), WireRoutes(a.routes[..m]), if a.hasCaps then a.caps else 0, a.hasCaps)
  }

  /** The two count bytes and the optional capability field survive. */
  lemma HeaderRoundTrip(n: nat, m: nat, hasCaps: bool, caps: nat, b: seq<u8>)
    requires n <= N.MAX_NEIGHBORS && m <= R.MAX_ROUTES && caps < 0x1_0000
    requires |b| >= HeaderBytes(hasCaps) && b[..HeaderBytes(hasCaps)] == EncodeHeader(n, m, hasCaps, caps)
    ensures b[0] % HAS_CAPS == n && (b[0] >= HAS_CAPS <==> hasCaps) && b[1] == m
    ensures hasCaps ==> LeU16(b[2..4]) == caps
  {
    var h := EncodeHeader(n, m, hasCaps, caps);
    assert h[0] == b[..HeaderBytes(hasCaps)][0] && h[1] == b[..HeaderBytes(hasCaps)][1];
    if hasCaps {
      assert b[2..4] == h[2..4] == LeBytes(caps, 2);
      U16RoundTrip(caps);
    }
  }

  lemma Tails(head: seq<u8>, reports: seq<u8>, routes: seq<u8>)
    ensures (head + reports + routes)[|head|..] == reports + routes
    ensures (head + reports + routes)[|head| + |reports|..] == routes + []
  {
  }

  /** The entries of an encoded announce, read back behind its header. */
  lemma BodyRoundTrip(a: Announce, cap: nat)
    requires WireSized(a) && cap >= HeaderBytes(a.hasCaps)
    ensures var h, n := HeaderBytes(a.hasCaps), FitReports(a, cap);
      && |Encoded(a, cap)| == h + REPORT_BYTES * n + ROUTE_BYTES * FitRoutes(a, cap)
      && DecodeReports(Encoded(a, cap)[h..], n) == WirePrefix(a, cap).reports
      && DecodeRoutes(Encoded(a, cap)[h + REPORT_BYTES * n..], FitRoutes(a, cap)) == WirePrefix(a, cap).routes
  {
    var n, m := FitReports(a, cap), FitRoutes(a, cap);
    Tails(EncodeHeader(n, m, a.hasCaps, a.caps), EncodeReports(a.reports[..n]), EncodeRoutes(a.routes[..m]));
    ReportsRoundTrip(a.reports[..n], EncodeRoutes(a.routes[..m]));
    RoutesRoundTrip(a.routes[..m], []);
  }

  lemma EncodedHead(a: Announce, cap: nat)
    requires WireSized(a) && cap >= HeaderBytes(a.hasCaps)
    ensures var b, n := Encoded(a, cap), FitReports(a, cap);
      && |b| >= HeaderBytes(a.hasCaps)
      && b[0] % HAS_CAPS == n && (b[0] >= HAS_CAPS <==> a.hasCaps) && b[1] == FitRoutes(a, cap)
      && (a.hasCaps ==> LeU16(b[2..4]) == a.caps)
  {
    var n, m := FitReports(a, cap), FitRoutes(a, cap);
    var head := EncodeHeader(n, m, a.hasCaps, a.caps);
    assert Encoded(a, cap)[..|head|] == head;
    HeaderRoundTrip(n, m, a.hasCaps, a.caps, Encoded(a, cap));
  }

  /** Decoding what was encoded yields exactly that, for every buffer size. */
  lemma RoundTrip(a: Announce, cap: nat)
    requires WireSized(a)
    ensures cap < HeaderBytes(a.hasCaps) ==> Decoded(Encoded(a, cap)) == Malformed
    ensures cap >= HeaderBytes(a.hasCaps) ==> Decoded(Encoded(a, cap)) == Parsed(WirePrefix(a, cap))
  {
    if cap >= HeaderBytes(a.hasCaps) {
      EncodedHead(a, cap);
      BodyRoundTrip(a, cap);
    }
  }

  // ------------------------------------------------------------- the buffer

  /** Write reports from off on while they fit; returns how many. */
  method SerializeReports(s: seq<Report>, buf: array<u8>, start: nat, cap: nat) returns (n: nat)
    requires start <= cap <= buf.Length
    modifies buf
    ensures n == Min(|s|, (cap - start) / REPORT_BYTES)
    ensures buf[start..start + REPORT_BYTES * n] == EncodeReports(s[..n])
  {
    n := 0;
    var off := start;
    while n < |s| && off + REPORT_BYTES <= cap
      invariant 0 <= n <= |s| && off == start + REPORT_BYTES * n <= cap
      invariant buf[start..off] == EncodeReports(s[..n])
    {
      assert s[..n + 1][..n] == s[..n];
      ghost var was := buf[..off];
      WriteAt(buf, off, EncodeReport(s[n]));
      assert buf[start..off + REPORT_BYTES] == was[start..] + EncodeReport(s[n]);
      off := off + REPORT_BYTES;
      n := n + 1;
    }
  }

  method SerializeRoutes(s: seq<RouteAdv>, buf: array<u8>, start: nat, cap: nat) returns (n: nat)
    requires start <= cap <= buf.Length
    modifies buf
    ensures n == Min(|s|, (cap - start) / ROUTE_BYTES)
    ensures buf[..start] == old(buf[..start])
    ensures buf[start..start + ROUTE_BYTES * n] == EncodeRoutes(s[..n])
  {
    n := 0;
    var off := start;
    while n < |s| && off + ROUTE_BYTES <= cap
      invariant 0 <= n <= |s| && off == start + ROUTE_BYTES * n <= cap
      invariant buf[..start] == old(buf[..start])
      invariant buf[start..off] == EncodeRoutes(s[..n])
    {
      assert s[..n + 1][..n] == s[..n];
      ghost var was := buf[..off];
      WriteAt(buf, off, EncodeRoute(s[n]));
      assert buf[..start] == was[..start];
      assert buf[start..off + ROUTE_BYTES] == was[start..] + EncodeRoute(s[n]);
      off := off + ROUTE_BYTES;
      n := n + 1;
    }
  }

  /** Serialise into a buffer of which `cap` bytes may be used; returns the length
      written, 0 when not even the header fits. */
  method Serialize(a: Announce, buf: array<u8>, cap: nat) returns (len: nat)
    requires |a.reports| <= N.MAX_NEIGHBORS && |a.routes| <= R.MAX_ROUTES
    requires cap <= buf.Length
    modifies buf
    ensures len <= cap && buf[..len] == Encoded(a, cap)
  {
    var hdr := HeaderBytes(a.hasCaps);
    if cap < hdr { return 0; }
    var n := SerializeReports(a.reports, buf, hdr, cap);
    var mid := hdr + REPORT_BYTES * n;
    ghost var b0 := buf[..mid];
    var m := SerializeRoutes(a.routes, buf, mid, cap);
    len := mid + ROUTE_BYTES * m;
    ghost var b1 := buf[..];
    assert n == FitReports(a, cap) && m == FitRoutes(a, cap);
    var head := EncodeHeader(n, m, a.hasCaps, a.caps);
    WriteAt(buf, 0, head);
    Assembled(b0, b1, buf[..], head, EncodeReports(a.reports[..n]), EncodeRoutes(a.routes[..m]));
  }

  /** Reports written first, routes behind them, the header last over reserved room. */
  lemma Assembled(b0: seq<u8>, b1: seq<u8>, b2: seq<u8>, head: seq<u8>, first: seq<u8>, second: seq<u8>)
    requires |b0| == |head| + |first| && |b0| + |second| <= |b1| == |b2|
    requires b0[|head|..] == first && b1[..|b0|] == b0 && b1[|b0|..|b0| + |second|] == second
    requires b2[..|head|] == head && b2[|head|..] == b1[|head|..]
    ensures b2[..|b0| + |second|] == head + first + second
  {
    var len := |b0| + |second|;
    assert b2[|head|..len] == b2[|head|..][..len - |head|] == b1[|head|..][..len - |head|] == b1[|head|..len];
    assert b1[|head|..len] == b0[|head|..] + second;
    assert b2[..len] == b2[..|head|] + b2[|head|..len];
  }

  method Deserialize(buf: array<u8>, len: nat) returns (out: Parsed)
    requires len <= buf.Length
    ensures out == Decoded(buf[..len])
  {
    if len < 2 { return Malformed; }
    var hasCaps := buf[0] >= HAS_CAPS;
    var n: nat := buf[0] % HAS_CAPS;
    var m: nat := buf[1];
    if n > N.MAX_NEIGHBORS || m > R.MAX_ROUTES { return Malformed; }
    var hdr := HeaderBytes(hasCaps);
    if len < hdr + REPORT_BYTES * n + ROUTE_BYTES * m { return Malformed; }
    var reports := DeserializeReports(buf, len, hdr, n);
    var routes := DeserializeRoutes(buf, len, hdr + REPORT_BYTES * n, m);
    assert hasCaps ==> buf[2..4] == buf[..len][2..4];
    var caps := if hasCaps then LeU16(buf[2..4]) else 0;
    out := Parsed(Announce(reports, routes, caps, hasCaps));
  }

  lemma SliceOf(buf: seq<u8>, len: nat, start: nat, lo: nat, hi: nat)
    requires start + lo <= start + hi <= len <= |buf|
    ensures buf[start + lo..start + hi] == buf[..len][start..][lo..hi]
  {
    var tail := buf[..len][start..];
    assert forall k :: lo <= k < hi ==> tail[k] == buf[start + k];
  }

  method DeserializeReports(buf: array<u8>, len: nat, start: nat, n: nat) returns (reports: seq<Report>)
    requires start + REPORT_BYTES * n <= len <= buf.Length
    ensures reports == DecodeReports(buf[..len][start..], n)
  {
    reports := [];
    var off := start;
    var i := 0;
    while i < n
      invariant 0 <= i <= n && off == start + REPORT_BYTES * i
      invariant reports == DecodeReports(buf[..len][start..], i)
    {
      SliceOf(buf[..], len, start, REPORT_BYTES * i, REPORT_BYTES * (i + 1));
      reports := reports + [DecodeReport(buf[off..off + REPORT_BYTES])];
      off := off + REPORT_BYTES;
      i := i + 1;
    }
  }

  method DeserializeRoutes(buf: array<u8>, len: nat, start: nat, n: nat) returns (routes: seq<RouteAdv>)
    requires start + ROUTE_BYTES * n <= len <= buf.Length
    ensures routes == DecodeRoutes(buf[..len][start..], n)
  {
    routes := [];
    var off := start;
    var i := 0;
    while i < n
      invariant 0 <= i <= n && off == start + ROUTE_BYTES * i
      invariant routes == DecodeRoutes(buf[..len][start..], i)
    {
      SliceOf(buf[..], len, start, ROUTE_BYTES * i, ROUTE_BYTES * (i + 1));
      routes := routes + [DecodeRoute(buf[off..off + ROUTE_BYTES])];
      off := off + ROUTE_BYTES;
      i := i + 1;
    }
  }
}
