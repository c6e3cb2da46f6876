/** Longest-prefix-match routing (section 5.2.4.3 of RFC 1812) between network interfaces. */
module Routers {
  import opened Prelude
  import opened NetParsers
  import opened NetworkInterfaces
  import IP = Ipv4Codec

  // ---------------------------------------------------------------- bits

  /** Bitwise AND. */
  function BitAnd(x: nat, y: nat): nat {
    if x == 0 then 0 else 2 * BitAnd(x / 2, y / 2) + (if x % 2 == 1 && y % 2 == 1 then 1 else 0)
  }

  function Bit(x: nat, i: nat): nat
    decreases i
  {
    if i == 0 then x % 2 else Bit(x / 2, i - 1)
  }

  /** `m` ones. */
  function Ones(m: nat): nat {
    Pow2(m) - 1
  }

  /** `0xFFFFFFFF << (32 - length)` in 32 bits: `length` ones, then zeros. */
  function Mask(length: nat): nat
    requires length <= 32
  {
    Ones(length) * Pow2(32 - length)
  }

  datatype Route = Route(prefix: u32, length: nat, nextHop: Option<u32>, iface: nat)

  /** Prefix lengths a 32-bit shift can handle. */
  ghost predicate Shiftable(table: seq<Route>) {
    forall r :: r in table ==> r.length <= 32
  }

  /** The test in the loop; a route of length zero matches everything. */
  predicate Matches(r: Route, dst: u32)
    requires r.length <= 32
  {
    r.length == 0 || BitAnd(dst, Mask(r.length)) == r.prefix
  }

  /** The two numbers agree on their bits from `lo` up to `hi`. */
  ghost predicate AgreeOnBits(x: nat, y: nat, lo: nat, hi: nat) {
    forall i: nat :: lo <= i < hi ==> Bit(x, i) == Bit(y, i)
  }

  lemma {:induction false} AndWithOnes(x: nat, m: nat)
    requires x < Pow2(m)
    ensures BitAnd(x, Pow2(m) - 1) == x
    decreases m
  {
    if x > 0 {
      var o := Pow2(m - 1);
      assert Pow2(m) == 2 * o;
      AndWithOnes(x / 2, m - 1);
      hide Pow2;
      var y := 2 * o - 1;
      assert y / 2 == o - 1 && y % 2 == 1;
      assert BitAnd(x, y) == 2 * BitAnd(x / 2, o - 1) + x % 2;
    }
  }

  /** Masking keeps the high bits: it removes the remainder modulo the low part. */
  lemma {:induction false} AndWithMask(x: nat, ones: nat, zeros: nat)
    requires x < Pow2(ones + zeros)
    ensures BitAnd(x, Ones(ones) * Pow2(zeros)) == x - x % Pow2(zeros)
    decreases zeros
  {
    if zeros == 0 {
      AndWithOnes(x, ones);
    } else {
      var z := Pow2(zeros - 1);
      assert Pow2(zeros) == 2 * z && Pow2(ones + zeros) == 2 * Pow2(ones + zeros - 1);
      AndWithMask(x / 2, ones, zeros - 1);
      AndOneZeroMore(x, Ones(ones), z);
    }
  }

  lemma AndOneZeroMore(x: nat, ones: nat, z: nat)
    requires z > 0 && BitAnd(x / 2, ones * z) == x / 2 - x / 2 % z
    ensures BitAnd(x, ones * (2 * z)) == x - x % (2 * z)
  {
    hide BitAnd;
    MaskHalves(ones, z);
    RemainderOfHalf(x, z);
    AndWithEven(x, ones * z);
  }

  lemma AndWithEven(x: nat, half: nat)
    ensures BitAnd(x, 2 * half) == 2 * BitAnd(x / 2, half)
  {
    assert 2 * half / 2 == half && 2 * half % 2 == 0;
  }

  lemma MaskHalves(a: nat, b: nat)
    ensures a * (2 * b) == 2 * (a * b)
  {
  }

  lemma RemainderOfHalf(x: nat, b: nat)
    requires b > 0
    ensures x - x % (2 * b) == 2 * (x / 2 - x / 2 % b)
  {
    var h := x / 2;
    var q, r := h / b, h % b;
    assert h == q * b + r;
    var low := 2 * r + x % 2;
    assert x == q * (2 * b) + low by { assert q * (2 * b) == 2 * (q * b); }
    UniqueRemainder(x, 2 * b, q, low);
  }

  lemma UniqueRemainder(x: nat, m: nat, q: nat, r: nat)
    requires m > 0 && x == q * m + r && r < m
    ensures x % m == r && x / m == q
  {
    var q', r' := x / m, x % m;
    assert x == q' * m + r';
    if q' < q {
      assert q * m >= (q' + 1) * m by { MulMono(q' + 1, q, m); }
    } else if q < q' {
      assert q' * m >= (q + 1) * m by { MulMono(q + 1, q', m); }
    }
  }

  lemma MulMono(a: nat, b: nat, m: nat)
    requires a <= b
    ensures a * m <= b * m
  {
  }

  /** Agreement on the high bits is equality of the quotients. */
  lemma {:induction false} AgreementIsQuotient(x: nat, y: nat, lo: nat, hi: nat)
    requires lo <= hi && x < Pow2(hi) && y < Pow2(hi)
    ensures AgreeOnBits(x, y, lo, hi) <==> x / Pow2(lo) == y / Pow2(lo)
    decreases hi
  {
    if hi > 0 {
      ShiftAgreement(x, y, lo, hi);
      if lo > 0 {
        AgreementIsQuotient(x / 2, y / 2, lo - 1, hi - 1);
        QuotientOfHalf(x, Pow2(lo - 1));
        QuotientOfHalf(y, Pow2(lo - 1));
      } else {
        AgreementIsQuotient(x / 2, y / 2, 0, hi - 1);
      }
    }
  }

  lemma ShiftAgreement(x: nat, y: nat, lo: nat, hi: nat)
    requires 0 < hi && lo <= hi
    ensures lo > 0 ==> (AgreeOnBits(x, y, lo, hi) <==> AgreeOnBits(x / 2, y / 2, lo - 1, hi - 1))
    ensures lo == 0 ==> (AgreeOnBits(x, y, 0, hi) <==> x % 2 == y % 2 && AgreeOnBits(x / 2, y / 2, 0, hi - 1))
  {
    var l := if lo == 0 then 0 else lo - 1;
    if AgreeOnBits(x, y, lo, hi) {
      forall i: nat | l <= i < hi - 1
        ensures Bit(x / 2, i) == Bit(y / 2, i)
      {
        assert Bit(x, i + 1) == Bit(y, i + 1);
      }
      assert lo == 0 ==> Bit(x, 0) == Bit(y, 0);
    }
    if AgreeOnBits(x / 2, y / 2, l, hi - 1) && (lo == 0 ==> x % 2 == y % 2) {
      forall i: nat | lo <= i < hi
        ensures Bit(x, i) == Bit(y, i)
      {
        if i > 0 {
          assert Bit(x / 2, i - 1) == Bit(y / 2, i - 1);
        }
      }
    }
  }

  lemma QuotientOfHalf(x: nat, b: nat)
    requires b > 0
    ensures x / (2 * b) == x / 2 / b
  {
    var h := x / 2;
    var q, r := h / b, h % b;
    assert h == q * b + r;
    assert x == q * (2 * b) + (2 * r + x % 2) by { assert q * (2 * b) == 2 * (q * b); }
    UniqueRemainder(x, 2 * b, q, 2 * r + x % 2);
  }

  /**
    The mask test is agreement on the high `length` bits -- for a prefix whose low bits are zero; a
    prefix with low bits set never matches.
   */
  lemma MaskTestIsAgreement(r: Route, dst: u32)
    requires r.length <= 32
    ensures Matches(r, dst) <==>
              r.length == 0 || (r.prefix % Pow2(32 - r.length) == 0 && AgreeOnBits(dst, r.prefix, 32 - r.length, 32))
  {
    hide BitAnd, AgreeOnBits, Pow2;
    Pow2Of32();
    var p := Pow2(32 - r.length);
    AndWithMask(dst, r.length, 32 - r.length);
    AgreementIsQuotient(dst, r.prefix, 32 - r.length, 32);
    QuotientAndRemainder(dst, r.prefix, p);
  }

  lemma QuotientAndRemainder(x: nat, y: nat, p: nat)
    requires p > 0
    ensures x - x % p == y <==> y % p == 0 && x / p == y / p
  {
    assert x == x / p * p + x % p;
    assert y == y / p * p + y % p;
    if x - x % p == y {
      UniqueRemainder(y, p, x / p, 0);
    }
  }

  lemma Pow2Of32()
    ensures Pow2(32) == TWO32
  {
    assert Pow2(4) == 16;
    assert Pow2(8) == 256;
    assert Pow2(12) == 4096;
    assert Pow2(16) == 65536;
    assert Pow2(20) == 1048576;
    assert Pow2(24) == 16777216;
    assert Pow2(28) == 268435456;
  }

  // ---------------------------------------------------------------- choosing a route

  /** Position of the route the loop ends up with: the later one wins among equals. */
  function Best(table: seq<Route>, dst: u32): Option<nat>
    requires Shiftable(table)
    ensures Best(table, dst).Some? ==> Best(table, dst).value < |table|
  {
    if table == [] then None else
    var front := table[..|table| - 1];
    var r := table[|table| - 1];
    var b := Best(front, dst);
    if Matches(r, dst) && (b == None || table[b.value].length <= r.length) then Some(|table| - 1) else b
  }

  /** Longest prefix match: nothing matches, or the choice is a longest matching route, and the last one of that length. */
  ghost predicate IsLongestMatch(table: seq<Route>, dst: u32, choice: Option<nat>)
    requires Shiftable(table)
  {
    match choice
    case None => forall j :: 0 <= j < |table| ==> !Matches(table[j], dst)
    case Some(i) =>
      && i < |table| && Matches(table[i], dst)
      && forall j :: 0 <= j < |table| && Matches(table[j], dst) ==>
           table[j].length <= table[i].length && (table[j].length == table[i].length ==> j <= i)
  }

  lemma {:induction false} BestIsLongestMatch(table: seq<Route>, dst: u32)
    requires Shiftable(table)
    ensures IsLongestMatch(table, dst, Best(table, dst))
    decreases |table|
  {
    hide Matches;
    if table != [] {
      var front := table[..|table| - 1];
      assert forall j :: 0 <= j < |front| ==> front[j] == table[j];
      BestIsLongestMatch(front, dst);
    }
  }

  lemma LongestMatchIsUnique(table: seq<Route>, dst: u32, a: Option<nat>, b: Option<nat>)
    requires Shiftable(table)
    requires IsLongestMatch(table, dst, a) && IsLongestMatch(table, dst, b)
    ensures a == b
  {
    hide Matches;
    if a.Some? && b.Some? {
      assert Matches(table[a.value], dst) && Matches(table[b.value], dst);
    }
  }

  // ---------------------------------------------------------------- forwarding one datagram

  /** A datagram handed to an interface for a next hop. */
  datatype Handover = Handover(iface: nat, d: IP.IPv4Datagram, hop: u32)

  function Decrement(d: IP.IPv4Datagram): IP.IPv4Datagram
    requires d.header.ttl > 1
  {
    d.(header := d.header.(ttl := d.header.ttl - 1))
  }

  /** What the table says about a datagram: drop it, or hand it over once. */
  ghost function Decide(table: seq<Route>, d: IP.IPv4Datagram): (hs: seq<Handover>)
    requires Shiftable(table)
    ensures |hs| <= 1
    ensures hs != [] ==> d.header.ttl > 1 && hs[0].d == Decrement(d)
  {
    if d.header.ttl <= 1 then [] else
    match Best(table, d.header.dst)
    case None => []
    case Some(i) =>
      var hop := match table[i].nextHop case Some(h) => h case None => d.header.dst;
      [Handover(table[i].iface, Decrement(d), hop)]
  }

  /**
    Forwarding throws: the route names an interface that does not exist, or the datagram -- which the
    parser accepted without heeding its header's verdict -- cannot be serialized again.
   */
  ghost predicate Fails(table: seq<Route>, d: IP.IPv4Datagram, n: nat)
    requires Shiftable(table)
  {
    var hs := Decide(table, d);
    hs != [] && (hs[0].iface >= n || IP.EncodeDatagram(hs[0].d) == None)
  }

  /** The handover as far as it gets: `send_datagram` is entered if the interface exists. */
  ghost function Reached(table: seq<Route>, d: IP.IPv4Datagram, n: nat): (hs: seq<Handover>)
    requires Shiftable(table)
    ensures forall h :: h in hs ==> h.iface < n
    ensures !Fails(table, d, n) ==> hs == Decide(table, d)
  {
    var hs := Decide(table, d);
    if hs != [] && hs[0].iface < n then hs else []
  }

  /** The datagram at the front of its queue after it was looked at. */
  function Touched(d: IP.IPv4Datagram): IP.IPv4Datagram {
    if d.header.ttl <= 1 then d else Decrement(d)
  }

  /**
    One datagram: dropped exactly when its time to live is used up or no route matches; otherwise handed
    to exactly one interface, that of the longest match, with its time to live reduced by one.
   */
  lemma DecidedExactly(table: seq<Route>, d: IP.IPv4Datagram)
    requires Shiftable(table)
    ensures Decide(table, d) == [] <==>
              d.header.ttl <= 1 || forall j :: 0 <= j < |table| ==> !Matches(table[j], d.header.dst)
    ensures Decide(table, d) != [] ==>
              && |Decide(table, d)| == 1
              && var h := Decide(table, d)[0];
              && h.d == d.(header := d.header.(ttl := d.header.ttl - 1))
              && exists i: nat :: IsLongestMatch(table, d.header.dst, Some(i)) && h.iface == table[i].iface
                             && h.hop == (if table[i].nextHop.Some? then table[i].nextHop.value else d.header.dst)
  {
    hide Matches;
    BestIsLongestMatch(table, d.header.dst);
    if d.header.ttl > 1 {
      var b := Best(table, d.header.dst);
      if b.Some? {
        var i := b.value;
        assert IsLongestMatch(table, d.header.dst, Some(i));
      }
    }
  }

  /**
    Which datagrams block the router: for one whose payload has the length its header announces -- as
    parsing guarantees -- forwarding throws exactly when it is to be sent and the interface is missing,
    the version is not 4, or the header length is below 5.
   */
  lemma FailsExactly(table: seq<Route>, d: IP.IPv4Datagram, n: nat)
    requires Shiftable(table) && |d.payload| == d.header.PayloadLength()
    ensures Fails(table, d, n) <==>
              && Decide(table, d) != []
              && (Decide(table, d)[0].iface >= n || d.header.ver != 4 || d.header.hlen < 5)
  {
    hide IP.EncodeIpHeader, IP.IpChecksum;
  }

  // ---------------------------------------------------------------- forwarding everything

  function HandOver(ifaces: seq<Iface>, hs: seq<Handover>): (after: seq<Iface>)
    requires forall h :: h in hs ==> h.iface < |ifaces|
    ensures |after| == |ifaces|
    decreases |hs|
  {
    if hs == [] then ifaces else
    var h := hs[0];
    HandOver(ifaces[h.iface := Submit(ifaces[h.iface], h.d, h.hop)], hs[1..])
  }

  /** All waiting datagrams, interface after interface. */
  function Flat(queues: seq<seq<IP.IPv4Datagram>>): seq<IP.IPv4Datagram> {
    if queues == [] then [] else queues[0] + Flat(queues[1..])
  }

  ghost function DecideAll(table: seq<Route>, ds: seq<IP.IPv4Datagram>): seq<Handover>
    requires Shiftable(table)
  {
    if ds == [] then [] else Decide(table, ds[0]) + DecideAll(table, ds[1..])
  }

  /** No datagram makes forwarding throw. */
  ghost predicate Completes(table: seq<Route>, ds: seq<IP.IPv4Datagram>, n: nat)
    requires Shiftable(table)
  {
    forall d :: d in ds ==> !Fails(table, d, n)
  }

  /** What reaches the interfaces before the first exception, that handover included. */
  ghost function HandedBy(table: seq<Route>, ds: seq<IP.IPv4Datagram>, n: nat): (hs: seq<Handover>)
    requires Shiftable(table)
    ensures forall h :: h in hs ==> h.iface < n
  {
    if ds == [] then []
    else if Fails(table, ds[0], n) then Reached(table, ds[0], n)
    else Decide(table, ds[0]) + HandedBy(table, ds[1..], n)
  }

  /** What stays in a queue: from the failing datagram on, its time to live already reduced. */
  ghost function LeftOver(table: seq<Route>, ds: seq<IP.IPv4Datagram>, n: nat): seq<IP.IPv4Datagram>
    requires Shiftable(table)
  {
    if ds == [] then []
    else if Fails(table, ds[0], n) then [Touched(ds[0])] + ds[1..]
    else LeftOver(table, ds[1..], n)
  }

  /** The queues afterwards: drained one by one up to the failing datagram, untouched beyond its queue. */
  ghost function Stuck(table: seq<Route>, queues: seq<seq<IP.IPv4Datagram>>, n: nat): (after: seq<seq<IP.IPv4Datagram>>)
    requires Shiftable(table)
    ensures |after| == |queues|
  {
    if queues == [] then [] else
    var rest := LeftOver(table, queues[0], n);
    if rest == [] then [[]] + Stuck(table, queues[1..], n) else [rest] + queues[1..]
  }

  class Router {
    /** The interfaces, and for each the datagrams it has received for the router. */
    var ifaces: seq<Iface>
    var queues: seq<seq<IP.IPv4Datagram>>
    var table: seq<Route>

    ghost predicate Valid()
      reads this
    {
      && |ifaces| == |queues|
      && Shiftable(table)
      && AllSound(ifaces)
      && AllSized(queues)
    }

    constructor ()
      ensures Valid() && ifaces == [] && queues == [] && table == []
    {
      ifaces, queues, table := [], [], [];
    }

    method AddInterface(iface: Iface) returns (n: nat)
      requires Valid() && IfaceInv(iface)
      modifies this
      ensures Valid() && n == old(|ifaces|) && table == old(table)
      ensures ifaces == old(ifaces) + [iface] && queues == old(queues) + [[]]
    {
      ifaces := ifaces + [iface];
      queues := queues + [[]];
      n := |ifaces| - 1;
    }

    method AddRoute(prefix: u32, length: nat, nextHop: Option<u32>, iface: nat)
      requires Valid() && length <= 32
      modifies this
      ensures Valid() && table == old(table) + [Route(prefix, length, nextHop, iface)]
      ensures ifaces == old(ifaces) && queues == old(queues)
    {
      table := table + [Route(prefix, length, nextHop, iface)];
    }

    /** A frame arrives at an interface; a datagram in it waits there to be routed. */
    method RecvFrame(n: nat, f: Frame)
      requires Valid() && n < |ifaces|
      modifies `ifaces, `queues
      ensures Valid()
      ensures var (d, after) := Accept(old(ifaces)[n], f);
              && ifaces == old(ifaces)[n := after]
              && queues == old(queues)[n := old(queues)[n] + if d == None then [] else [d.value]]
    {
      AcceptSound(ifaces[n], f);
      hide Accept, IfaceInv;
      var (d, after) := Accept(ifaces[n], f);
      assert queues[n] + [] == queues[n];
      ifaces := ifaces[n := after];
      if d.Some? {
        assert Sized(queues[n]);
        queues := queues[n := queues[n] + [d.value]];
      }
    }

    /** The loop over the routing table. */
    method FindRoute(dst: u32) returns (best: Option<Route>)
      requires Valid()
      ensures var b := Best(table, dst); best == if b == None then None else Some(table[b.value])
    {
      hide Matches, AllSound, AllSized;
      var isMatched, matchedLength := false, 0;
      var chosen := Route(0, 0, None, 0);
      for i := 0 to |table|
        invariant var b := Best(table[..i], dst);
                  && isMatched == b.Some?
                  && (isMatched ==> chosen == table[b.value])
                  && matchedLength == if isMatched then chosen.length else 0
      {
        var el := table[i];
        assert table[..i + 1][..i] == table[..i];
        if Matches(el, dst) && matchedLength <= el.length {
          isMatched, matchedLength, chosen := true, el.length, el;
        }
      }
      assert table[..|table|] == table;
      best := if isMatched then Some(chosen) else None;
    }

    /** `route_one_datagram` on the front of a queue, in place; reports whether it threw. */
    method RouteFront(i: nat) returns (thrown: bool)
      requires Valid() && i < |queues| && queues[i] != []
      modifies `ifaces, `queues
      ensures Valid() && |ifaces| == old(|ifaces|)
      ensures var d := old(queues[i][0]);
              && thrown == Fails(table, d, |ifaces|)
              && ifaces == HandOver(old(ifaces), Reached(table, d, |ifaces|))
              && queues == old(queues)[i := [Touched(d)] + old(queues)[i][1..]]
    {
      hide Submit, Best, IfaceInv, AllSound, AllSized, IP.EncodeDatagram;
      var d := queues[i][0];
      assert queues[i] == [d] + queues[i][1..] && queues[i := queues[i]] == queues;
      if d.header.ttl <= 1 {
        return false;
      }
      TouchKeepsSize(queues, i);
      var sent := d.(header := d.header.(ttl := d.header.ttl - 1));
      queues := queues[i := [sent] + queues[i][1..]];
      var best := FindRoute(sent.header.dst);
      if best == None {
        return false;
      }
      var r := best.value;
      var hop := if r.nextHop.Some? then r.nextHop.value else sent.header.dst;
      if r.iface >= |ifaces| {
        return true;
      }
      HandOverOne(ifaces, Handover(r.iface, sent, hop));
      ifaces := ifaces[r.iface := Submit(ifaces[r.iface], sent, hop)];
      var bytes := IP.SerializeDatagram(sent);
      thrown := bytes == None;
    }

    /** `route`: drains the queues interface after interface, unless forwarding throws. */
    method RouteAll() returns (thrown: bool)
      requires Valid()
      modifies `ifaces, `queues
      ensures Valid() && |ifaces| == old(|ifaces|)
      ensures thrown <==> !Completes(table, Flat(old(queues)), |ifaces|)
      ensures ifaces == HandOver(old(ifaces), HandedBy(table, Flat(old(queues)), |ifaces|))
      ensures queues == Stuck(table, old(queues), |ifaces|)
    {
      hide HandOver, HandedBy, Stuck, Flat, Completes, Fails, Reached, Touched, AllSound, AllSized;
      ghost var n := |ifaces|;
      ghost var goal := Goal(table, ifaces, queues, n, 0);
      StartGoal(table, ifaces, queues, n);
      var i := 0;
      while i < |queues|
        invariant Valid() && |ifaces| == n && i <= n
        invariant Goal(table, ifaces, queues, n, i) == goal
        decreases n - i
      {
        while queues[i] != []
          invariant Valid() && |ifaces| == n
          invariant Goal(table, ifaces, queues, n, i) == goal
          decreases |queues[i]|
        {
          ghost var fs, qs := ifaces, queues;
          thrown := RouteFront(i);
          if thrown {
            StopGoal(table, fs, qs, n, i);
            return;
          }
          PopKeepsSize(queues, i);
          queues := queues[i := queues[i][1..]];
          StepGoal(table, fs, qs, ifaces, queues, n, i);
        }
        NextGoal(table, ifaces, queues, n, i);
        i := i + 1;
      }
      EndGoal(table, ifaces, queues, n);
      thrown := false;
    }
  }

  // ---------------------------------------------------------------- why the loops get there

  ghost predicate AllSound(ifaces: seq<Iface>) {
    forall j :: 0 <= j < |ifaces| ==> IfaceInv(ifaces[j])
  }

  /** Every waiting datagram has a payload of the length its header announces. */
  ghost predicate AllSized(queues: seq<seq<IP.IPv4Datagram>>) {
    forall q :: q in queues ==> Sized(q)
  }

  ghost predicate Sized(ds: seq<IP.IPv4Datagram>) {
    forall d :: d in ds ==> |d.payload| == d.header.PayloadLength()
  }

  lemma AcceptSound(s: Iface, f: Frame)
    requires IfaceInv(s)
    ensures var (d, after) := Accept(s, f);
            IfaceInv(after) && (d.Some? ==> |d.value.payload| == d.value.header.PayloadLength())
  {
    hide IP.DecodeIpHeader;
    StepInv(s, Recv(f));
  }

  lemma TouchKeepsSize(queues: seq<seq<IP.IPv4Datagram>>, i: nat)
    requires AllSized(queues) && i < |queues| && queues[i] != []
    ensures AllSized(queues[i := [Touched(queues[i][0])] + queues[i][1..]])
  {
    var d := queues[i][0];
    assert Sized(queues[i]) && d in queues[i];
    assert Touched(d).header.PayloadLength() == d.header.PayloadLength();
  }

  lemma PopKeepsSize(queues: seq<seq<IP.IPv4Datagram>>, i: nat)
    requires AllSized(queues) && i < |queues| && queues[i] != []
    ensures AllSized(queues[i := queues[i][1..]])
  {
    assert Sized(queues[i]);
  }

  lemma HandOverOne(ifaces: seq<Iface>, h: Handover)
    requires h.iface < |ifaces|
    ensures HandOver(ifaces, [h]) == ifaces[h.iface := Submit(ifaces[h.iface], h.d, h.hop)]
    ensures AllSound(ifaces) ==> AllSound(HandOver(ifaces, [h]))
  {
    var next := ifaces[h.iface := Submit(ifaces[h.iface], h.d, h.hop)];
    assert [h][1..] == [];
    assert HandOver(ifaces, [h]) == HandOver(next, []);
    if AllSound(ifaces) {
      StepInv(ifaces[h.iface], Send(h.d, h.hop));
      hide Submit, IfaceInv;
      assert Step(ifaces[h.iface], Send(h.d, h.hop)) == next[h.iface];
    }
  }

  lemma {:induction false} HandOverConcat(ifaces: seq<Iface>, a: seq<Handover>, b: seq<Handover>)
    requires forall h :: h in a || h in b ==> h.iface < |ifaces|
    ensures forall h :: h in a + b ==> h.iface < |ifaces|
    ensures HandOver(ifaces, a + b) == HandOver(HandOver(ifaces, a), b)
    decreases |a|
  {
    hide Submit;
    if a == [] {
      assert a + b == b;
    } else {
      var h := a[0];
      assert (a + b)[1..] == a[1..] + b;
      HandOverConcat(ifaces[h.iface := Submit(ifaces[h.iface], h.d, h.hop)], a[1..], b);
    }
  }

  /** Where routing from queue `i` on will end: the interfaces, the queues, and whether it throws. */
  ghost function Goal(table: seq<Route>, ifaces: seq<Iface>, queues: seq<seq<IP.IPv4Datagram>>, n: nat, i: nat)
    : (seq<Iface>, seq<seq<IP.IPv4Datagram>>, bool)
    requires Shiftable(table) && |ifaces| == |queues| == n && i <= n
  {
    var ds := Flat(queues[i..]);
    (HandOver(ifaces, HandedBy(table, ds, n)), queues[..i] + Stuck(table, queues[i..], n), Completes(table, ds, n))
  }

  lemma StartGoal(table: seq<Route>, ifaces: seq<Iface>, queues: seq<seq<IP.IPv4Datagram>>, n: nat)
    requires Shiftable(table) && |ifaces| == |queues| == n
    ensures Goal(table, ifaces, queues, n, 0) ==
            (HandOver(ifaces, HandedBy(table, Flat(queues), n)), Stuck(table, queues, n), Completes(table, Flat(queues), n))
  {
    hide HandOver, HandedBy, Flat, Stuck, Completes;
    assert queues[0..] == queues && queues[..0] + Stuck(table, queues, n) == Stuck(table, queues, n);
  }

  lemma EndGoal(table: seq<Route>, ifaces: seq<Iface>, queues: seq<seq<IP.IPv4Datagram>>, n: nat)
    requires Shiftable(table) && |ifaces| == |queues| == n
    ensures Goal(table, ifaces, queues, n, n) == (ifaces, queues, true)
  {
    assert queues[n..] == [] && queues[..n] + [] == queues;
  }

  /** The waiting datagrams from queue `i` on, when that queue is not empty. */
  lemma FlatCons(queues: seq<seq<IP.IPv4Datagram>>, after: seq<seq<IP.IPv4Datagram>>, i: nat)
    requires i < |queues| && queues[i] != [] && after == queues[i := queues[i][1..]]
    ensures Flat(queues[i..]) == [queues[i][0]] + Flat(after[i..])
    ensures queues[i..][1..] == after[i..][1..] && queues[..i] == after[..i]
  {
    assert queues[i..][1..] == after[i..][1..];
    var d, q, rest := queues[i][0], queues[i][1..], Flat(queues[i..][1..]);
    assert queues[i] == [d] + q;
    assert ([d] + q) + rest == [d] + (q + rest);
  }

  lemma HandedByCons(table: seq<Route>, d: IP.IPv4Datagram, ds: seq<IP.IPv4Datagram>, n: nat)
    requires Shiftable(table)
    ensures HandedBy(table, [d] + ds, n) ==
            if Fails(table, d, n) then Reached(table, d, n) else Reached(table, d, n) + HandedBy(table, ds, n)
    ensures Completes(table, [d] + ds, n) <==> !Fails(table, d, n) && Completes(table, ds, n)
    ensures LeftOver(table, [d] + ds, n) ==
            if Fails(table, d, n) then [Touched(d)] + ds else LeftOver(table, ds, n)
  {
    hide Fails, Decide;
    var all := [d] + ds;
    assert all[1..] == ds;
    assert forall x :: x in all <==> x == d || x in ds;
  }

  lemma StepGoal(table: seq<Route>, fs: seq<Iface>, qs: seq<seq<IP.IPv4Datagram>>,
                 ifaces: seq<Iface>, queues: seq<seq<IP.IPv4Datagram>>, n: nat, i: nat)
    requires Shiftable(table) && |fs| == |qs| == n && i < n && qs[i] != [] && !Fails(table, qs[i][0], n)
    requires ifaces == HandOver(fs, Reached(table, qs[i][0], n))
    requires queues == qs[i := qs[i][1..]]
    ensures Goal(table, fs, qs, n, i) == Goal(table, ifaces, queues, n, i)
  {
    hide HandOver, HandedBy, Flat, Fails, Reached, Completes, LeftOver;
    var d, ds := qs[i][0], Flat(queues[i..]);
    FlatCons(qs, queues, i);
    HandedByCons(table, d, ds, n);
    HandOverConcat(fs, Reached(table, d, n), HandedBy(table, ds, n));
    assert qs[i] == [d] + queues[i];
    HandedByCons(table, d, queues[i], n);
    assert qs[i..][0] == qs[i] && queues[i..][0] == queues[i];
  }

  lemma StopGoal(table: seq<Route>, fs: seq<Iface>, qs: seq<seq<IP.IPv4Datagram>>, n: nat, i: nat)
    requires Shiftable(table) && |fs| == |qs| == n && i < n && qs[i] != [] && Fails(table, qs[i][0], n)
    ensures var d := qs[i][0];
            Goal(table, fs, qs, n, i) == (HandOver(fs, Reached(table, d, n)), qs[i := [Touched(d)] + qs[i][1..]], false)
  {
    hide HandOver, HandedBy, Flat, Fails, Reached, Completes, LeftOver, Touched;
    var d := qs[i][0];
    var after := qs[i := qs[i][1..]];
    FlatCons(qs, after, i);
    HandedByCons(table, d, Flat(after[i..]), n);
    assert qs[i] == [d] + qs[i][1..];
    HandedByCons(table, d, qs[i][1..], n);
    assert qs[i..][0] == qs[i];
    assert qs[..i] + ([[Touched(d)] + qs[i][1..]] + qs[i..][1..]) == qs[i := [Touched(d)] + qs[i][1..]];
  }

  lemma NextGoal(table: seq<Route>, ifaces: seq<Iface>, queues: seq<seq<IP.IPv4Datagram>>, n: nat, i: nat)
    requires Shiftable(table) && |ifaces| == |queues| == n && i < n && queues[i] == []
    ensures Goal(table, ifaces, queues, n, i) == Goal(table, ifaces, queues, n, i + 1)
  {
    hide HandOver, HandedBy, Completes;
    assert queues[i..][1..] == queues[i + 1..] && queues[i..][0] == [];
    assert [] + Flat(queues[i + 1..]) == Flat(queues[i + 1..]);
    assert queues[..i] + ([[]] + Stuck(table, queues[i + 1..], n)) == queues[..i + 1] + Stuck(table, queues[i + 1..], n);
  }

  // ---------------------------------------------------------------- what routing promises

  /** When nothing throws, every queue is drained and every decision is carried out, in order. */
  lemma {:induction false} CompleteRouting(table: seq<Route>, queues: seq<seq<IP.IPv4Datagram>>, n: nat)
    requires Shiftable(table) && Completes(table, Flat(queues), n)
    ensures HandedBy(table, Flat(queues), n) == DecideAll(table, Flat(queues))
    ensures forall q :: q in Stuck(table, queues, n) ==> q == []
    decreases |queues|
  {
    hide Fails, Decide;
    HandsOverAll(table, Flat(queues), n);
    if queues != [] {
      assert forall d :: d in queues[0] ==> d in Flat(queues);
      assert forall d :: d in Flat(queues[1..]) ==> d in Flat(queues);
      NothingLeft(table, queues[0], n);
      CompleteRouting(table, queues[1..], n);
    }
  }

  lemma {:induction false} HandsOverAll(table: seq<Route>, ds: seq<IP.IPv4Datagram>, n: nat)
    requires Shiftable(table) && Completes(table, ds, n)
    ensures HandedBy(table, ds, n) == DecideAll(table, ds)
    decreases |ds|
  {
    hide Fails, Decide;
    if ds != [] {
      HandsOverAll(table, ds[1..], n);
    }
  }

  lemma {:induction false} NothingLeft(table: seq<Route>, ds: seq<IP.IPv4Datagram>, n: nat)
    requires Shiftable(table)
    ensures Completes(table, ds, n) <==> LeftOver(table, ds, n) == []
    decreases |ds|
  {
    hide Fails, Decide;
    if ds != [] {
      NothingLeft(table, ds[1..], n);
      assert ds == [ds[0]] + ds[1..];
      HandedByCons(table, ds[0], ds[1..], n);
    }
  }

  /**
    When something throws, there is a first failing datagram: everything before it was carried out, it
    was handed over as far as its interface exists, and it stays at the front of what is queued --
    its time to live reduced -- followed by everything after it.
   */
  lemma AbortedRouting(table: seq<Route>, queues: seq<seq<IP.IPv4Datagram>>, n: nat) returns (k: nat)
    requires Shiftable(table) && !Completes(table, Flat(queues), n)
    ensures var ds := Flat(queues);
            && k < |ds| && Fails(table, ds[k], n) && Completes(table, ds[..k], n)
            && HandedBy(table, ds, n) == DecideAll(table, ds[..k]) + Reached(table, ds[k], n)
            && Flat(Stuck(table, queues, n)) == [Touched(ds[k])] + ds[k + 1..]
  {
    hide Fails, Decide, Reached, Touched;
    var ds := Flat(queues);
    k := FirstFailing(table, ds, n);
    StuckIsLeftOver(table, queues, n);
  }

  /** Forwarding stops at position `k`, having carried out everything before it. */
  ghost predicate StopsAt(table: seq<Route>, ds: seq<IP.IPv4Datagram>, k: nat, n: nat)
    requires Shiftable(table) && k < |ds|
  {
    && Fails(table, ds[k], n) && Completes(table, ds[..k], n)
    && HandedBy(table, ds, n) == DecideAll(table, ds[..k]) + Reached(table, ds[k], n)
    && LeftOver(table, ds, n) == [Touched(ds[k])] + ds[k + 1..]
  }

  lemma {:induction false} FirstFailing(table: seq<Route>, ds: seq<IP.IPv4Datagram>, n: nat) returns (k: nat)
    requires Shiftable(table) && !Completes(table, ds, n)
    ensures k < |ds| && StopsAt(table, ds, k, n)
    decreases |ds|
  {
    hide Fails, Decide, Reached, Touched, HandedBy, LeftOver, DecideAll, StopsAt;
    assert ds != [];
    hide Completes;
    var d, rest := ds[0], ds[1..];
    assert ds == [d] + rest;
    if Fails(table, d, n) {
      k := 0;
      StopsAtFront(table, ds, n);
    } else {
      HandedByCons(table, d, rest, n);
      var m := FirstFailing(table, rest, n);
      k := m + 1;
      StopsLater(table, d, rest, m, n);
    }
  }

  lemma StopsAtFront(table: seq<Route>, ds: seq<IP.IPv4Datagram>, n: nat)
    requires Shiftable(table) && ds != [] && Fails(table, ds[0], n)
    ensures StopsAt(table, ds, 0, n)
  {
    hide Fails, Decide, Reached, Touched;
    assert ds[..0] == [];
  }

  lemma StopsLater(table: seq<Route>, d: IP.IPv4Datagram, rest: seq<IP.IPv4Datagram>, m: nat, n: nat)
    requires Shiftable(table) && m < |rest| && StopsAt(table, rest, m, n) && !Fails(table, d, n)
    ensures StopsAt(table, [d] + rest, m + 1, n)
  {
    hide Fails, Decide, Reached, Touched, HandedBy, LeftOver, Completes, DecideAll;
    CutLater(d, rest, m);
    HandedByCons(table, d, rest, n);
    HandedByCons(table, d, rest[..m], n);
    DecideAllCons(table, d, rest[..m]);
    Reassociate(Decide(table, d), DecideAll(table, rest[..m]), Reached(table, rest[m], n));
  }

  lemma CutLater<T>(d: T, rest: seq<T>, m: nat)
    requires m < |rest|
    ensures var ds := [d] + rest;
            ds[m + 1] == rest[m] && ds[m + 2..] == rest[m + 1..] && ds[..m + 1] == [d] + rest[..m]
  {
  }

  lemma DecideAllCons(table: seq<Route>, d: IP.IPv4Datagram, ds: seq<IP.IPv4Datagram>)
    requires Shiftable(table)
    ensures DecideAll(table, [d] + ds) == Decide(table, d) + DecideAll(table, ds)
  {
    assert ([d] + ds)[1..] == ds;
  }

  lemma {:induction false} StuckIsLeftOver(table: seq<Route>, queues: seq<seq<IP.IPv4Datagram>>, n: nat)
    requires Shiftable(table)
    ensures Flat(Stuck(table, queues, n)) == LeftOver(table, Flat(queues), n)
    decreases |queues|
  {
    hide Fails, Decide;
    if queues != [] {
      var q, rest := queues[0], Flat(queues[1..]);
      LeftOverConcat(table, q, rest, n);
      StuckIsLeftOver(table, queues[1..], n);
      var s := Stuck(table, queues, n);
      if LeftOver(table, q, n) == [] {
        assert s[1..] == Stuck(table, queues[1..], n);
      } else {
        assert s[1..] == queues[1..];
      }
    }
  }

  lemma {:induction false} LeftOverConcat(table: seq<Route>, a: seq<IP.IPv4Datagram>, b: seq<IP.IPv4Datagram>, n: nat)
    requires Shiftable(table)
    ensures LeftOver(table, a + b, n) ==
            if LeftOver(table, a, n) == [] then LeftOver(table, b, n) else LeftOver(table, a, n) + b
    decreases |a|
  {
    hide Fails, Decide;
    if a == [] {
      assert a + b == b;
    } else {
      assert (a + b)[1..] == a[1..] + b;
      LeftOverConcat(table, a[1..], b, n);
    }
  }

  /**
    Routing runs to completion exactly when every waiting datagram that is to be sent has an existing
    interface and a header of version 4 and length at least 5.
   */
  lemma RoutingCompletesExactly(table: seq<Route>, queues: seq<seq<IP.IPv4Datagram>>, n: nat)
    requires Shiftable(table) && AllSized(queues)
    ensures Completes(table, Flat(queues), n) <==>
              forall d :: d in Flat(queues) && Decide(table, d) != [] ==>
                Decide(table, d)[0].iface < n && d.header.ver == 4 && d.header.hlen >= 5
  {
    FlatSized(queues);
    hide Fails, Decide, Flat, AllSized;
    forall d | d in Flat(queues)
      ensures Fails(table, d, n) <==>
                && Decide(table, d) != []
                && (Decide(table, d)[0].iface >= n || d.header.ver != 4 || d.header.hlen < 5)
    {
      FailsExactly(table, d, n);
    }
  }

  lemma {:induction false} FlatSized(queues: seq<seq<IP.IPv4Datagram>>)
    requires AllSized(queues)
    ensures Sized(Flat(queues))
    decreases |queues|
  {
    if queues != [] {
      assert Sized(queues[0]);
      FlatSized(queues[1..]);
    }
  }

  // ---------------------------------------------------------------- calling `route` again

  /** The queues after `k` calls of `route`, with nothing arriving in between. */
  ghost function Rounds(table: seq<Route>, queues: seq<seq<IP.IPv4Datagram>>, n: nat, k: nat)
    : (after: seq<seq<IP.IPv4Datagram>>)
    requires Shiftable(table)
    ensures |after| == |queues|
  {
    if k == 0 then queues else Stuck(table, Rounds(table, queues, n, k - 1), n)
  }

  function Aged(d: IP.IPv4Datagram, k: nat): IP.IPv4Datagram
    requires k < d.header.ttl
  {
    d.(header := d.header.(ttl := d.header.ttl - k))
  }

  /** A datagram that makes forwarding throw does so until its time to live is used up. */
  lemma FailsUntilAged(table: seq<Route>, d: IP.IPv4Datagram, n: nat, k: nat)
    requires Shiftable(table) && Fails(table, d, n) && k < d.header.ttl
    ensures Fails(table, Aged(d, k), n) <==> k < d.header.ttl - 1
    ensures k < d.header.ttl - 1 ==> Touched(Aged(d, k)) == Aged(d, k + 1)
  {
    hide Best, IP.EncodeIpHeader, IP.IpChecksum;
  }

  /**
    A failing datagram blocks its successors for as many calls as its time to live allows: each aborted
    call lowers it by one, and the call that finds it at one drops the datagram and goes on behind it.
   */
  lemma {:induction false} BlocksUntilAged(
      table: seq<Route>, queues: seq<seq<IP.IPv4Datagram>>, n: nat, before: seq<IP.IPv4Datagram>,
      d: IP.IPv4Datagram, rest: seq<IP.IPv4Datagram>, k: nat)
    requires Shiftable(table) && Flat(queues) == before + ([d] + rest)
    requires Completes(table, before, n) && Fails(table, d, n) && 1 <= k <= d.header.ttl
    ensures Flat(Rounds(table, queues, n, k)) ==
            if k < d.header.ttl then [Aged(d, k)] + rest else LeftOver(table, rest, n)
    ensures k < d.header.ttl - 1 ==> !Completes(table, Flat(Rounds(table, queues, n, k)), n)
    decreases k
  {
    hide Fails, Decide, Stuck, Flat, LeftOver, Completes, Touched, Aged;
    StuckIsLeftOver(table, Rounds(table, queues, n, k - 1), n);
    if k == 1 {
      assert Rounds(table, queues, n, 0) == queues;
      LeftOverConcat(table, before, [d] + rest, n);
      NothingLeft(table, before, n);
      NotAgedYet(d);
      FailsUntilAged(table, d, n, 0);
      HandedByCons(table, d, rest, n);
    } else {
      BlocksUntilAged(table, queues, n, before, d, rest, k - 1);
      FailsUntilAged(table, d, n, k - 1);
      HandedByCons(table, Aged(d, k - 1), rest, n);
    }
    FailsHasTime(table, d, n);
    if k < d.header.ttl {
      FailsUntilAged(table, d, n, k);
      HandedByCons(table, Aged(d, k), rest, n);
    }
  }

  lemma NotAgedYet(d: IP.IPv4Datagram)
    requires 0 < d.header.ttl
    ensures Aged(d, 0) == d
  {
  }

  lemma FailsHasTime(table: seq<Route>, d: IP.IPv4Datagram, n: nat)
    requires Shiftable(table) && Fails(table, d, n)
    ensures d.header.ttl > 1
  {
  }

  function TotalTime(ds: seq<IP.IPv4Datagram>): nat {
    if ds == [] then 0 else ds[0].header.ttl + TotalTime(ds[1..])
  }

  lemma {:induction false} LeftOverAges(table: seq<Route>, ds: seq<IP.IPv4Datagram>, n: nat)
    requires Shiftable(table)
    ensures LeftOver(table, ds, n) == [] || TotalTime(LeftOver(table, ds, n)) < TotalTime(ds)
    decreases |ds|
  {
    hide Decide;
    if ds != [] {
      LeftOverAges(table, ds[1..], n);
      if Fails(table, ds[0], n) {
        FailsHasTime(table, ds[0], n);
        assert ([Touched(ds[0])] + ds[1..])[1..] == ds[1..];
      }
    }
  }

  /** No datagram blocks the router for ever: calling `route` often enough drains every queue. */
  lemma {:induction false} DrainsInTheEnd(table: seq<Route>, queues: seq<seq<IP.IPv4Datagram>>, n: nat, k: nat)
    requires Shiftable(table)
    ensures var left := Flat(Rounds(table, queues, n, k));
            && (k > 0 ==> left == [] || TotalTime(left) + k <= TotalTime(Flat(queues)))
            && (k > TotalTime(Flat(queues)) ==> left == [])
    decreases k
  {
    hide LeftOver, Stuck, Flat, TotalTime;
    if k > 0 {
      var q := Rounds(table, queues, n, k - 1);
      DrainsInTheEnd(table, queues, n, k - 1);
      StuckIsLeftOver(table, q, n);
      LeftOverAges(table, Flat(q), n);
      NothingStaysNothing(table, n);
    }
  }

  lemma NothingStaysNothing(table: seq<Route>, n: nat)
    requires Shiftable(table)
    ensures LeftOver(table, [], n) == []
  {
  }

  /** A header the parser should reject but whose verdict is ignored. */
  const STRAY: IP.IPv4Header := IP.DEFAULT_IP_HEADER.(ver := 6, len := 20, ttl := 64, dst := 5)

  /**
    The failing input: a bare header of version 6 is accepted from the wire; at a router with a default
    route it makes `route` throw, and blocks whatever waits behind it.
   */
  lemma StrayVersionBlocksRouter(behind: seq<IP.IPv4Datagram>)
    ensures var d := IP.IPv4Datagram(STRAY, []);
            var table := [Route(0, 0, None, 0)];
            && IP.DecodeDatagram(Encode(IP.IpFields(STRAY))) == (d, NoError)
            && Shiftable(table) && Fails(table, d, 1)
            && Stuck(table, [[d] + behind], 1) == [[Decrement(d)] + behind]
  {
    var d := IP.IPv4Datagram(STRAY, []);
    var table := [Route(0, 0, None, 0)];
    StrayIsAccepted();
    assert Best(table[..0], 5) == None;
    assert Best(table, 5) == Some(0);
    FailsExactly(table, d, 1);
    hide Fails, Decide, IP.EncodeDatagram, IP.DecodeDatagram;
    assert ([d] + behind)[1..] == behind;
    assert LeftOver(table, [d] + behind, 1) == [Touched(d)] + behind;
    assert [[d] + behind][1..] == [];
  }

  lemma StrayIsAccepted()
    ensures IP.DecodeDatagram(Encode(IP.IpFields(STRAY))) == (IP.IPv4Datagram(STRAY, []), NoError)
  {
    hide TakeAll, IP.HeaderFrom, IP.IpFields, Encode;
    IP.FieldsFit(STRAY);
    IP.HeaderFromValues(STRAY);
    var bytes := Encode(IP.IpFields(STRAY));
    assert bytes + [] == bytes;
    FieldsRoundTrip(IP.IpFields(STRAY), []);
    IP.FieldsLength(STRAY);
  }

  /** The datagrams handed to interface `j`, in order. */
  function HandedTo(hs: seq<Handover>, j: nat): seq<Handover> {
    if hs == [] then [] else (if hs[0].iface == j then [hs[0]] else []) + HandedTo(hs[1..], j)
  }

  function SubmitAll(s: Iface, hs: seq<Handover>): Iface
    decreases |hs|
  {
    if hs == [] then s else SubmitAll(Submit(s, hs[0].d, hs[0].hop), hs[1..])
  }

  /** Every interface ends up with exactly the datagrams handed to it, submitted in routing order. */
  lemma {:induction false} EachInterfaceGetsItsOwn(ifaces: seq<Iface>, hs: seq<Handover>, j: nat)
    requires j < |ifaces| && forall h :: h in hs ==> h.iface < |ifaces|
    ensures HandOver(ifaces, hs)[j] == SubmitAll(ifaces[j], HandedTo(hs, j))
    decreases |hs|
  {
    hide Submit;
    if hs != [] {
      var h := hs[0];
      EachInterfaceGetsItsOwn(ifaces[h.iface := Submit(ifaces[h.iface], h.d, h.hop)], hs[1..], j);
      if h.iface == j {
        assert HandedTo(hs, j) == [h] + HandedTo(hs[1..], j);
        assert ([h] + HandedTo(hs[1..], j))[1..] == HandedTo(hs[1..], j);
      } else {
        assert HandedTo(hs, j) == HandedTo(hs[1..], j);
      }
    }
  }

  function CountHanded(hs: seq<Handover>, n: nat): nat {
    if n == 0 then 0 else |HandedTo(hs, n - 1)| + CountHanded(hs, n - 1)
  }

  /** Nothing is handed over twice or lost between interfaces. */
  lemma {:induction false} HandoversAddUp(hs: seq<Handover>, n: nat)
    requires forall h :: h in hs ==> h.iface < n
    ensures CountHanded(hs, n) == |hs|
    decreases |hs|
  {
    if hs == [] {
      CountNone(n);
    } else {
      HandoversAddUp(hs[1..], n);
      CountOneMore(hs, n);
      assert hs[0] in hs;
    }
  }

  lemma {:induction false} CountNone(n: nat)
    ensures CountHanded([], n) == 0
    decreases n
  {
    if n > 0 {
      CountNone(n - 1);
    }
  }

  lemma {:induction false} CountOneMore(hs: seq<Handover>, n: nat)
    requires hs != []
    ensures CountHanded(hs, n) == CountHanded(hs[1..], n) + (if hs[0].iface < n then 1 else 0)
    decreases n
  {
    if n > 0 {
      CountOneMore(hs, n - 1);
    }
  }

  // ---------------------------------------------------------------- through the interfaces

  function AsSends(hs: seq<Handover>): (ops: seq<Op>)
    ensures |ops| == |hs|
    ensures forall i :: 0 <= i < |hs| ==> ops[i] == Send(hs[i].d, hs[i].hop)
  {
    seq(|hs|, i requires 0 <= i < |hs| => Send(hs[i].d, hs[i].hop))
  }

  lemma {:induction false} SubmitAllIsRun(s: Iface, hs: seq<Handover>)
    ensures SubmitAll(s, hs) == After(s, AsSends(hs))
    decreases |hs|
  {
    hide Submit;
    if hs != [] {
      SubmitAllIsRun(Submit(s, hs[0].d, hs[0].hop), hs[1..]);
      assert AsSends(hs)[1..] == AsSends(hs[1..]);
    }
  }

  /**
    Routed datagrams are conserved on the way out: at every interface and for every next hop, what was
    queued there and what routing handed over is what is emitted and what is queued afterwards, in order.
   */
  lemma RoutedDatagramsConserved(table: seq<Route>, ifaces: seq<Iface>, queues: seq<seq<IP.IPv4Datagram>>, j: nat, hop: u32)
    requires Shiftable(table) && AllSound(ifaces) && j < |ifaces|
    ensures var hs := HandedBy(table, Flat(queues), |ifaces|);
            var s, t, ops := ifaces[j], HandOver(ifaces, hs)[j], AsSends(HandedTo(hs, j));
            IfaceInv(t) && QueueFor(s, hop) + Submitted(ops, hop) == Emitted(s, ops, hop) + QueueFor(t, hop)
  {
    hide HandOver, SubmitAll, HandedTo, After, Emitted, Submitted, IfaceInv, HandedBy;
    var hs := HandedBy(table, Flat(queues), |ifaces|);
    var s, ops := ifaces[j], AsSends(HandedTo(hs, j));
    EachInterfaceGetsItsOwn(ifaces, hs, j);
    SubmitAllIsRun(s, HandedTo(hs, j));
    RunInv(s, ops);
    RunConserves(s, ops, hop);
  }
}
