/** The search for an unused virtual address in the subnet of an interface. */
module VipScan {
  import opened Prelude
  import opened Ipv4

  // ---------------------------------------------------------------- the subnet, byte by byte

  /** Byte `i` of the /p mask: full bytes of ones, one partial byte, then zeros. */
  function MaskByte(p: nat, i: nat): Byte
    requires p <= 32 && i < 4
  {
    if p >= 8 * i + 8 then 255 else if p <= 8 * i then 0 else 255 - ShiftRight(255, p - 8 * i)
  }

  function NetByte(b: Byte, p: nat, i: nat): nat
    requires p <= 32 && i < 4
  {
    BitAnd(b, MaskByte(p, i))
  }

  function BroadByte(b: Byte, p: nat, i: nat): nat
    requires p <= 32 && i < 4
  {
    BitOr(b, 255 - MaskByte(p, i))
  }

  /** The number of values the host bits of byte `i` can take, as a power of two. */
  function HostBits(p: nat, i: nat): (n: nat)
    requires p <= 32 && i < 4
    ensures n <= 8
  {
    if p >= 8 * i + 8 then 0 else if p <= 8 * i then 8 else 8 - (p - 8 * i)
  }

  lemma SmallPowers(n: nat)
    requires n <= 8
    ensures Pow2(n) == [1, 2, 4, 8, 16, 32, 64, 128, 256][n]
  {
    if n > 0 { SmallPowers(n - 1); }
  }

  lemma MaskByteIs(p: nat, i: nat)
    requires p <= 32 && i < 4
    ensures MaskByte(p, i) == 256 - Pow2(HostBits(p, i))
  {
    SmallPowers(HostBits(p, i));
    if 8 * i < p < 8 * i + 8 { SmallPowers(p - 8 * i); }
  }

  /** Masking rounds a byte down to a multiple of its host values, and the complement fills it up. */
  lemma ByteRounds(b: Byte, p: nat, i: nat)
    requires p <= 32 && i < 4
    ensures var h := Pow2(HostBits(p, i));
      && NetByte(b, p, i) == b - b % h
      && BroadByte(b, p, i) == b - b % h + h - 1 < 256
  {
    var n := HostBits(p, i);
    SmallPowers(8);
    SmallPowers(n);
    MaskByteIs(p, i);
    AndMask(b, 8, n);
    OrMask(b, n);
    OrBound(b, Pow2(n) - 1, 8);
  }

  /** The loop that fills the network and broadcast bytes. */
  method SubnetBytes(ip4: array<Byte>, p: nat, network: array<Byte>, broadcast: array<Byte>)
    requires p <= 32 && ip4.Length == network.Length == broadcast.Length == 4
    requires ip4 != network && ip4 != broadcast && network != broadcast
    modifies network, broadcast
    ensures forall j :: 0 <= j < 4 ==> network[j] == NetByte(ip4[j], p, j) && broadcast[j] == BroadByte(ip4[j], p, j)
  {
    for i := 0 to 4
      invariant forall j :: 0 <= j < i ==>
        network[j] == NetByte(ip4[j], p, j) && broadcast[j] == BroadByte(ip4[j], p, j)
    {
      ByteRounds(ip4[i], p, i);
      network[i] := NetByte(ip4[i], p, i);
      broadcast[i] := BroadByte(ip4[i], p, i);
    }
  }

  // ---------------------------------------------------------------- the subnet as numbers

  lemma Distribute(x: int, y: int, z: int)
    ensures (x + y) * z == x * z + y * z
  {
  }

  lemma Associate(x: int, y: int, z: int)
    ensures (x * y) * z == x * (y * z)
  {
  }

  lemma Scale(x: int, y: int, z: int)
    requires x <= y && 0 <= z
    ensures x * z <= y * z
  {
  }

  /** Rounding a number down at the digit `d`, which stands above `low` < s, below the digits `a`. */
  lemma RoundDigit(a: nat, d: nat, low: nat, h: nat, g: nat, s: nat)
    requires 0 < h && 0 < s && h * g == 256 && d < 256 && low < s
    ensures h * s > 0
    ensures var x := (a * 256 + d) * s + low;
      x - x % (h * s) == (a * 256 + (d - d % h)) * s
  {
    var e, f := d / h, d % h;
    Scale(f + 1, h, s);
    Distribute(f, 1, s);
    Digits(a, d, h, g);
    Split(a * g + e, h, a * 256 + d - f, f, s);
    QuotientUnique((a * 256 + d) * s + low, a * g + e, f * s + low, h * s);
  }

  lemma Digits(a: nat, d: nat, h: nat, g: nat)
    requires 0 < h && h * g == 256
    ensures (a * g + d / h) * h == a * 256 + (d - d % h)
  {
    Distribute(a * g, d / h, h);
    Associate(a, g, h);
  }

  lemma Split(q: int, h: int, qh: int, f: int, s: int)
    requires q * h == qh
    ensures (qh + f) * s == q * (h * s) + f * s && qh * s == q * (h * s)
  {
    Distribute(qh, f, s);
    Associate(q, h, s);
  }

  /** The address with its host bits cleared. */
  function Floor(b: Bytes, p: nat): nat
    requires p <= 32
  {
    Cleared(Quad(b.b0, b.b1, b.b2, b.b3), 32 - p)
  }

  /** That is, rounded down to a multiple of the subnet's size. */
  lemma FloorRounds(b: Bytes, p: nat)
    requires p <= 32
    ensures var x := Quad(b.b0, b.b1, b.b2, b.b3); Floor(b, p) == x - x % Pow2(32 - p)
  {
    ClearedRounds(Quad(b.b0, b.b1, b.b2, b.b3), 32 - p);
  }

  lemma Partial(p: nat, i: nat)
    requires i < 4 && 8 * i <= p <= 8 * i + 8
    ensures Pow2(HostBits(p, i)) * Pow2(p - 8 * i) == 256
    ensures Pow2(HostBits(p, i)) * Pow2(24 - 8 * i) == Pow2(32 - p)
  {
    Pow2Add(HostBits(p, i), p - 8 * i);
    Pow2Add(HostBits(p, i), 24 - 8 * i);
    SmallPowers(8);
  }

  /** The subnet of an interface address, as 32-bit numbers. */
  lemma SubnetIsRounding(b: Bytes, p: nat)
    requires p <= 32
    ensures BroadByte(b.b0, p, 0) < 256 && BroadByte(b.b1, p, 1) < 256
    ensures BroadByte(b.b2, p, 2) < 256 && BroadByte(b.b3, p, 3) < 256
    ensures NetByte(b.b0, p, 0) <= b.b0 && NetByte(b.b1, p, 1) <= b.b1
    ensures NetByte(b.b2, p, 2) <= b.b2 && NetByte(b.b3, p, 3) <= b.b3
    ensures Quad(NetByte(b.b0, p, 0), NetByte(b.b1, p, 1), NetByte(b.b2, p, 2), NetByte(b.b3, p, 3)) == Floor(b, p)
    ensures Quad(BroadByte(b.b0, p, 0), BroadByte(b.b1, p, 1), BroadByte(b.b2, p, 2), BroadByte(b.b3, p, 3))
         == Floor(b, p) + Pow2(32 - p) - 1
  {
    ByteRounds(b.b0, p, 0);
    ByteRounds(b.b1, p, 1);
    ByteRounds(b.b2, p, 2);
    ByteRounds(b.b3, p, 3);
    if p <= 8 {
      SubnetIn0(b, p);
    } else if p <= 16 {
      SubnetIn1(b, p);
    } else if p <= 24 {
      SubnetIn2(b, p);
    } else {
      SubnetIn3(b, p);
    }
  }

  /** Masking byte by byte is masking the 32-bit number. */
  lemma WordMask(b: Bytes, p: nat, word: nat)
    requires p <= 32 && word == ToUint32(b)
    ensures Pow2(32) >= Pow2(32 - p)
    ensures Floor(b, p) == BitAnd(word, Pow2(32) - Pow2(32 - p))
    ensures Floor(b, p) + Pow2(32 - p) - 1 == BitOr(word, Pow2(32 - p) - 1)
  {
    FloorOfWord(b, p, word);
    InWord(b);
    MaskedWord(word, 32, 32 - p);
  }

  lemma FloorOfWord(b: Bytes, p: nat, word: nat)
    requires p <= 32 && word == ToUint32(b)
    ensures Floor(b, p) == Cleared(word, 32 - p)
  {
    ToUint32IsQuad(b);
  }

  lemma MaskedWord(x: nat, w: nat, n: nat)
    requires x < Pow2(w) && n <= w
    ensures Pow2(w) >= Pow2(n) && BitAnd(x, Pow2(w) - Pow2(n)) == Cleared(x, n)
    ensures BitOr(x, Pow2(n) - 1) == Cleared(x, n) + Pow2(n) - 1
  {
    AndClears(x, w, n);
    OrFills(x, n);
  }

  lemma InWord(b: Bytes)
    ensures ToUint32(b) < Pow2(32)
  {
    ToUint32IsQuad(b);
    Pow2Values();
  }

  lemma SubnetIn0(b: Bytes, p: nat)
    requires p <= 8
    ensures var h := Pow2(HostBits(p, 0));
      && Floor(b, p) == (b.b0 - b.b0 % h) * 0x100_0000
      && Pow2(32 - p) == h * 0x100_0000
  {
    FloorRounds(b, p);
    Partial(p, 0);
    Pow2Values();
    RoundDigit(0, b.b0, b.b1 * 0x1_0000 + b.b2 * 0x100 + b.b3, Pow2(HostBits(p, 0)), Pow2(p), 0x100_0000);
  }

  lemma SubnetIn1(b: Bytes, p: nat)
    requires 8 < p <= 16
    ensures var h := Pow2(HostBits(p, 1));
      && Floor(b, p) == (b.b0 * 256 + (b.b1 - b.b1 % h)) * 0x1_0000
      && Pow2(32 - p) == h * 0x1_0000
  {
    FloorRounds(b, p);
    Partial(p, 1);
    Pow2Values();
    RoundDigit(b.b0, b.b1, b.b2 * 0x100 + b.b3, Pow2(HostBits(p, 1)), Pow2(p - 8), 0x1_0000);
  }

  lemma SubnetIn2(b: Bytes, p: nat)
    requires 16 < p <= 24
    ensures var h := Pow2(HostBits(p, 2));
      && Floor(b, p) == ((b.b0 * 256 + b.b1) * 256 + (b.b2 - b.b2 % h)) * 0x100
      && Pow2(32 - p) == h * 0x100
  {
    FloorRounds(b, p);
    Partial(p, 2);
    Pow2Values();
    RoundDigit(b.b0 * 256 + b.b1, b.b2, b.b3, Pow2(HostBits(p, 2)), Pow2(p - 16), 0x100);
  }

  lemma SubnetIn3(b: Bytes, p: nat)
    requires 24 < p <= 32
    ensures var h := Pow2(HostBits(p, 3));
      && Floor(b, p) == ((b.b0 * 256 + b.b1) * 256 + b.b2) * 256 + (b.b3 - b.b3 % h)
      && Pow2(32 - p) == h
  {
    FloorRounds(b, p);
    Partial(p, 3);
    Pow2Values();
    RoundDigit((b.b0 * 256 + b.b1) * 256 + b.b2, b.b3, 0, Pow2(HostBits(p, 3)), Pow2(p - 24), 1);
  }

  // ---------------------------------------------------------------- the scan

  datatype Scan =
    | Found(vip: Addr)
    | NoUsableHosts
    | NotReady
    | TimedOut
    | NoUnused

  /** Decrementing a 32-bit unsigned number wraps at zero. */
  function Dec32(n: Addr): Addr { if n == 0 then 0xFFFF_FFFF else n - 1 }

  /** The first and last address of the subnet. */
  function NetworkOf(b: Bytes, p: nat): int
    requires p <= 32
  {
    Floor(b, p)
  }

  function BroadcastOf(b: Bytes, p: nat): int
    requires p <= 32
  {
    Floor(b, p) + Pow2(32 - p) - 1
  }

  /** An address the scan may pick: strictly inside the subnet, and not the interface's own. */
  predicate Candidate(b: Bytes, p: nat, a: int)
    requires p <= 32
  {
    Usable(NetworkOf(b, p), BroadcastOf(b, p), ToUint32(b), a)
  }

  predicate Usable(network: int, broadcast: int, own: int, a: int) { network < a < broadcast && a != own }

  lemma {:induction false} SizeFacts(p: nat)
    requires p <= 32
    ensures Pow2(32 - p) <= 2 <==> p >= 31
  {
    Pow2Values();
    if p < 31 { Pow2Grows(2, 32 - p); }
  }

  function AddrBytes(ip4: array<Byte>): Bytes
    requires ip4.Length == 4
    reads ip4
  {
    Bytes(ip4[0], ip4[1], ip4[2], ip4[3])
  }

  method Subnet(ip4: array<Byte>, p: nat) returns (netInt: Addr, broadInt: Addr)
    requires p <= 32 && ip4.Length == 4
    ensures netInt == NetworkOf(AddrBytes(ip4), p) && broadInt == BroadcastOf(AddrBytes(ip4), p)
  {
    var network, broadcast := new Byte[4], new Byte[4];
    SubnetBytes(ip4, p, network, broadcast);
    var n := Bytes(network[0], network[1], network[2], network[3]);
    var b := Bytes(broadcast[0], broadcast[1], broadcast[2], broadcast[3]);
    SubnetWords(AddrBytes(ip4), p, n, b);
    netInt, broadInt := ToUint32(n), ToUint32(b);
  }

  /** The filled bytes as 32-bit numbers. */
  lemma SubnetWords(b: Bytes, p: nat, net: Bytes, broad: Bytes)
    requires p <= 32
    requires net.b0 == NetByte(b.b0, p, 0) && net.b1 == NetByte(b.b1, p, 1)
    requires net.b2 == NetByte(b.b2, p, 2) && net.b3 == NetByte(b.b3, p, 3)
    requires broad.b0 == BroadByte(b.b0, p, 0) && broad.b1 == BroadByte(b.b1, p, 1)
    requires broad.b2 == BroadByte(b.b2, p, 2) && broad.b3 == BroadByte(b.b3, p, 3)
    ensures ToUint32(net) == NetworkOf(b, p) && ToUint32(broad) == BroadcastOf(b, p)
    ensures ToUint32(net) < 0x1_0000_0000 && ToUint32(broad) < 0x1_0000_0000
  {
    ToUint32IsQuad(net);
    ToUint32IsQuad(broad);
    SubnetIsRounding(b, p);
  }

  /** The deadline has held for `n` steps, and none of the candidates among the `n` highest addresses is free. */
  ghost predicate Passed(net: int, broad: int, own: int, free: Addr -> bool, expired: nat -> bool, n: nat) {
    && (forall j: nat :: j < n ==> !expired(j))
    && (forall a: Addr :: broad - n <= a && Usable(net, broad, own, a) ==> !free(a))
  }

  /** The scanning loop, from the address below broadcast down. The counter never wraps. */
  method Descend(net: Addr, broad: Addr, own: nat, free: Addr -> bool, expired: nat -> bool)
    returns (r: Scan, scanned: nat)
    requires net < broad
    ensures r.Found? || r.TimedOut? || r.NoUnused?
    ensures r.Found? ==>
      && Usable(net, broad, own, r.vip) && free(r.vip)
      && Passed(net, broad, own, free, expired, broad - 1 - r.vip) && !expired(broad - 1 - r.vip)
    ensures r.TimedOut? ==> exists n: nat ::
      n < broad - net - 1 && Passed(net, broad, own, free, expired, n) && expired(n)
    ensures r.NoUnused? ==>
      && Passed(net, broad, own, free, expired, broad - net - 1)
      && scanned == broad - net - 1 - (if net < own < broad then 1 else 0)
    ensures scanned <= broad - net - 1
  {
    var hostInt, step := Dec32(broad), 0;
    scanned := 0;
    while hostInt > net
      invariant net <= hostInt < broad && step == broad - 1 - hostInt
      invariant Passed(net, broad, own, free, expired, step)
      invariant scanned == step - (if hostInt < own < broad then 1 else 0)
      decreases hostInt
    {
      if expired(step) { return TimedOut, scanned; }
      step := step + 1;
      if hostInt != own {
        scanned := scanned + 1;
        if free(hostInt) { return Found(hostInt), scanned; }
      }
      hostInt := Dec32(hostInt);
    }
    r := NoUnused;
  }

  /**
   * Scans the subnet of the interface downward. A found address is the highest
   * candidate the probe reports free; "no unused" means that every candidate was
   * probed and none is free. There are at most 2^(32-p) - 2 probes. Only an expired
   * deadline ends the search early, and only after all addresses above were tried:
   * without one, an address is found exactly if some candidate is free.
   */
  method FindUnusedVip(ip4: array<Byte>, p: nat, ready: bool, free: Addr -> bool, expired: nat -> bool)
    returns (r: Scan, scanned: nat)
    requires p <= 32 && ip4.Length == 4
    ensures r.NoUsableHosts? <==> p >= 31
    ensures p < 31 ==> (r.NotReady? <==> !ready) && scanned <= Pow2(32 - p) - 2
    ensures r.Found? ==>
      && Candidate(AddrBytes(ip4), p, r.vip) && free(r.vip)
      && forall a: Addr :: r.vip < a && Candidate(AddrBytes(ip4), p, a) ==> !free(a)
    ensures r.NoUnused? ==> forall a: Addr :: Candidate(AddrBytes(ip4), p, a) ==> !free(a)
    ensures r.TimedOut? ==> var b := AddrBytes(ip4); exists n: nat ::
      n < Pow2(32 - p) - 2 && expired(n) &&
      Passed(NetworkOf(b, p), BroadcastOf(b, p), ToUint32(b), free, expired, n)
    ensures p < 31 && ready && (forall n: nat :: n < Pow2(32 - p) - 2 ==> !expired(n)) ==>
      (r.Found? <==> exists a: Addr :: Candidate(AddrBytes(ip4), p, a) && free(a))
    ensures r.NoUnused? ==> var own := ToUint32(AddrBytes(ip4));
      scanned == Pow2(32 - p) - 2
        - (if NetworkOf(AddrBytes(ip4), p) < own < BroadcastOf(AddrBytes(ip4), p) then 1 else 0)
  {
    var net, broad := Subnet(ip4, p);
    SizeFacts(p);
    var totalHosts := Pow2(32 - p) - 2;
    if totalHosts <= 0 { return NoUsableHosts, 0; }
    if !ready { return NotReady, 0; }
    assert broad - net - 1 == totalHosts;
    r, scanned := Descend(net, broad, ToUint32(AddrBytes(ip4)), free, expired);
  }
}
