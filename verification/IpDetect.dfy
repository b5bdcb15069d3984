/** Classifying IPv4 addresses and choosing the best of several. */
module IpDetect {
  import opened Prelude
  import opened Ipv4

  datatype IpClass = ClassOther | ClassLoopback | ClassRfc1918 | ClassCgnat

  /** The byte tests. */
  function ClassifyIp(b: Bytes): IpClass {
    if b.b0 == 127 then ClassLoopback
    else if b.b0 == 100 && 64 <= b.b1 <= 127 then ClassCgnat
    else if b.b0 == 10 then ClassRfc1918
    else if b.b0 == 172 && 16 <= b.b1 <= 31 then ClassRfc1918
    else if b.b0 == 192 && b.b1 == 168 then ClassRfc1918
    else ClassOther
  }

  lemma LeadingBytes(b: Bytes)
    ensures var a := Quad(b.b0, b.b1, b.b2, b.b3);
      && a / 0x100_0000 == b.b0
      && a / 0x1_0000 == b.b0 * 256 + b.b1
      && a / 0x10_0000 == b.b0 * 16 + b.b1 / 16
      && a / 0x40_0000 == b.b0 * 4 + b.b1 / 64
  {
    var a := Quad(b.b0, b.b1, b.b2, b.b3);
    var low := b.b2 * 0x100 + b.b3;
    assert a == (b.b0 * 256 + b.b1) * 0x1_0000 + low;
  }

  lemma ContainsByQuotient(c: Cidr, a: Addr, m: nat)
    requires c.len <= 32 && m == Pow2(32 - c.len)
    ensures c.Contains(a) <==> a / m == c.base / m
  {
  }

  lemma InPrivate(b: Bytes)
    ensures var a := Quad(b.b0, b.b1, b.b2, b.b3);
      && (NET10.Contains(a) <==> b.b0 == 10)
      && (NET172.Contains(a) <==> b.b0 == 172 && 16 <= b.b1 <= 31)
      && (NET192.Contains(a) <==> b.b0 == 192 && b.b1 == 168)
  {
    var a := Quad(b.b0, b.b1, b.b2, b.b3);
    LeadingBytes(b);
    Pow2Values();
    ContainsByQuotient(NET10, a, 0x100_0000);
    ContainsByQuotient(NET172, a, 0x10_0000);
    ContainsByQuotient(NET192, a, 0x1_0000);
  }

  const LOOPBACK: Cidr := Cidr(Quad(127, 0, 0, 0), 8)

  lemma InOverlay(b: Bytes)
    ensures var a := Quad(b.b0, b.b1, b.b2, b.b3);
      && (NET100.Contains(a) <==> b.b0 == 100 && 64 <= b.b1 <= 127)
      && (LOOPBACK.Contains(a) <==> b.b0 == 127)
  {
    var a := Quad(b.b0, b.b1, b.b2, b.b3);
    LeadingBytes(b);
    Pow2Values();
    ContainsByQuotient(NET100, a, 0x40_0000);
    ContainsByQuotient(LOOPBACK, a, 0x100_0000);
  }

  /** The byte tests agree with prefix membership in the address ranges of RFC 1918 and RFC 6598. */
  lemma ClassesArePrefixes(b: Bytes)
    ensures var a := Quad(b.b0, b.b1, b.b2, b.b3);
      && (ClassifyIp(b) == ClassRfc1918 <==> InRfc1918(a))
      && (ClassifyIp(b) == ClassCgnat <==> InCgnat(a))
      && (ClassifyIp(b) == ClassLoopback <==> LOOPBACK.Contains(a))
  {
    InPrivate(b);
    InOverlay(b);
  }

  // ---------------------------------------------------------------- choosing

  /** An address text and what it parses to; None stands for anything but IPv4. */
  datatype Candidate = Candidate(text: string, addr: Option<Bytes>)

  predicate InDocker(b: Bytes, subnets: seq<Cidr>) {
    exists c :: c in subnets && c.Contains(Quad(b.b0, b.b1, b.b2, b.b3))
  }

  predicate Eligible(c: Candidate, subnets: seq<Cidr>) {
    c.addr.Some? && ClassifyIp(c.addr.value) != ClassLoopback && !InDocker(c.addr.value, subnets)
  }

  /** Overlay addresses first, then private ones, then the rest. */
  function Rank(c: Candidate): nat
    requires c.addr.Some?
  {
    match ClassifyIp(c.addr.value)
    case ClassCgnat => 2
    case ClassRfc1918 => 1
    case _ => 0
  }

  /**
   * Who is eligible, and who goes first, said with address ranges: IPv4 addresses
   * outside loopback and all Docker subnets; overlay addresses before private ones,
   * and those before the rest.
   */
  lemma ChoiceByRange(c: Candidate, subnets: seq<Cidr>)
    requires c.addr.Some?
    ensures var b := c.addr.value;
      var a := Quad(b.b0, b.b1, b.b2, b.b3);
      && (Eligible(c, subnets) <==> !LOOPBACK.Contains(a) && forall s :: s in subnets ==> !s.Contains(a))
      && (Rank(c) == 2 <==> InCgnat(a)) && (Rank(c) == 1 <==> InRfc1918(a)) && Rank(c) <= 2
  {
    ClassesArePrefixes(c.addr.value);
  }

  /** Candidate `i` is the first one of the highest class among the eligible. */
  ghost predicate IsBest(ips: seq<Candidate>, subnets: seq<Cidr>, i: nat) {
    && i < |ips| && Eligible(ips[i], subnets)
    && (forall j :: 0 <= j < |ips| && Eligible(ips[j], subnets) ==> Rank(ips[j]) <= Rank(ips[i]))
    && (forall j :: 0 <= j < i && Eligible(ips[j], subnets) ==> Rank(ips[j]) < Rank(ips[i]))
  }

  method IsInDockerSubnet(b: Bytes, subnets: seq<Cidr>) returns (r: bool)
    ensures r == InDocker(b, subnets)
  {
    for i := 0 to |subnets|
      invariant forall j :: 0 <= j < i ==> !subnets[j].Contains(Quad(b.b0, b.b1, b.b2, b.b3))
    {
      if subnets[i].Contains(Quad(b.b0, b.b1, b.b2, b.b3)) { return true; }
    }
    r := false;
  }

  /** The eligible candidates of one rank, in order: the content of one bucket. */
  function OfRank(ips: seq<Candidate>, subnets: seq<Cidr>, rank: nat): seq<string> {
    if ips == [] then []
    else
      var k := |ips| - 1;
      OfRank(ips[..k], subnets, rank)
        + (if Eligible(ips[k], subnets) && Rank(ips[k]) == rank then [ips[k].text] else [])
  }

  /** The loop that sorts the eligible candidates into three buckets. */
  method FillBuckets(ips: seq<Candidate>, subnets: seq<Cidr>)
    returns (cgnat: seq<string>, rfc1918: seq<string>, other: seq<string>)
    ensures cgnat == OfRank(ips, subnets, 2)
    ensures rfc1918 == OfRank(ips, subnets, 1)
    ensures other == OfRank(ips, subnets, 0)
  {
    cgnat, rfc1918, other := [], [], [];
    for i := 0 to |ips|
      invariant cgnat == OfRank(ips[..i], subnets, 2)
      invariant rfc1918 == OfRank(ips[..i], subnets, 1)
      invariant other == OfRank(ips[..i], subnets, 0)
    {
      assert ips[..i + 1][..i] == ips[..i];
      var c := ips[i];
      if c.addr.None? { continue; }
      var class_ := ClassifyIp(c.addr.value);
      if class_ == ClassLoopback { continue; }
      var docker := IsInDockerSubnet(c.addr.value, subnets);
      if docker { continue; }
      match class_ {
        case ClassCgnat => cgnat := cgnat + [c.text];
        case ClassRfc1918 => rfc1918 := rfc1918 + [c.text];
        case _ => other := other + [c.text];
      }
    }
    assert ips[..|ips|] == ips;
  }

  /** The chosen text is that of the first candidate of the highest class; empty exactly when none is eligible. */
  method SelectBestIp(ips: seq<Candidate>, subnets: seq<Cidr>) returns (best: string)
    requires forall c :: c in ips && c.addr.Some? ==> c.text != ""
    ensures best == "" <==> forall i :: 0 <= i < |ips| ==> !Eligible(ips[i], subnets)
    ensures best != "" ==> exists i: nat :: IsBest(ips, subnets, i) && best == ips[i].text
  {
    var cgnat, rfc1918, other := FillBuckets(ips, subnets);
    if |cgnat| > 0 {
      best := cgnat[0];
      FirstBucket(ips, subnets, 2);
    } else if |rfc1918| > 0 {
      best := rfc1918[0];
      FirstBucket(ips, subnets, 1);
    } else if |other| > 0 {
      best := other[0];
      FirstBucket(ips, subnets, 0);
    } else {
      best := "";
      BucketEmpty(ips, subnets, 2);
      BucketEmpty(ips, subnets, 1);
      BucketEmpty(ips, subnets, 0);
    }
  }

  lemma FirstBucket(ips: seq<Candidate>, subnets: seq<Cidr>, rank: nat)
    requires rank <= 2 && forall c :: c in ips && c.addr.Some? ==> c.text != ""
    requires OfRank(ips, subnets, rank) != []
    requires rank < 2 ==> OfRank(ips, subnets, 2) == []
    requires rank < 1 ==> OfRank(ips, subnets, 1) == []
    ensures OfRank(ips, subnets, rank)[0] != ""
    ensures exists i: nat :: IsBest(ips, subnets, i) && OfRank(ips, subnets, rank)[0] == ips[i].text
  {
    BucketEmpty(ips, subnets, 2);
    BucketEmpty(ips, subnets, 1);
    var i := BucketFirst(ips, subnets, rank);
    assert ips[i] in ips;
    assert IsBest(ips, subnets, i);
  }

  ghost predicate FirstOfRank(ips: seq<Candidate>, subnets: seq<Cidr>, rank: nat, i: nat) {
    && i < |ips| && Eligible(ips[i], subnets) && Rank(ips[i]) == rank
    && forall j :: 0 <= j < i && Eligible(ips[j], subnets) ==> Rank(ips[j]) != rank
  }

  lemma {:induction false} BucketEmpty(ips: seq<Candidate>, subnets: seq<Cidr>, rank: nat)
    ensures OfRank(ips, subnets, rank) == [] <==>
      forall i :: 0 <= i < |ips| && Eligible(ips[i], subnets) ==> Rank(ips[i]) != rank
  {
    if ips != [] { BucketEmpty(ips[..|ips| - 1], subnets, rank); }
  }

  lemma {:induction false} BucketFirst(ips: seq<Candidate>, subnets: seq<Cidr>, rank: nat) returns (i: nat)
    requires OfRank(ips, subnets, rank) != []
    ensures FirstOfRank(ips, subnets, rank, i) && OfRank(ips, subnets, rank)[0] == ips[i].text
  {
    var k := |ips| - 1;
    var init := ips[..k];
    if OfRank(init, subnets, rank) != [] {
      i := BucketFirst(init, subnets, rank);
    } else {
      BucketEmpty(init, subnets, rank);
      i := k;
      assert forall j :: 0 <= j < k ==> init[j] == ips[j];
    }
  }
}
