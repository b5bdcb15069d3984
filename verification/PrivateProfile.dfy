/** The private-network firewall profile and the address classification agree. */
module PrivateProfile {
  import opened Prelude
  import opened Ipv4
  import opened Firewall
  import opened FirewallMeaning
  import opened IpDetect

  /** The profile accepts exactly the sources classified as private or overlay. */
  lemma PrivateProfileFollowsClasses(p: Packet)
    ensures ProfileDecision(Profile(true, ALLOW_ALL_PRIVATE), p)
         == if ClassifyIp(FromUint32(p.src)) in {ClassRfc1918, ClassCgnat} then Some(Accept) else None
  {
    ClassesArePrefixes(FromUint32(p.src));
    FromUint32IsDigits(p.src);
    DigitsQuad(p.src);
  }
}
