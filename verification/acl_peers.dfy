/** The authorizer's decision for a real peer address. */
module AclPeers {
  import opened Bytes
  import opened Acl
  import opened Cidr
  import opened CidrParse

  /** A user at a peer address, with stored hosts read as `matches_host` does. */
  function PeerSubject(user: seq<u8>, peer: IpAddr, ranges: bool, parseV6: seq<u8> -> Parsed<Cidr>, op: AclOperation): Subject {
    Subject(user, (host: seq<u8>) => HostMatches(host, peer, ranges, parseV6), op)
  }

  lemma SameConcerns(e: AclEntry, a: Subject, b: Subject)
    requires a.user == b.user && a.operation == b.operation && a.hosts(e.host) == b.hosts(e.host)
    ensures OracleConcerns(e, a) == OracleConcerns(e, b)
  {
  }

  /** A dual-stack peer is decided exactly as the IPv4 peer it stands for, whatever the entries. */
  lemma MappedPeerDecidesAlike(
    c: Config, entries: seq<AclEntry>, user: seq<u8>, peer: IpAddr, ranges: bool, parseV6: seq<u8> -> Parsed<Cidr>,
    op: AclOperation, rt: ResourceType, name: seq<u8>)
    ensures Oracle(c, entries, PeerSubject(user, peer, ranges, parseV6, op), rt, name)
         == Oracle(c, entries, PeerSubject(user, Canonical(peer), ranges, parseV6, op), rt, name)
  {
    hide HostMatches, OracleConcerns, OracleCovers, Canonical;
    var (a, b) := (PeerSubject(user, peer, ranges, parseV6, op), PeerSubject(user, Canonical(peer), ranges, parseV6, op));
    forall i | 0 <= i < |entries| ensures OracleConcerns(entries[i], a) == OracleConcerns(entries[i], b) {
      MappedPeerIsV4(entries[i].host, peer, ranges, parseV6);
      SameConcerns(entries[i], a, b);
    }
  }

  /** Turning range hosts on only ever adds matches: every entry that concerned the subject still does. */
  lemma RangesOnlyAdd(e: AclEntry, user: seq<u8>, peer: IpAddr, parseV6: seq<u8> -> Parsed<Cidr>, op: AclOperation)
    requires OracleConcerns(e, PeerSubject(user, peer, false, parseV6, op))
    ensures OracleConcerns(e, PeerSubject(user, peer, true, parseV6, op))
  {
  }
}
