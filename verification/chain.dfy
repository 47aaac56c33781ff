/** The audit hash chain. SHA-256 is a parameter, and what is proved of it holds unless a collision, or
    a message that hashes to the genesis head, is among the messages actually hashed. */
module Chain {
  import opened Bytes

  /** The chain head before the first record. */
  const GENESIS_HEAD: seq<u8> :=
    [0, 0, 0, 0, 0, 0, 0, 0, 0, 0, 0, 0, 0, 0, 0, 0, 0, 0, 0, 0, 0, 0, 0, 0, 0, 0, 0, 0, 0, 0, 0, 0]

  type Digest = s: seq<u8> | |s| == 32 witness GENESIS_HEAD
  type Hash = seq<u8> -> Digest

  /** What `chain_hash` hashes. */
  function Message(prev: Digest, seq_: nat, value: seq<u8>): seq<u8> { prev + U64Bytes(seq_) + value }

  datatype ChainLink = ChainLink(seq_: nat, prevHead: Digest)

  /** The head after a chain at `head` and sequence number `first` takes `values`. */
  function HeadFrom(h: Hash, head: Digest, first: nat, values: seq<seq<u8>>): Digest {
    if values == [] then head
    else h(Message(HeadFrom(h, head, first, values[..|values| - 1]), first + |values| - 1, values[|values| - 1]))
  }

  /** The links stamped on those values. */
  function Links(h: Hash, head: Digest, first: nat, values: seq<seq<u8>>): (links: seq<ChainLink>)
    ensures |links| == |values|
  {
    seq(|values|, i requires 0 <= i < |values| => ChainLink(first + i, HeadFrom(h, head, first, values[..i])))
  }

  lemma {:induction false} HeadFromSplit(h: Hash, head: Digest, first: nat, a: seq<seq<u8>>, b: seq<seq<u8>>)
    ensures HeadFrom(h, head, first, a + b) == HeadFrom(h, HeadFrom(h, head, first, a), first + |a|, b)
  {
    if b == [] {
      assert a + b == a;
    } else {
      assert (a + b)[..|a + b| - 1] == a + b[..|b| - 1];
      HeadFromSplit(h, head, first, a, b[..|b| - 1]);
    }
  }

  lemma HeadBefore(h: Hash, head: Digest, first: nat, a: seq<seq<u8>>, b: seq<seq<u8>>, i: nat)
    requires i < |a| + |b|
    ensures Links(h, head, first, a + b)[i]
         == (Links(h, head, first, a) + Links(h, HeadFrom(h, head, first, a), first + |a|, b))[i]
  {
    hide HeadFrom;
    if i < |a| {
      assert (a + b)[..i] == a[..i];
    } else {
      assert (a + b)[..i] == a + b[..i - |a|];
      HeadFromSplit(h, head, first, a, b[..i - |a|]);
    }
  }

  /** Resuming at any point gives the links of one unbroken chain. */
  lemma ResumeIsSeamless(h: Hash, head: Digest, first: nat, a: seq<seq<u8>>, b: seq<seq<u8>>)
    ensures Links(h, head, first, a + b)
         == Links(h, head, first, a) + Links(h, HeadFrom(h, head, first, a), first + |a|, b)
    ensures HeadFrom(h, head, first, a + b) == HeadFrom(h, HeadFrom(h, head, first, a), first + |a|, b)
  {
    hide HeadFrom, Links;
    HeadFromSplit(h, head, first, a, b);
    forall i | 0 <= i < |a| + |b|
      ensures Links(h, head, first, a + b)[i]
           == (Links(h, head, first, a) + Links(h, HeadFrom(h, head, first, a), first + |a|, b))[i]
    {
      HeadBefore(h, head, first, a, b, i);
    }
  }

  // ----- The head pins the history -----

  function LastMessage(h: Hash, values: seq<seq<u8>>): seq<u8>
    requires values != []
  {
    Message(HeadFrom(h, GENESIS_HEAD, 0, values[..|values| - 1]), |values| - 1, values[|values| - 1])
  }

  /** Every message hashed for a chain of `values` from genesis. */
  function Messages(h: Hash, values: seq<seq<u8>>): set<seq<u8>> {
    if values == [] then {} else Messages(h, values[..|values| - 1]) + {LastMessage(h, values)}
  }

  predicate CollisionFree(h: Hash, ms: set<seq<u8>>) {
    && (forall x, y :: x in ms && y in ms && h(x) == h(y) ==> x == y)
    && (forall x :: x in ms ==> h(x) != GENESIS_HEAD)
  }

  lemma MessageParts(p: Digest, m: nat, v: seq<u8>, p': Digest, m': nat, v': seq<u8>)
    requires Message(p, m, v) == Message(p', m', v')
    ensures p == p' && v == v' && (m <= U64_MAX && m' <= U64_MAX ==> m == m')
  {
    MessageLayout(p, m, v);
    MessageLayout(p', m', v');
  }

  /** The hashed bytes: the previous head, the sequence number big-endian, the value. */
  lemma MessageLayout(p: Digest, m: nat, v: seq<u8>)
    ensures var b := Message(p, m, v);
      && |b| == 40 + |v| && b[..32] == p && b[40..] == v
      && (m <= U64_MAX ==>
          m == ((((((b[32] as int * 256 + b[33]) * 256 + b[34]) * 256 + b[35]) * 256 + b[36]) * 256 + b[37]) * 256 + b[38]) * 256 + b[39])
  {
    hide U64Bytes, U64Of;
    var b := Message(p, m, v);
    assert b[32..40] == U64Bytes(m);
    BigEndian64(b[32..40]);
    if m <= U64_MAX {
      U64RoundTrip(m);
    }
  }

  lemma LastHashed(h: Hash, values: seq<seq<u8>>)
    requires values != []
    ensures HeadFrom(h, GENESIS_HEAD, 0, values) == h(LastMessage(h, values))
    ensures LastMessage(h, values) in Messages(h, values) && Messages(h, values[..|values| - 1]) <= Messages(h, values)
  {
  }

  /** Equal heads mean equal histories, record for record, whatever their lengths. */
  lemma {:induction false} EqualHeadsEqualHistory(h: Hash, a: seq<seq<u8>>, b: seq<seq<u8>>)
    requires HeadFrom(h, GENESIS_HEAD, 0, a) == HeadFrom(h, GENESIS_HEAD, 0, b)
    requires CollisionFree(h, Messages(h, a) + Messages(h, b))
    ensures a == b
  {
    hide HeadFrom, Messages, Message;
    if a != [] { LastHashed(h, a); }
    if b != [] { LastHashed(h, b); }
    NoRecords(h);
    if a != [] && b != [] {
      var (m, n) := (|a| - 1, |b| - 1);
      MessageParts(HeadFrom(h, GENESIS_HEAD, 0, a[..m]), m, a[m], HeadFrom(h, GENESIS_HEAD, 0, b[..n]), n, b[n]);
      EqualHeadsEqualHistory(h, a[..m], b[..n]);
      assert a == a[..m] + [a[m]] && b == b[..n] + [b[n]];
    }
  }

  lemma NoRecords(h: Hash)
    ensures HeadFrom(h, GENESIS_HEAD, 0, []) == GENESIS_HEAD
  {
  }

  // ----- The writer's running state -----

  class ChainState {
    const hash: Hash
    var nextSeq: nat
    var head: Digest
    ghost const origin: ChainLink
    ghost var values: seq<seq<u8>>

    /** The state is that of one unbroken chain from where it was resumed. */
    ghost predicate Valid()
      reads this
    {
      nextSeq == origin.seq_ + |values| && head == HeadFrom(hash, origin.prevHead, origin.seq_, values)
    }

    constructor (hash: Hash)
      ensures Valid() && this.hash == hash && values == [] && origin == ChainLink(0, GENESIS_HEAD)
      ensures nextSeq == 0 && head == GENESIS_HEAD && forall i :: 0 <= i < 32 ==> head[i] == 0
    {
      this.hash, nextSeq, head := hash, 0, GENESIS_HEAD;
      origin, values := ChainLink(0, GENESIS_HEAD), [];
    }

    constructor Resume(hash: Hash, nextSeq: nat, head: Digest)
      ensures Valid() && this.hash == hash && values == [] && origin == ChainLink(nextSeq, head)
      ensures this.nextSeq == nextSeq && this.head == head
    {
      this.hash, this.nextSeq, this.head := hash, nextSeq, head;
      origin, values := ChainLink(nextSeq, head), [];
    }

    /** `extend`: the link is the position before the record, and the chain is one record longer. */
    method Extend(value: seq<u8>) returns (link: ChainLink)
      requires Valid() && nextSeq < U64_MAX
      modifies this
      ensures Valid() && values == old(values) + [value]
      ensures link == Links(hash, origin.prevHead, origin.seq_, values)[|old(values)|]
      ensures link == ChainLink(old(nextSeq), old(head)) && nextSeq == old(nextSeq) + 1
      ensures head == hash(old(head) + U64Bytes(old(nextSeq)) + value)
    {
      link := ChainLink(nextSeq, head);
      head := hash(Message(head, nextSeq, value));
      nextSeq := nextSeq + 1;
      values := values + [value];
      assert values[..|values| - 1] == old(values);
    }
  }
}
