/** The payload an audit checkpoint signs, and what one payload pins down. */
module Signing {
  import opened Bytes
  import opened Numerals
  import opened Chain

  const CHECKPOINT_DOMAIN := Ascii("krabka-audit-ckpt-v1") + [0]

  const I64_MAX := 0x7FFF_FFFF_FFFF_FFFF

  predicate IsI64(t: int) { -I64_MAX - 1 <= t <= I64_MAX }

  /** `i64::to_be_bytes`: two's complement. */
  function I64Bytes(t: int): (b: seq<u8>)
    requires IsI64(t)
    ensures |b| == 8
  {
    U64Bytes(if t >= 0 then t else t + U64_MAX + 1)
  }

  function I64Of(b: seq<u8>): (t: int)
    requires |b| == 8
    ensures IsI64(t)
  {
    if U64Of(b) <= I64_MAX then U64Of(b) else U64Of(b) - U64_MAX - 1
  }

  lemma I64RoundTrip(t: int)
    requires IsI64(t)
    ensures I64Of(I64Bytes(t)) == t
  {
    hide U64Bytes, U64Of;
    U64RoundTrip(if t >= 0 then t else t + U64_MAX + 1);
  }

  lemma I64FromBytes(b: seq<u8>)
    requires |b| == 8
    ensures I64Bytes(I64Of(b)) == b
  {
    hide U64Bytes, U64Of;
    U64FromBytes(b);
  }

  /** What a checkpoint commits to. */
  datatype Payload = Payload(keyId: seq<u8>, seqHigh: nat, head: Digest, timeMs: int)

  predicate InRange(p: Payload) { p.seqHigh <= U64_MAX && IsI64(p.timeMs) }

  function KeyIdLen(keyId: seq<u8>): nat { if |keyId| <= U16_MAX then |keyId| else U16_MAX }

  /** Reading a signed payload: time, head and sequence number from the end, and the key id is what lies
      between them and the stored length. That length saturates for a key id of 2^16 bytes or more. */
  function Decoded(v: seq<u8>): (p: Option<Payload>)
    ensures p.Some? ==> InRange(p.value)
  {
    var (start, end) := (|CHECKPOINT_DOMAIN| + 2, |v| - 48);
    if end < start || v[..start - 2] != CHECKPOINT_DOMAIN || v[start - 2..start] != U16Bytes(KeyIdLen(v[start..end])) then None
    else Some(Payload(v[start..end], U64Of(v[end..end + 8]), v[end + 8..end + 40], I64Of(v[end + 40..])))
  }

  lemma Fields(a: seq<u8>, b: seq<u8>, c: seq<u8>, d: seq<u8>, e: seq<u8>, f: seq<u8>)
    ensures var v := a + b + c + d + e + f; var (i, j) := (|a| + |b|, |a| + |b| + |c|);
      && |v| == j + |d| + |e| + |f| && v[..|a|] == a && v[|a|..i] == b
      && v[i..j] == c && v[j..j + |d|] == d && v[j + |d|..j + |d| + |e|] == e && v[j + |d| + |e|..] == f
  {
  }

  /** `checkpoint_signing_bytes`: every field can be read back, so two payloads never sign the same bytes. */
  method CheckpointSigningBytes(p: Payload) returns (v: seq<u8>)
    requires InRange(p)
    ensures Decoded(v) == Some(p)
    ensures |v| == 71 + |p.keyId| && v[..21] == Ascii("krabka-audit-ckpt-v1") + [0] && v[23..|v| - 48] == p.keyId
    ensures var n := if |p.keyId| < 65535 then |p.keyId| else 65535; v[21..23] == [n / 256, n % 256]
  {
    hide U16Bytes, U64Bytes, U64Of, I64Bytes, I64Of, KeyIdLen;
    v := CHECKPOINT_DOMAIN;
    v := v + U16Bytes(KeyIdLen(p.keyId));
    v := v + p.keyId;
    v := v + U64Bytes(p.seqHigh);
    v := v + p.head;
    v := v + I64Bytes(p.timeMs);
    Fields(CHECKPOINT_DOMAIN, U16Bytes(KeyIdLen(p.keyId)), p.keyId, U64Bytes(p.seqHigh), p.head, I64Bytes(p.timeMs));
    U64RoundTrip(p.seqHigh);
    I64RoundTrip(p.timeMs);
    StoredLength(p.keyId);
  }

  /** The stored length is big-endian, and saturates. */
  lemma StoredLength(keyId: seq<u8>)
    ensures var n := if |keyId| < 65535 then |keyId| else 65535; U16Bytes(KeyIdLen(keyId)) == [n / 256, n % 256]
  {
    BigEndian16(KeyIdLen(keyId));
  }

  /** After the key id come the sequence number, big-endian, the head, and the time, big-endian in two's
      complement. */
  lemma SignedNumbers(v: seq<u8>, p: Payload)
    requires Decoded(v) == Some(p)
    ensures |v| == 71 + |p.keyId|
    ensures var b := v[|v| - 48..];
      && p.seqHigh == ((((((b[0] as int * 256 + b[1]) * 256 + b[2]) * 256 + b[3]) * 256 + b[4]) * 256 + b[5]) * 256 + b[6]) * 256 + b[7]
      && p.head == b[8..40]
      && p.timeMs == ((((((b[40] as int * 256 + b[41]) * 256 + b[42]) * 256 + b[43]) * 256 + b[44]) * 256 + b[45]) * 256 + b[46]) * 256 + b[47]
                     - (if b[40] < 128 then 0 else 0x1_0000_0000_0000_0000)
  {
    hide U16Bytes, KeyIdLen, U64Of;
    var (end, b) := (|v| - 48, v[|v| - 48..]);
    assert v[end..end + 8] == b[..8] && v[end + 8..end + 40] == b[8..40] && v[end + 40..] == b[40..];
    BigEndian64(b[..8]);
    BigEndian64(b[40..]);
  }

  /** A payload has one form only: whoever recomputes the bytes from the fields, as the verifier of a
      signature does, gets the bytes that were signed. */
  lemma PayloadIsCanonical(v: seq<u8>, w: seq<u8>)
    requires Decoded(v).Some? && Decoded(v) == Decoded(w)
    ensures v == w
  {
    hide U16Bytes, U64Bytes, U64Of, I64Bytes, I64Of, KeyIdLen;
    Assembled(v);
    Assembled(w);
  }

  lemma Assembled(v: seq<u8>)
    requires Decoded(v).Some?
    ensures var p := Decoded(v).value;
      v == CHECKPOINT_DOMAIN + U16Bytes(KeyIdLen(p.keyId)) + p.keyId + U64Bytes(p.seqHigh) + p.head + I64Bytes(p.timeMs)
  {
    hide U16Bytes, U64Bytes, U64Of, I64Bytes, I64Of, KeyIdLen;
    var (start, end) := (|CHECKPOINT_DOMAIN| + 2, |v| - 48);
    U64FromBytes(v[end..end + 8]);
    I64FromBytes(v[end + 40..]);
    Slices(v, start - 2, start, end, end + 8, end + 40);
  }

  lemma Slices(v: seq<u8>, i: nat, j: nat, k: nat, l: nat, m: nat)
    requires i <= j <= k <= l <= m <= |v|
    ensures v == v[..i] + v[i..j] + v[j..k] + v[k..l] + v[l..m] + v[m..]
  {
  }

  /** The checkpoint of a chain from genesis that holds `values`. */
  function CheckpointOf(h: Hash, keyId: seq<u8>, values: seq<seq<u8>>, timeMs: int): Payload {
    Payload(keyId, if values == [] then 0 else |values| - 1, HeadFrom(h, GENESIS_HEAD, 0, values), timeMs)
  }

  /** One signed byte string pins the whole chain behind it: its key, its time and every record, of which
      there are `seqHigh + 1`. */
  lemma PayloadPinsHistory(h: Hash, v: seq<u8>, k: seq<u8>, a: seq<seq<u8>>, t: int, k': seq<u8>, b: seq<seq<u8>>, t': int)
    requires Decoded(v) == Some(CheckpointOf(h, k, a, t)) && Decoded(v) == Some(CheckpointOf(h, k', b, t'))
    requires CollisionFree(h, Messages(h, a) + Messages(h, b))
    ensures k == k' && t == t' && a == b
    ensures a != [] ==> |b| == CheckpointOf(h, k, a, t).seqHigh + 1
  {
    hide Decoded, HeadFrom, Messages, CollisionFree;
    EqualHeadsEqualHistory(h, a, b);
  }
}
