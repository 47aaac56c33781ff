/** The names a backup reads and writes: checkpoint files, capture ids and object keys. */
module CaptureNames {
  import opened Bytes
  import opened Division
  import opened Numerals
  import opened TextSplit

  // ----- Lexicographic order -----

  /** Byte strings in the order `str` compares and a `BTreeSet` lists them. */
  predicate Before(a: seq<u8>, b: seq<u8>) {
    if b == [] then false
    else if a == [] then true
    else a[0] < b[0] || (a[0] == b[0] && Before(a[1..], b[1..]))
  }

  lemma {:induction false} BeforeSamePrefix(p: seq<u8>, a: seq<u8>, b: seq<u8>)
    ensures Before(p + a, p + b) == Before(a, b)
  {
    if p == [] {
      assert p + a == a && p + b == b;
    } else {
      assert (p + a)[1..] == p[1..] + a && (p + b)[1..] == p[1..] + b;
      BeforeSamePrefix(p[1..], a, b);
    }
  }

  /** Strings of equal length are ordered by themselves, whatever follows. */
  lemma {:induction false} BeforeSameLength(a: seq<u8>, b: seq<u8>, x: seq<u8>, y: seq<u8>)
    requires |a| == |b| && a != b
    ensures Before(a + x, b + y) == Before(a, b)
  {
    assert (a + x)[0] == a[0] && (b + y)[0] == b[0];
    if a[0] == b[0] {
      assert (a + x)[1..] == a[1..] + x && (b + y)[1..] == b[1..] + y;
      assert a == [a[0]] + a[1..] && b == [b[0]] + b[1..];
      BeforeSameLength(a[1..], b[1..], x, y);
    }
  }

  lemma {:induction false} BeforeIsStrict(a: seq<u8>)
    ensures !Before(a, a)
  {
    if a != [] {
      BeforeIsStrict(a[1..]);
    }
  }

  lemma FixedInjective(m: nat, n: nat, width: nat)
    requires m < Pow10(width) && n < Pow10(width) && Fixed(m, width) == Fixed(n, width)
    ensures m == n
  {
    FixedRoundTrip(m, width);
    FixedRoundTrip(n, width);
  }

  /** Zero-padded numerals of one width sort as numbers. */
  lemma {:induction false} FixedOrder(m: nat, n: nat, width: nat)
    requires m < Pow10(width) && n < Pow10(width)
    ensures Before(Fixed(m, width), Fixed(n, width)) <==> m < n
  {
    if width == 0 {
      assert Fixed(m, 0) == Fixed(n, 0) == [];
    } else {
      var (a, b) := (Fixed(m / 10, width - 1), Fixed(n / 10, width - 1));
      FixedOrder(m / 10, n / 10, width - 1);
      if m / 10 == n / 10 {
        BeforeSamePrefix(a, [DigitByte(m % 10)], [DigitByte(n % 10)]);
      } else {
        if a == b {
          FixedInjective(m / 10, n / 10, width - 1);
        }
        BeforeSameLength(a, b, [DigitByte(m % 10)], [DigitByte(n % 10)]);
      }
    }
  }

  // ----- Checkpoint names -----

  const DASH: u8 := 45
  const PLUS: u8 := 43
  const CHECKPOINT_SUFFIX := Ascii(".checkpoint")
  const OFFSET_WIDTH := 20
  const EPOCH_WIDTH := 10

  datatype CheckpointId = CheckpointId(endOffset: nat, epoch: nat)

  /** The derived order: end offset first, then epoch. */
  predicate Older(a: CheckpointId, b: CheckpointId) {
    a.endOffset < b.endOffset || (a.endOffset == b.endOffset && a.epoch < b.epoch)
  }

  /** Ids whose fields fit the name's widths; every id a controller writes does. */
  predicate Encodes(id: CheckpointId) { id.endOffset < Pow10(OFFSET_WIDTH) && id.endOffset <= U64_MAX && id.epoch < Pow10(EPOCH_WIDTH) }

  /** `checkpoint_name`. */
  function CheckpointName(id: CheckpointId): seq<u8> {
    Fixed(id.endOffset, OFFSET_WIDTH) + [DASH] + Fixed(id.epoch, EPOCH_WIDTH) + CHECKPOINT_SUFFIX
  }

  /** The name, byte for byte: twenty digits, a dash, ten digits and the suffix. */
  lemma CheckpointText(id: CheckpointId)
    ensures CheckpointName(id) == Fixed(id.endOffset, 20) + Ascii("-") + Fixed(id.epoch, 10) + Ascii(".checkpoint")
  {
    hide Fixed;
    assert Ascii("-") == [DASH];
  }

  function StripSuffix(s: seq<u8>, suffix: seq<u8>): Option<seq<u8>> {
    if |suffix| <= |s| && s[|s| - |suffix|..] == suffix then Some(s[..|s| - |suffix|]) else None
  }

  function ParseFields(offset: seq<u8>, epoch: seq<u8>): Option<CheckpointId> {
    if |offset| != OFFSET_WIDTH || |epoch| != EPOCH_WIDTH then None
    else match (ParseU64(offset), ParseU64(epoch))
         case (Some(o), Some(e)) => Some(CheckpointId(o, e))
         case _ => None
  }

  /** `checkpoint_id`. */
  function CheckpointOf(name: seq<u8>): Option<CheckpointId> {
    match StripSuffix(name, CHECKPOINT_SUFFIX)
    case None => None
    case Some(stem) =>
      match SplitOnce(stem, DASH)
      case None => None
      case Some((offset, epoch)) => ParseFields(offset, epoch)
  }

  lemma StripAfter(s: seq<u8>, suffix: seq<u8>)
    ensures StripSuffix(s + suffix, suffix) == Some(s)
  {
    assert (s + suffix)[|s|..] == suffix && (s + suffix)[..|s|] == s;
  }

  lemma ParseFixed(n: nat, width: nat)
    requires n < Pow10(width) && n <= U64_MAX && width > 0
    ensures ParseU64(Fixed(n, width)) == Some(n) && Free(Fixed(n, width), DASH) && Fixed(n, width)[0] != PLUS
  {
    FixedRoundTrip(n, width);
    assert IsDigit(Fixed(n, width)[0], 10);
  }

  lemma EpochFits(epoch: nat)
    requires epoch < Pow10(EPOCH_WIDTH)
    ensures epoch <= U64_MAX
  {
    assert Pow10(5) == 100_000;
    assert Pow10(10) == 10_000_000_000 by {
      assert Pow10(7) == 10_000_000;
      assert Pow10(9) == 1_000_000_000;
    }
  }

  lemma NameParts(offset: seq<u8>, epoch: seq<u8>)
    requires Free(offset, DASH)
    ensures CheckpointOf(offset + [DASH] + epoch + CHECKPOINT_SUFFIX) == ParseFields(offset, epoch)
  {
    hide ParseFields, StripSuffix, SplitOnce;
    StripAfter(offset + [DASH] + epoch, CHECKPOINT_SUFFIX);
    SplitOnceIff(offset + [DASH] + epoch, DASH, offset, epoch);
  }

  /** A name the controller wrote decodes to its id. */
  lemma CheckpointRoundTrip(id: CheckpointId)
    requires Encodes(id)
    ensures CheckpointOf(CheckpointName(id)) == Some(id)
  {
    hide Fixed, Pow10, ParseU64, CheckpointOf;
    EpochFits(id.epoch);
    ParseFixed(id.endOffset, OFFSET_WIDTH);
    ParseFixed(id.epoch, EPOCH_WIDTH);
    NameParts(Fixed(id.endOffset, OFFSET_WIDTH), Fixed(id.epoch, EPOCH_WIDTH));
  }

  /** The names of two checkpoints sort as their ids do. */
  lemma NamesSortAsIds(a: CheckpointId, b: CheckpointId)
    requires Encodes(a) && Encodes(b)
    ensures Before(CheckpointName(a), CheckpointName(b)) <==> Older(a, b)
  {
    hide Fixed, Pow10, Before;
    var (x, y) := (Fixed(a.endOffset, OFFSET_WIDTH), Fixed(b.endOffset, OFFSET_WIDTH));
    var (p, q) := (Fixed(a.epoch, EPOCH_WIDTH), Fixed(b.epoch, EPOCH_WIDTH));
    FixedOrder(a.endOffset, b.endOffset, OFFSET_WIDTH);
    FixedOrder(a.epoch, b.epoch, EPOCH_WIDTH);
    Group(x, [DASH], p, CHECKPOINT_SUFFIX);
    Group(y, [DASH], q, CHECKPOINT_SUFFIX);
    if x != y {
      BeforeSameLength(x, y, [DASH] + p + CHECKPOINT_SUFFIX, [DASH] + q + CHECKPOINT_SUFFIX);
    } else {
      FixedInjective(a.endOffset, b.endOffset, OFFSET_WIDTH);
      BeforeSamePrefix(x, [DASH] + p + CHECKPOINT_SUFFIX, [DASH] + q + CHECKPOINT_SUFFIX);
      Group3([DASH], p, CHECKPOINT_SUFFIX);
      Group3([DASH], q, CHECKPOINT_SUFFIX);
      BeforeSamePrefix([DASH], p + CHECKPOINT_SUFFIX, q + CHECKPOINT_SUFFIX);
      if p != q {
        BeforeSameLength(p, q, CHECKPOINT_SUFFIX, CHECKPOINT_SUFFIX);
      } else {
        FixedInjective(a.epoch, b.epoch, EPOCH_WIDTH);
        BeforeIsStrict(p + CHECKPOINT_SUFFIX);
      }
    }
  }

  lemma Group(a: seq<u8>, b: seq<u8>, c: seq<u8>, d: seq<u8>)
    ensures a + b + c + d == a + (b + c + d)
  {
  }

  lemma Group3(a: seq<u8>, b: seq<u8>, c: seq<u8>)
    ensures a + b + c == a + (b + c)
  {
  }

  // ----- Which names are accepted -----

  /** The two fields of a name of the right shape. */
  predicate Fields(name: seq<u8>, offset: seq<u8>, epoch: seq<u8>) {
    && name == offset + [DASH] + epoch + CHECKPOINT_SUFFIX
    && |offset| == OFFSET_WIDTH && |epoch| == EPOCH_WIDTH && Free(offset, DASH)
  }

  /** Whatever is accepted has two fields of the right widths. */
  lemma AcceptedHasFields(name: seq<u8>) returns (offset: seq<u8>, epoch: seq<u8>)
    requires CheckpointOf(name).Some?
    ensures Fields(name, offset, epoch) && CheckpointOf(name) == ParseFields(offset, epoch)
  {
    hide ParseU64, Find;
    var stem := StripSuffix(name, CHECKPOINT_SUFFIX).value;
    assert name == stem + CHECKPOINT_SUFFIX;
    offset, epoch := SplitOnce(stem, DASH).value.0, SplitOnce(stem, DASH).value.1;
    SplitOnceIff(stem, DASH, offset, epoch);
  }

  lemma ReencodesField(s: seq<u8>)
    requires s != [] && ParseU64(s).Some?
    ensures Fixed(ParseU64(s).value, |s|) == s <==> s[0] != PLUS
  {
    if s[0] != PLUS {
      FixedOfValue(s);
    } else {
      var n := ParseU64(s).value;
      FixedDigits(n, |s|);
      assert IsDigit(Fixed(n, |s|)[0], 10);
    }
  }

  lemma {:induction false} FixedDigits(n: nat, width: nat)
    ensures AllDigits(Fixed(n, width), 10)
  {
    if width > 0 {
      FixedDigits(n / 10, width - 1);
    }
  }

  /** The documented rule, that an accepted name re-encodes to itself, holds exactly for names whose fields
      have no plus sign: the integer parser takes one. */
  lemma ReencodesIffNoPlus(name: seq<u8>, offset: seq<u8>, epoch: seq<u8>)
    requires Fields(name, offset, epoch) && CheckpointOf(name).Some?
    ensures CheckpointName(CheckpointOf(name).value) == name <==> offset[0] != PLUS && epoch[0] != PLUS
  {
    hide ParseU64, Fixed, CheckpointOf;
    NameParts(offset, epoch);
    ReencodesField(offset);
    ReencodesField(epoch);
    var id := CheckpointOf(name).value;
    var (x, y) := (Fixed(id.endOffset, OFFSET_WIDTH), Fixed(id.epoch, EPOCH_WIDTH));
    var n := x + [DASH] + y + CHECKPOINT_SUFFIX;
    assert n[..20] == x && n[21..31] == y;
    assert name[..20] == offset && name[21..31] == epoch;
  }

  lemma ParseSigned(n: nat)
    requires n < Pow10(19)
    ensures n <= U64_MAX && ParseU64([PLUS] + Fixed(n, 19)) == Some(n) && Free([PLUS] + Fixed(n, 19), DASH)
  {
    hide Fixed, Pow10;
    NineteenDigits();
    FixedRoundTrip(n, 19);
    assert ([PLUS] + Fixed(n, 19))[1..] == Fixed(n, 19);
  }

  lemma NineteenDigits()
    ensures Pow10(19) <= U64_MAX
  {
    assert Pow10(4) == 10_000;
    assert Pow10(8) == 100_000_000;
    assert Pow10(12) == 1_000_000_000_000;
    assert Pow10(16) == 10_000_000_000_000_000;
  }

  /** Every offset of up to 19 digits has such a name, for example `+0000000000000000001-0000000042.checkpoint`. */
  lemma SignedNameIsAccepted(n: nat, epoch: nat)
    requires n < Pow10(19) && epoch < Pow10(EPOCH_WIDTH)
    ensures var name := [PLUS] + Fixed(n, 19) + [DASH] + Fixed(epoch, EPOCH_WIDTH) + CHECKPOINT_SUFFIX;
      CheckpointOf(name) == Some(CheckpointId(n, epoch)) && CheckpointName(CheckpointId(n, epoch)) != name
  {
    hide Fixed, Pow10, ParseU64, CheckpointOf, CheckpointName;
    var (x, y) := ([PLUS] + Fixed(n, 19), Fixed(epoch, EPOCH_WIDTH));
    ParseSigned(n);
    EpochFits(epoch);
    ParseFixed(epoch, EPOCH_WIDTH);
    NameParts(x, y);
    ReencodesIffNoPlus(x + [DASH] + y + CHECKPOINT_SUFFIX, x, y);
  }

  // ----- The newest checkpoint -----

  /** `name` is a checkpoint of `names`, and none is newer. */
  ghost predicate Newest(names: seq<seq<u8>>, name: seq<u8>) {
    && name in names && CheckpointOf(name).Some?
    && forall other :: other in names && CheckpointOf(other).Some? ==> !Older(CheckpointOf(name).value, CheckpointOf(other).value)
  }

  /** Every checkpoint after position `k` is older than the one there. */
  ghost predicate LastNewest(names: seq<seq<u8>>, k: nat) {
    && k < |names| && CheckpointOf(names[k]).Some?
    && forall j :: k < j < |names| && CheckpointOf(names[j]).Some? ==> Older(CheckpointOf(names[j]).value, CheckpointOf(names[k]).value)
  }

  /** `newest_checkpoint`: of the newest ones, the last, as `max_by_key` picks it. */
  method NewestCheckpoint(names: seq<seq<u8>>) returns (best: Option<seq<u8>>, ghost at: nat)
    ensures best == None <==> forall name :: name in names ==> CheckpointOf(name) == None
    ensures best.Some? ==> Newest(names, best.value) && LastNewest(names, at) && names[at] == best.value
  {
    hide CheckpointOf;
    best, at := None, 0;
    for i := 0 to |names|
      invariant best == None <==> forall name :: name in names[..i] ==> CheckpointOf(name) == None
      invariant best.Some? ==> Newest(names[..i], best.value) && LastNewest(names[..i], at) && names[at] == best.value
    {
      assert names[..i + 1] == names[..i] + [names[i]];
      var id := CheckpointOf(names[i]);
      if id.Some? && (best == None || !Older(id.value, CheckpointOf(best.value).value)) {
        best, at := Some(names[i]), i;
      }
    }
    assert names[..|names|] == names;
  }

  /** A file in the controller's checkpoint directory, or in the observer's. */
  datatype Found = Found(id: CheckpointId, controller: bool, name: seq<u8>)

  /** `newest_metadata_checkpoint` over the two listings: the newest of both, and the controller's at an
      equal id. */
  method NewestMetadataCheckpoint(controller: seq<seq<u8>>, observer: seq<seq<u8>>) returns (best: Option<Found>)
    ensures best == None <==> forall name :: name in controller + observer ==> CheckpointOf(name) == None
    ensures best.Some? ==>
      && best.value.name in (if best.value.controller then controller else observer)
      && CheckpointOf(best.value.name) == Some(best.value.id)
      && Newest(controller + observer, best.value.name)
      && (!best.value.controller ==>
          forall name :: name in controller && CheckpointOf(name).Some? ==> Older(CheckpointOf(name).value, best.value.id))
  {
    hide CheckpointOf;
    best := None;
    var first, _ := NewestCheckpoint(controller);
    if first.Some? {
      best := Some(Found(CheckpointOf(first.value).value, true, first.value));
    }
    var second, _ := NewestCheckpoint(observer);
    if second.Some? {
      var id := CheckpointOf(second.value).value;
      if best == None || Older(best.value.id, id) {
        best := Some(Found(id, false, second.value));
      }
    }
    assert forall name :: name in controller + observer <==> name in controller || name in observer;
  }

  // ----- Capture ids and keys -----

  /** `{now:016}`: at least sixteen digits. */
  function Padded(now: nat): seq<u8> { if now < Pow10(16) then Fixed(now, 16) else Digits(now, 10) }

  /** `capture_id`, with the random suffix as a parameter. */
  function CaptureId(now: nat, uuid: seq<u8>): seq<u8> { Padded(now) + [DASH] + uuid }

  lemma {:induction false} PowersGrow(j: nat, k: nat)
    requires j <= k
    ensures Pow10(j) <= Pow10(k)
  {
    if j < k {
      PowersGrow(j, k - 1);
    }
  }

  /** A numeral without leading zeros is the fixed-width one of its own length, the least that holds it. */
  lemma {:induction false} DigitsAreFixed(n: nat)
    ensures var k := |Digits(n, 10)|; Digits(n, 10) == Fixed(n, k) && n < Pow10(k) && (k > 1 ==> Pow10(k - 1) <= n)
  {
    if n < 10 {
      assert Fixed(n, 1) == Fixed(n / 10, 0) + [DigitByte(n % 10)];
      assert Pow10(1) == 10;
    } else {
      DigitsAreFixed(n / 10);
      var k := |Digits(n, 10)|;
      assert Fixed(n, k) == Fixed(n / 10, k - 1) + [DigitByte(n % 10)];
      assert k > 2 ==> Pow10(k - 1) == 10 * Pow10(k - 2);
      assert Pow10(1) == 10;
    }
  }

  lemma PaddedIsFixed(n: nat)
    ensures var k := |Padded(n)|; k >= 16 && Padded(n) == Fixed(n, k) && n < Pow10(k) && (k > 16 ==> Pow10(k - 1) <= n)
  {
    hide Digits, Fixed, Pow10;
    if n >= Pow10(16) {
      DigitsAreFixed(n);
      if |Digits(n, 10)| <= 16 {
        PowersGrow(|Digits(n, 10)|, 16);
      }
    }
  }

  /** The leading digits of a numeral are its quotient by a power of ten. */
  lemma {:induction false} LeadingDigits(n: nat, width: nat, dropped: nat)
    ensures Fixed(n, width + dropped)[..width] == Fixed(n / Pow10(dropped), width)
    ensures n < Pow10(width + dropped) ==> n / Pow10(dropped) < Pow10(width)
    decreases dropped
  {
    if dropped > 0 {
      LeadingDigits(n / 10, width, dropped - 1);
      DivDiv(n, 10, Pow10(dropped - 1));
      var front := Fixed(n / 10, width + dropped - 1);
      assert (front + [DigitByte(n % 10)])[..width] == front[..width];
    }
  }

  lemma LongerIsLater(a: nat, b: nat)
    requires a < b
    ensures |Padded(a)| <= |Padded(b)|
  {
    hide Padded, Pow10;
    PaddedIsFixed(a);
    PaddedIsFixed(b);
    if |Padded(a)| > |Padded(b)| {
      PowersGrow(|Padded(b)|, |Padded(a)| - 1);
    }
  }

  /** When capture ids sort by time, whatever their suffixes: exactly when the earlier clock is at most the
      leading digits of the later one, as many as the earlier id has. */
  lemma CapturesSortIff(a: nat, u: seq<u8>, b: nat, v: seq<u8>)
    requires a < b
    ensures |Padded(a)| <= |Padded(b)|
    ensures Before(CaptureId(a, u), CaptureId(b, v)) <==> a <= b / Pow10(|Padded(b)| - |Padded(a)|)
    ensures Before(CaptureId(b, v), CaptureId(a, u)) <==> a > b / Pow10(|Padded(b)| - |Padded(a)|)
  {
    hide Padded, Fixed, Pow10, Before;
    LongerIsLater(a, b);
    PaddedIsFixed(a);
    PaddedIsFixed(b);
    var (width, dropped) := (|Padded(a)|, |Padded(b)| - |Padded(a)|);
    LeadingDigits(b, width, dropped);
    var lead := b / Pow10(dropped);
    var rest := Padded(b)[width..] + [DASH] + v;
    assert Padded(b) == Fixed(lead, width) + Padded(b)[width..];
    assert CaptureId(b, v) == Fixed(lead, width) + rest;
    Group3(Padded(a), [DASH], u);
    if a == lead {
      DashSortsFirst(a, b, u, v);
    } else {
      FixedOrder(a, lead, width);
      FixedOrder(lead, a, width);
      BeforeSameLength(Fixed(a, width), Fixed(lead, width), [DASH] + u, rest);
      BeforeSameLength(Fixed(lead, width), Fixed(a, width), rest, [DASH] + u);
    }
  }

  /** A dash sorts before every digit. */
  lemma DashSortsFirst(a: nat, b: nat, u: seq<u8>, v: seq<u8>)
    requires a < b && |Padded(a)| <= |Padded(b)| && Padded(b)[..|Padded(a)|] == Padded(a)
    ensures Before(CaptureId(a, u), CaptureId(b, v)) && !Before(CaptureId(b, v), CaptureId(a, u))
  {
    hide Padded, Fixed, Pow10;
    var (p, width) := (Padded(a), |Padded(a)|);
    PaddedIsFixed(a);
    PaddedIsFixed(b);
    if |Padded(b)| == width {
      assert Padded(b)[..width] == Padded(b);
      FixedInjective(a, b, width);
    }
    FixedDigits(b, |Padded(b)|);
    var rest := Padded(b)[width..] + [DASH] + v;
    assert CaptureId(b, v) == p + rest;
    Group3(p, [DASH], u);
    BeforeSamePrefix(p, [DASH] + u, rest);
    BeforeSamePrefix(p, rest, [DASH] + u);
    assert rest[0] == Padded(b)[width] && IsDigit(Padded(b)[width], 10);
  }

  /** Captures sort by time for every clock below 10^16 milliseconds. */
  lemma CapturesSortByTime(a: nat, u: seq<u8>, b: nat, v: seq<u8>)
    requires a < b < Pow10(16)
    ensures Before(CaptureId(a, u), CaptureId(b, v)) && !Before(CaptureId(b, v), CaptureId(a, u))
  {
    hide Fixed, Pow10, Before;
    CapturesSortIff(a, u, b, v);
    TenTimes(0);
  }

  /** At 10^16 milliseconds the padding runs out, and the later capture sorts first. */
  lemma ClockPastTheWidth(u: seq<u8>, v: seq<u8>)
    ensures Before(CaptureId(Pow10(16), v), CaptureId(Pow10(16) - 1, u))
  {
    hide Digits, Fixed, Pow10, Before;
    var n := Pow10(16);
    CapturesSortIff(n - 1, u, n, v);
    PaddedIsFixed(n - 1);
    PaddedIsFixed(n);
    TenTimes(16);
    TenTimes(0);
    if |Padded(n)| > 17 {
      PowersGrow(17, |Padded(n)| - 1);
    }
    assert |Padded(n)| == 17 && |Padded(n - 1)| == 16;
    PowersGrow(1, 16);
    assert n / 10 < n - 1;
  }

  lemma TenTimes(k: nat)
    ensures Pow10(k + 1) == 10 * Pow10(k) && Pow10(0) == 1
  {
  }

  /** A timestamp-only id of an earlier build sorts before every suffixed id of its millisecond. */
  lemma LegacyIdSortsFirst(now: nat, uuid: seq<u8>)
    ensures Before(Padded(now), CaptureId(now, uuid))
  {
    hide Padded, Before;
    var p := Padded(now);
    assert p + [] == p && p + [DASH] + uuid == p + ([DASH] + uuid);
    BeforeSamePrefix(p, [], [DASH] + uuid);
    EmptySortsFirst([DASH] + uuid);
  }

  lemma EmptySortsFirst(s: seq<u8>)
    requires s != []
    ensures Before([], s)
  {
  }

  const CAPTURE_ROOT := Ascii("restore-inputs")

  /** `capture_key`. */
  function CaptureKey(id: seq<u8>, artifact: seq<u8>): seq<u8> { CAPTURE_ROOT + [SLASH] + id + [SLASH] + artifact }

  /** The directory `child_directories` reads off a listed key: what follows the root up to the next slash. */
  function ChildDirectory(key: seq<u8>): Option<seq<u8>> {
    var under := CAPTURE_ROOT + [SLASH];
    if |under| > |key| || key[..|under|] != under then None
    else match SplitOnce(key[|under|..], SLASH)
         case None => None
         case Some((head, _)) => if head == [] then None else Some(head)
  }

  /** The listing recovers exactly the id of every capture object. */
  lemma ListingFindsTheId(id: seq<u8>, artifact: seq<u8>)
    requires id != [] && Free(id, SLASH)
    ensures ChildDirectory(CaptureKey(id, artifact)) == Some(id)
  {
    hide SplitOnce;
    var under := CAPTURE_ROOT + [SLASH];
    var key := CaptureKey(id, artifact);
    assert key[..|under|] == under && key[|under|..] == id + [SLASH] + artifact;
    SplitOnceIff(id + [SLASH] + artifact, SLASH, id, artifact);
  }

  /** Objects of different captures, or of one capture under different names, never share a key. */
  lemma KeysAreDistinct(id: seq<u8>, artifact: seq<u8>, id': seq<u8>, artifact': seq<u8>)
    requires Free(id, SLASH) && Free(id', SLASH) && CaptureKey(id, artifact) == CaptureKey(id', artifact')
    ensures id == id' && artifact == artifact'
  {
    hide SplitOnce;
    var under := CAPTURE_ROOT + [SLASH];
    assert CaptureKey(id, artifact)[|under|..] == id + [SLASH] + artifact;
    assert CaptureKey(id', artifact')[|under|..] == id' + [SLASH] + artifact';
    SplitOnceIff(id + [SLASH] + artifact, SLASH, id, artifact);
    SplitOnceIff(id' + [SLASH] + artifact', SLASH, id', artifact');
  }

  /** An id, byte for byte: the clock in decimal, to sixteen digits or more, a dash, and the suffix. */
  lemma CaptureIdText(now: nat, uuid: seq<u8>)
    ensures CaptureId(now, uuid) == Padded(now) + Ascii("-") + uuid
    ensures |Padded(now)| >= 16 && AllDigits(Padded(now), 10) && Value(Padded(now), 10) == now
    ensures |Padded(now)| > 16 ==> Padded(now)[0] != 48
  {
    hide Padded, Fixed, Pow10;
    assert Ascii("-") == [DASH];
    PaddedIsFixed(now);
    FixedRoundTrip(now, |Padded(now)|);
    if |Padded(now)| > 16 {
      LeadingDigit(now, |Padded(now)|);
    }
  }

  lemma {:induction false} LeadingDigit(n: nat, width: nat)
    requires width > 0 && Pow10(width - 1) <= n < Pow10(width)
    ensures Fixed(n, width)[0] != 48
  {
    if width > 1 {
      LeadingDigit(n / 10, width - 1);
    } else {
      assert Fixed(n, 1) == Fixed(n / 10, 0) + [DigitByte(n % 10)];
      assert Pow10(0) == 1 && Pow10(1) == 10;
    }
  }

  /** A key, byte for byte. */
  lemma KeyText(id: seq<u8>, artifact: seq<u8>)
    ensures CaptureKey(id, artifact) == Ascii("restore-inputs/") + id + Ascii("/") + artifact
  {
    assert Ascii("/") == [SLASH];
    assert Ascii("restore-inputs/") == Ascii("restore-inputs") + [SLASH];
  }

  /** A key lists as `id` exactly when it is under the root, in the non-empty directory `id`. */
  lemma ListedIff(key: seq<u8>, id: seq<u8>)
    ensures ChildDirectory(key) == Some(id) <==>
      id != [] && Free(id, SLASH) && exists rest :: key == Ascii("restore-inputs/") + id + Ascii("/") + rest
  {
    hide SplitOnce, ChildDirectory;
    if id != [] && Free(id, SLASH) {
      if rest :| key == Ascii("restore-inputs/") + id + Ascii("/") + rest {
        KeyText(id, rest);
        ListingFindsTheId(id, rest);
      }
    }
    if ChildDirectory(key) == Some(id) {
      var rest := ListedParts(key, id);
      KeyText(id, rest);
    }
  }

  lemma ListedParts(key: seq<u8>, id: seq<u8>) returns (rest: seq<u8>)
    requires ChildDirectory(key) == Some(id)
    ensures id != [] && Free(id, SLASH) && key == CaptureKey(id, rest)
  {
    hide SplitOnce;
    var under := CAPTURE_ROOT + [SLASH];
    var tail := key[|under|..];
    rest := SplitOnce(tail, SLASH).value.1;
    SplitOnceIff(tail, SLASH, id, rest);
    assert key == under + tail && under + (id + [SLASH] + rest) == under + id + [SLASH] + rest;
  }

  /** A name decodes to `id` exactly when it is twenty bytes, a dash, ten bytes and the suffix, and both fields
      parse, to `id`'s. */
  lemma CheckpointIff(name: seq<u8>, id: CheckpointId)
    ensures CheckpointOf(name) == Some(id) <==>
      exists offset, epoch ::
        && |offset| == 20 && |epoch| == 10 && name == offset + Ascii("-") + epoch + Ascii(".checkpoint")
        && ParseU64(offset) == Some(id.endOffset) && ParseU64(epoch) == Some(id.epoch)
  {
    hide ParseU64, CheckpointOf;
    assert Ascii("-") == [DASH];
    if CheckpointOf(name) == Some(id) {
      var offset, epoch := AcceptedHasFields(name);
    }
    if offset, epoch :| && |offset| == 20 && |epoch| == 10 && name == offset + Ascii("-") + epoch + Ascii(".checkpoint")
                        && ParseU64(offset) == Some(id.endOffset) && ParseU64(epoch) == Some(id.epoch) {
      ParsedHasNoDash(offset);
      NameParts(offset, epoch);
    }
  }

  lemma ParsedHasNoDash(s: seq<u8>)
    requires ParseU64(s).Some?
    ensures Free(s, DASH)
  {
    var digits := if s != [] && s[0] == 43 then s[1..] else s;
    assert forall i :: 0 <= i < |digits| ==> digits[i] != DASH;
    if digits != s {
      assert s == [s[0]] + digits;
    }
  }
}
