/** The records-lost marker: the record that declares a batch of losses, and reading it back. */
module LossMarker {
  import opened Bytes
  import opened Numerals
  import opened AuditCodec
  import opened LossLedger

  const COUNT_FIELD := Ascii("{\"records_lost\":")
  const GENERATION_FIELD := Ascii(",\"loss_generation\":")
  const CLOSE := Ascii("}")

  function MarkerValue(batch: Losses): seq<u8> {
    COUNT_FIELD + Digits(batch.count, 10) + GENERATION_FIELD + Digits(batch.generation, 10) + CLOSE
  }

  /** `AuditRecord::records_lost`, with the chain headers the writer stamps on it. */
  function RecordsLostRecord(batch: Losses, headers: seq<Header>): AuditRecord {
    AuditRecord(RecordsLost, MarkerValue(batch), [Header(Ascii("event_class"), Ascii("records_lost"))] + headers)
  }

  function Strip(s: seq<u8>, prefix: seq<u8>): Option<seq<u8>> {
    if |prefix| <= |s| && s[..|prefix|] == prefix then Some(s[|prefix|..]) else None
  }

  /** A JSON unsigned integer that fits `u64`, and what follows it. */
  function TakeNumber(s: seq<u8>): Option<(nat, seq<u8>)> {
    var n := DigitRun(s, 10);
    if n == 0 || (n > 1 && s[0] == 48) || Value(s[..n], 10) > U64_MAX then None
    else Some((Value(s[..n], 10), s[n..]))
  }

  function TakeField(s: seq<u8>, name: seq<u8>): Option<(nat, seq<u8>)> {
    match Strip(s, name)
    case None => None
    case Some(rest) => TakeNumber(rest)
  }

  function BatchOfValue(value: seq<u8>): Option<Losses> {
    match TakeField(value, COUNT_FIELD)
    case None => None
    case Some((count, rest)) =>
      match TakeField(rest, GENERATION_FIELD)
      case None => None
      case Some((generation, rest')) => if rest' == CLOSE then Some(Losses(generation, count)) else None
  }

  /** The losses a records-lost marker reports, or `None` for any other record. */
  function LossMarkerBatch(r: AuditRecord): Option<Losses> {
    if r.class_ == RecordsLost then BatchOfValue(r.value) else None
  }

  lemma {:induction false} NoLeadingZero(n: nat)
    ensures |Digits(n, 10)| > 1 ==> Digits(n, 10)[0] != 48
    ensures n > 0 ==> Digits(n, 10)[0] != 48
  {
    if n >= 10 {
      NoLeadingZero(n / 10);
    }
  }

  lemma TakeDigits(n: nat, rest: seq<u8>)
    requires n <= U64_MAX && (rest != [] ==> !IsDigit(rest[0], 10))
    ensures TakeNumber(Digits(n, 10) + rest) == Some((n, rest))
  {
    var d := Digits(n, 10);
    ValueOfDigits(n, 10);
    NoLeadingZero(n);
    DigitRunStops(d, rest, 10);
    assert (d + rest)[..|d|] == d && (d + rest)[|d|..] == rest;
  }

  lemma TakeNamedField(name: seq<u8>, n: nat, rest: seq<u8>)
    requires n <= U64_MAX && (rest != [] ==> !IsDigit(rest[0], 10))
    ensures TakeField(name + Digits(n, 10) + rest, name) == Some((n, rest))
  {
    var s := name + Digits(n, 10) + rest;
    assert s[..|name|] == name && s[|name|..] == Digits(n, 10) + rest;
    TakeDigits(n, rest);
  }

  lemma BatchOfFields(value: seq<u8>, count: nat, rest: seq<u8>, generation: nat)
    requires TakeField(value, COUNT_FIELD) == Some((count, rest))
    requires TakeField(rest, GENERATION_FIELD) == Some((generation, CLOSE))
    ensures BatchOfValue(value) == Some(Losses(generation, count))
  {
  }

  lemma Group(a: seq<u8>, b: seq<u8>, c: seq<u8>, d: seq<u8>, e: seq<u8>)
    ensures a + b + c + d + e == a + b + (c + d + e)
  {
  }

  /** A marker reads back as exactly the batch it was written for. */
  lemma MarkerRoundTrip(batch: Losses, headers: seq<Header>)
    requires InRange(batch)
    ensures LossMarkerBatch(RecordsLostRecord(batch, headers)) == Some(batch)
  {
    var rest := GENERATION_FIELD + Digits(batch.generation, 10) + CLOSE;
    assert rest[0] == 44;
    TakeNamedField(COUNT_FIELD, batch.count, rest);
    TakeNamedField(GENERATION_FIELD, batch.generation, CLOSE);
    Group(COUNT_FIELD, Digits(batch.count, 10), GENERATION_FIELD, Digits(batch.generation, 10), CLOSE);
    BatchOfFields(MarkerValue(batch), batch.count, rest, batch.generation);
  }

  // ----- Exactly the text -----

  /** `m` is the record that declares `batch`, byte for byte, with `headers` after its own. */
  predicate Declares(m: AuditRecord, batch: Losses, headers: seq<Header>) {
    && m.class_ == RecordsLost
    && m.value == Ascii("{\"records_lost\":") + Digits(batch.count, 10) + Ascii(",\"loss_generation\":") + Digits(batch.generation, 10) + Ascii("}")
    && m.headers == [Header(Ascii("event_class"), Ascii("records_lost"))] + headers
  }

  lemma MarkerText(batch: Losses, headers: seq<Header>)
    ensures Declares(RecordsLostRecord(batch, headers), batch, headers)
  {
  }

  lemma {:induction false} DigitsOfValue(s: seq<u8>)
    requires s != [] && AllDigits(s, 10) && (|s| > 1 ==> s[0] != 48)
    ensures Digits(Value(s, 10), 10) == s && (s[0] != 48 ==> Value(s, 10) > 0)
  {
    var (front, last) := (s[..|s| - 1], s[|s| - 1]);
    if front == [] {
      assert Value(s, 10) == DigitValue(last);
      assert s == [last];
    } else {
      DigitsOfValue(front);
      assert Value(s, 10) / 10 == Value(front, 10) && Value(s, 10) % 10 == DigitValue(last);
      assert s == front + [last];
    }
  }

  lemma TakenNumber(s: seq<u8>)
    requires TakeNumber(s).Some?
    ensures var (n, rest) := TakeNumber(s).value; n <= U64_MAX && s == Digits(n, 10) + rest
  {
    var n := DigitRun(s, 10);
    DigitsOfValue(s[..n]);
    assert s == s[..n] + s[n..];
  }

  lemma TakenField(s: seq<u8>, name: seq<u8>)
    requires TakeField(s, name).Some?
    ensures var (n, rest) := TakeField(s, name).value; n <= U64_MAX && s == name + Digits(n, 10) + rest
  {
    hide TakeNumber, Digits;
    var rest := s[|name|..];
    TakenNumber(rest);
    assert s == name + rest;
    var (n, last) := TakeNumber(rest).value;
    assert name + (Digits(n, 10) + last) == name + Digits(n, 10) + last;
  }

  /** A record reads as a marker exactly when it is one: no other text does. */
  lemma MarkerIff(r: AuditRecord, batch: Losses)
    ensures LossMarkerBatch(r) == Some(batch) <==> r.class_ == RecordsLost && r.value == MarkerValue(batch) && InRange(batch)
  {
    hide TakeField, Digits;
    if r.class_ == RecordsLost {
      if r.value == MarkerValue(batch) && InRange(batch) {
        MarkerRoundTrip(batch, r.headers);
      } else if BatchOfValue(r.value) == Some(batch) {
        var (count, rest) := TakeField(r.value, COUNT_FIELD).value;
        TakenField(r.value, COUNT_FIELD);
        TakenField(rest, GENERATION_FIELD);
        Group(COUNT_FIELD, Digits(count, 10), GENERATION_FIELD, Digits(batch.generation, 10), CLOSE);
      }
    }
  }
}
