/** The bytes that a webhook signature covers, and a decoder that takes them apart again. */
module WebhookSignature {
  import opened Wrappers
  import opened Text
  import Decimal

  type Bytes = seq<byte>

  const FIELD_SEPARATOR: byte := 0x0A
  const MINUS: byte := 0x2D

  /** "baukit-webhook-v1" */
  const VERSION: Bytes :=
      [0x62, 0x61, 0x75, 0x6B, 0x69, 0x74, 0x2D, 0x77, 0x65, 0x62, 0x68, 0x6F, 0x6F, 0x6B, 0x2D, 0x76, 0x31]

  function DigitBytes(digits: seq<Decimal.Digit>): (r: Bytes)
    ensures |r| == |digits| && forall i :: 0 <= i < |r| ==> r[i] == (digits[i] as int) + 0x30
  {
    seq(|digits|, i requires 0 <= i < |digits| => (digits[i] as int) + 0x30)
  }

  function NaturalBytes(n: nat): Bytes {
    DigitBytes(Decimal.Digits(n))
  }

  function IntegerBytes(n: int): Bytes {
    if n < 0 then [MINUS] + NaturalBytes(-n) else NaturalBytes(n)
  }

  function HeaderFields(timestamp: int, deliveryId: Bytes): seq<Bytes> {
    [VERSION, IntegerBytes(timestamp), NaturalBytes(|deliveryId|), deliveryId]
  }

  function Terminated(fields: seq<Bytes>): Bytes {
    if fields == [] then [] else Terminated(fields[..|fields| - 1]) + (fields[|fields| - 1] + [FIELD_SEPARATOR])
  }

  function SigningInput(timestamp: int, deliveryId: Bytes, body: Bytes): Bytes {
    Terminated(HeaderFields(timestamp, deliveryId)) + body
  }

  /** Each field before the body ends with the separator. */
  method WebhookSigningInput(timestamp: int, deliveryId: Bytes, body: Bytes) returns (input: Bytes)
    ensures input == SigningInput(timestamp, deliveryId, body)
  {
    hide IntegerBytes, NaturalBytes;
    var fields := [VERSION, IntegerBytes(timestamp), NaturalBytes(|deliveryId|), deliveryId];
    input := [];
    for i := 0 to |fields|
      invariant input == Terminated(fields[..i])
    {
      assert fields[..i + 1][..i] == fields[..i];
      input := input + fields[i];
      input := input + [FIELD_SEPARATOR];
      assert input == Terminated(fields[..i]) + (fields[i] + [FIELD_SEPARATOR]);
    }
    assert fields[..|fields|] == fields;
    input := input + body;
  }

  // ----- decoding -----

  predicate AreDigits(bytes: Bytes) {
    forall i :: 0 <= i < |bytes| ==> 0x30 <= bytes[i] <= 0x39
  }

  function ByteDigits(bytes: Bytes): (r: seq<Decimal.Digit>)
    requires AreDigits(bytes)
    ensures |r| == |bytes| && forall i :: 0 <= i < |r| ==> r[i] == bytes[i] - 0x30
  {
    seq(|bytes|, i requires 0 <= i < |bytes| => bytes[i] - 0x30)
  }

  function ParseNatural(bytes: Bytes): Option<nat> {
    if AreDigits(bytes) then Some(Decimal.Value(ByteDigits(bytes))) else None
  }

  function ParseInteger(bytes: Bytes): Option<int> {
    if bytes != [] && bytes[0] == MINUS then
      match ParseNatural(bytes[1..])
      case None => None
      case Some(n) => var m: int := n; Some(-m)
    else
      match ParseNatural(bytes)
      case None => None
      case Some(n) => Some(n)
  }

  /** The bytes up to the next separator, and those after it. */
  function NextField(input: Bytes): Option<(Bytes, Bytes)> {
    var i := IndexOf(input, FIELD_SEPARATOR);
    if i == |input| then None else Some((input[..i], input[i + 1..]))
  }

  /** Reads the version and the timestamp; the length says where the delivery ID ends. */
  function Decode(input: Bytes): Option<(int, Bytes, Bytes)> {
    var version := NextField(input);
    if version.None? || version.value.0 != VERSION then None
    else
      var timestamp := NextField(version.value.1);
      if timestamp.None? || ParseInteger(timestamp.value.0).None? then None
      else
        var length := NextField(timestamp.value.1);
        if length.None? || ParseNatural(length.value.0).None? then None
        else
          var n, rest := ParseNatural(length.value.0).value, length.value.1;
          if |rest| <= n then None
          else Some((ParseInteger(timestamp.value.0).value, rest[..n], rest[n + 1..]))
  }

  lemma NaturalRoundTrip(n: nat)
    ensures ParseNatural(NaturalBytes(n)) == Some(n) && FIELD_SEPARATOR !in NaturalBytes(n)
    ensures NaturalBytes(n) != [] && NaturalBytes(n)[0] != MINUS
  {
    Decimal.ValueOfDigits(n);
    hide Decimal.Digits, Decimal.Value;
    assert ByteDigits(NaturalBytes(n)) == Decimal.Digits(n);
  }

  lemma IntegerRoundTrip(n: int)
    ensures ParseInteger(IntegerBytes(n)) == Some(n) && FIELD_SEPARATOR !in IntegerBytes(n)
  {
    hide ParseNatural, NaturalBytes;
    if n < 0 {
      NaturalRoundTrip(-n);
      assert ([MINUS] + NaturalBytes(-n))[1..] == NaturalBytes(-n);
    } else {
      NaturalRoundTrip(n);
    }
  }

  lemma NextFieldReads(field: Bytes, rest: Bytes)
    requires FIELD_SEPARATOR !in field
    ensures NextField(field + ([FIELD_SEPARATOR] + rest)) == Some((field, rest))
  {
    hide IndexOf;
    IndexOfFirst(field, FIELD_SEPARATOR, rest);
    var s := field + ([FIELD_SEPARATOR] + rest);
    assert s[..|field|] == field && s[|field| + 1..] == rest;
  }

  lemma TerminatedThen(fields: seq<Bytes>, field: Bytes, rest: Bytes)
    ensures Terminated(fields + [field]) + rest == Terminated(fields) + (field + ([FIELD_SEPARATOR] + rest))
  {
    assert (fields + [field])[..|fields|] == fields;
    assert Terminated(fields + [field]) == Terminated(fields) + (field + [FIELD_SEPARATOR]);
  }

  lemma InputLayout(timestamp: int, deliveryId: Bytes, body: Bytes)
    ensures SigningInput(timestamp, deliveryId, body)
         == VERSION + ([FIELD_SEPARATOR] + (IntegerBytes(timestamp) + ([FIELD_SEPARATOR]
            + (NaturalBytes(|deliveryId|) + ([FIELD_SEPARATOR] + (deliveryId + ([FIELD_SEPARATOR] + body)))))))
  {
    hide IntegerBytes, NaturalBytes, Terminated;
    var t, n := IntegerBytes(timestamp), NaturalBytes(|deliveryId|);
    var afterLength := deliveryId + ([FIELD_SEPARATOR] + body);
    var afterTimestamp := n + ([FIELD_SEPARATOR] + afterLength);
    var afterVersion := t + ([FIELD_SEPARATOR] + afterTimestamp);
    assert [] + [VERSION] == [VERSION] && [VERSION] + [t] == [VERSION, t] && [VERSION, t] + [n] == [VERSION, t, n]
        && [VERSION, t, n] + [deliveryId] == HeaderFields(timestamp, deliveryId);
    TerminatedThen([VERSION, t, n], deliveryId, body);
    TerminatedThen([VERSION, t], n, afterLength);
    TerminatedThen([VERSION], t, afterTimestamp);
    TerminatedThen([], VERSION, afterVersion);
    assert Terminated([]) + (VERSION + ([FIELD_SEPARATOR] + afterVersion))
        == VERSION + ([FIELD_SEPARATOR] + afterVersion) by {
      NoFields();
    }
  }

  lemma NoFields()
    ensures Terminated([]) == []
  {
  }

  /** The decoder gets back every timestamp, delivery ID (line ends included) and body. */
  lemma DecodeRoundTrip(timestamp: int, deliveryId: Bytes, body: Bytes)
    ensures Decode(SigningInput(timestamp, deliveryId, body)) == Some((timestamp, deliveryId, body))
  {
    hide NextField, IntegerBytes, NaturalBytes, ParseInteger, ParseNatural, SigningInput;
    InputLayout(timestamp, deliveryId, body);
    IntegerRoundTrip(timestamp);
    NaturalRoundTrip(|deliveryId|);
    var tail := deliveryId + ([FIELD_SEPARATOR] + body);
    var lengthOn := NaturalBytes(|deliveryId|) + ([FIELD_SEPARATOR] + tail);
    NextFieldReads(NaturalBytes(|deliveryId|), tail);
    NextFieldReads(IntegerBytes(timestamp), lengthOn);
    NextFieldReads(VERSION, IntegerBytes(timestamp) + ([FIELD_SEPARATOR] + lengthOn));
    assert tail[..|deliveryId|] == deliveryId && tail[|deliveryId| + 1..] == body;
  }

  /** Different deliveries never have the same bytes signed. */
  lemma SigningInputIsInjective(t1: int, id1: Bytes, body1: Bytes, t2: int, id2: Bytes, body2: Bytes)
    requires SigningInput(t1, id1, body1) == SigningInput(t2, id2, body2)
    ensures t1 == t2 && id1 == id2 && body1 == body2
  {
    hide Decode, SigningInput;
    DecodeRoundTrip(t1, id1, body1);
    DecodeRoundTrip(t2, id2, body2);
  }
}
