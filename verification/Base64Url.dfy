/** Unpadded base64url (section 5 of RFC 4648, without padding as section 3.2 allows). */
module Base64Url {
  import opened Wrappers
  import opened Text

  type Sextet = v: int | 0 <= v < 64

  function Symbol(v: Sextet): char {
    if v < 26 then 'A' + (v as char)
    else if v < 52 then 'a' + ((v - 26) as char)
    else if v < 62 then '0' + ((v - 52) as char)
    else if v == 62 then '-' else '_'
  }

  predicate IsSymbol(c: char) {
    IsAsciiAlphanumeric(c) || c == '-' || c == '_'
  }

  function SymbolValue(c: char): Sextet
    requires IsSymbol(c)
  {
    if 'A' <= c <= 'Z' then (c - 'A') as int
    else if 'a' <= c <= 'z' then 26 + (c - 'a') as int
    else if '0' <= c <= '9' then 52 + (c - '0') as int
    else if c == '-' then 62 else 63
  }

  lemma SymbolRoundTrip(v: Sextet)
    ensures IsSymbol(Symbol(v)) && SymbolValue(Symbol(v)) == v
  {
  }

  // ----- groups of bits -----

  function Sextet0(a: byte): Sextet {
    a / 4
  }

  function Sextet1(a: byte, b: byte): Sextet {
    (a as int) % 4 * 16 + (b as int) / 16
  }

  function Sextet2(b: byte, c: byte): Sextet {
    (b as int) % 16 * 4 + (c as int) / 64
  }

  function Sextet3(c: byte): Sextet {
    c % 64
  }

  /** Three bytes give four sextets; missing bytes at the end count as zero bits. */
  function ToSextets(bytes: seq<byte>): seq<Sextet> {
    if bytes == [] then []
    else if |bytes| == 1 then [Sextet0(bytes[0]), Sextet1(bytes[0], 0)]
    else if |bytes| == 2 then [Sextet0(bytes[0]), Sextet1(bytes[0], bytes[1]), Sextet2(bytes[1], 0)]
    else
      [Sextet0(bytes[0]), Sextet1(bytes[0], bytes[1]), Sextet2(bytes[1], bytes[2]), Sextet3(bytes[2])]
      + ToSextets(bytes[3..])
  }

  function First(a: Sextet, b: Sextet): byte {
    (a as int) * 4 + (b as int) / 16
  }

  function Second(b: Sextet, c: Sextet): byte {
    (b as int) % 16 * 16 + (c as int) / 4
  }

  function Third(c: Sextet, d: Sextet): byte {
    (c as int) % 4 * 64 + d as int
  }

  /** Lenient: spare bits at the end are dropped, and so is a single sextet left over. */
  function FromSextets(v: seq<Sextet>): seq<byte> {
    if |v| < 2 then []
    else if |v| == 2 then [First(v[0], v[1])]
    else if |v| == 3 then [First(v[0], v[1]), Second(v[1], v[2])]
    else [First(v[0], v[1]), Second(v[1], v[2]), Third(v[2], v[3])] + FromSextets(v[4..])
  }

  lemma GroupRoundTrip(a: byte, b: byte, c: byte)
    ensures First(Sextet0(a), Sextet1(a, b)) == a
    ensures Second(Sextet1(a, b), Sextet2(b, c)) == b
    ensures Third(Sextet2(b, c), Sextet3(c)) == c
  {
  }

  lemma {:induction false} SextetsRoundTrip(bytes: seq<byte>)
    ensures FromSextets(ToSextets(bytes)) == bytes
  {
    hide Sextet0, Sextet1, Sextet2, Sextet3, First, Second, Third;
    if bytes != [] {
      var a, b := bytes[0], if |bytes| > 1 then bytes[1] else 0;
      GroupRoundTrip(a, b, if |bytes| > 2 then bytes[2] else 0);
      if |bytes| >= 3 {
        var v := ToSextets(bytes);
        SextetsRoundTrip(bytes[3..]);
        assert v[4..] == ToSextets(bytes[3..]);
        assert bytes == [bytes[0], bytes[1], bytes[2]] + bytes[3..];
      }
    }
  }

  lemma {:induction false} SextetCount(bytes: seq<byte>)
    ensures |ToSextets(bytes)| == (4 * |bytes| + 2) / 3
  {
    if |bytes| >= 3 {
      SextetCount(bytes[3..]);
    }
  }

  /** The alphabet of the standard's table, in order. */
  const ALPHABET := ((UPPER + LOWER) + DIGITS) + "-_"

  lemma SymbolsAreTheAlphabet(v: Sextet)
    ensures |ALPHABET| == 64 && Symbol(v) == ALPHABET[v]
  {
    RangesAre();
    hide UPPER, LOWER, DIGITS;
  }

  /** The four sextets of three bytes are one number of 24 bits, read six bits at a time. */
  lemma GroupIsOneNumber(a: byte, b: byte, c: byte)
    ensures (a as int) * 0x1_0000 + (b as int) * 0x100 + c as int
         == (Sextet0(a) as int) * 0x4_0000 + (Sextet1(a, b) as int) * 0x1000 + (Sextet2(b, c) as int) * 0x40
            + Sextet3(c) as int
  {
  }

  // ----- text -----

  function Encode(bytes: seq<byte>): (r: string)
    ensures |r| == |ToSextets(bytes)| && forall i :: 0 <= i < |r| ==> r[i] == Symbol(ToSextets(bytes)[i])
  {
    var v := ToSextets(bytes);
    seq(|v|, i requires 0 <= i < |v| => Symbol(v[i]))
  }

  predicate IsText(text: string) {
    text != [] && forall i :: 0 <= i < |text| ==> IsSymbol(text[i])
  }

  function TextValues(text: string): (r: seq<Sextet>)
    requires IsText(text)
    ensures |r| == |text| && forall i :: 0 <= i < |r| ==> r[i] == SymbolValue(text[i])
  {
    seq(|text|, i requires 0 <= i < |text| => SymbolValue(text[i]))
  }

  /** The bytes of a text in canonical form: decode, encode again, and compare. */
  function DecodeCanonical(text: string): Option<seq<byte>> {
    if !IsText(text) then None
    else
      var bytes := FromSextets(TextValues(text));
      if Encode(bytes) == text then Some(bytes) else None
  }

  lemma EncodedIsText(bytes: seq<byte>)
    requires bytes != []
    ensures IsText(Encode(bytes)) && TextValues(Encode(bytes)) == ToSextets(bytes)
  {
    forall v: Sextet ensures IsSymbol(Symbol(v)) && SymbolValue(Symbol(v)) == v {
      SymbolRoundTrip(v);
    }
    SextetCount(bytes);
  }

  /** Exactly one text per nonempty byte string is accepted: the one encoding gives. */
  lemma DecodeCanonicalIsExact(text: string, bytes: seq<byte>)
    ensures DecodeCanonical(text) == Some(bytes) <==> bytes != [] && text == Encode(bytes)
  {
    hide ToSextets, FromSextets;
    if bytes != [] && text == Encode(bytes) {
      EncodedIsText(bytes);
      SextetsRoundTrip(bytes);
    }
    if DecodeCanonical(text) == Some([]) {
      NothingEncodes();
    }
  }

  lemma NothingEncodes()
    ensures Encode([]) == ""
  {
    SextetCount([]);
  }
}
