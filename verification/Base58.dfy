/** base58btc and the multibase public-key encoding of did:key identifiers. */
module Base58 {
  import opened Prelude
  import opened Radix

  /** Character d of the Bitcoin alphabet: 1-9, A-Z without I and O, a-z without l. */
  function CharOf(d: nat): char
    requires d < 58
  {
    if d < 9 then ('1' as int + d) as char
    else if d < 17 then ('A' as int + d - 9) as char
    else if d < 22 then ('J' as int + d - 17) as char
    else if d < 33 then ('P' as int + d - 22) as char
    else if d < 44 then ('a' as int + d - 33) as char
    else ('m' as int + d - 44) as char
  }

  /** strings.IndexRune(base58Alphabet, c). */
  function DigitOf(c: char): (d: Option<nat>)
    ensures d.Some? ==> d.value < 58 && CharOf(d.value) == c
  {
    if '1' <= c <= '9' then Some(c as int - '1' as int)
    else if 'A' <= c <= 'H' then Some(c as int - 'A' as int + 9)
    else if 'J' <= c <= 'N' then Some(c as int - 'J' as int + 17)
    else if 'P' <= c <= 'Z' then Some(c as int - 'P' as int + 22)
    else if 'a' <= c <= 'k' then Some(c as int - 'a' as int + 33)
    else if 'm' <= c <= 'z' then Some(c as int - 'm' as int + 44)
    else None
  }

  predicate Spelled(s: string) {
    forall i :: 0 <= i < |s| ==> DigitOf(s[i]).Some?
  }

  function Chars(ds: seq<nat>): (s: string)
    requires ValidDigits(ds, 58)
    ensures |s| == |ds|
  {
    seq(|ds|, i requires 0 <= i < |ds| => CharOf(ds[i]))
  }

  function DigitsOfText(s: string): (ds: seq<nat>)
    requires Spelled(s)
    ensures ValidDigits(ds, 58) && |ds| == |s|
    ensures Chars(ds) == s
  {
    seq(|s|, i requires 0 <= i < |s| => DigitOf(s[i]).value)
  }

  lemma CharRoundTrip(d: nat)
    requires d < 58
    ensures DigitOf(CharOf(d)) == Some(d)
  {
  }

  lemma DigitsOfChars(ds: seq<nat>)
    requires ValidDigits(ds, 58)
    ensures Spelled(Chars(ds)) && DigitsOfText(Chars(ds)) == ds
  {
    hide CharOf, DigitOf;
    forall i | 0 <= i < |ds| ensures DigitOf(Chars(ds)[i]) == Some(ds[i]) {
      CharRoundTrip(ds[i]);
    }
  }

  // ---- radix conversion ----------------------------------------------------

  /** Leading zeros are carried over one for one; the rest is renumbered. */
  function Convert(ds: seq<nat>, source: nat, target: nat): (r: seq<nat>)
    requires source >= 2 && target >= 2
    ensures ValidDigits(r, target)
  {
    Zeros(LeadingZeros(ds)) + Digits(Value(ds, source), target)
  }

  /** Conversion back undoes conversion, for every base pair and any zeros. */
  lemma ConvertBack(ds: seq<nat>, source: nat, target: nat)
    requires source >= 2 && target >= 2 && ValidDigits(ds, source)
    ensures Convert(Convert(ds, source, target), target, source) == ds
  {
    var k, v := LeadingZeros(ds), Value(ds, source);
    LeadingZerosOfPadded(k, Digits(v, target));
    ValueDropsZeros(k, Digits(v, target), target);
    ValueOfDigits(v, target);
    SplitZeros(ds, source);
  }

  lemma ConvertEmpty(ds: seq<nat>, source: nat, target: nat)
    requires source >= 2 && target >= 2 && ValidDigits(ds, source)
    ensures Convert(ds, source, target) == [] <==> ds == []
  {
    if ds != [] && LeadingZeros(ds) == 0 {
      ValuePositive(ds, source);
    }
  }

  function ToBytes(ds: seq<nat>): (b: seq<byte>)
    requires ValidDigits(ds, 256)
    ensures b == ds
  {
    seq(|ds|, i requires 0 <= i < |ds| => ds[i])
  }

  function Encode(b: seq<byte>): string {
    Chars(Convert(b, 256, 58))
  }

  function Decode(s: string): Result<seq<byte>> {
    if s == "" || !Spelled(s) then Err("base58") else Ok(ToBytes(Convert(DigitsOfText(s), 58, 256)))
  }

  /** Encoding loses nothing: every non-empty byte string, with any number of
      leading zero bytes, decodes back to itself. */
  lemma DecodeOfEncode(b: seq<byte>)
    ensures b != [] ==> Decode(Encode(b)) == Ok(b)
    ensures b == [] ==> Encode(b) == "" && Decode("").Err?
  {
    var r := Convert(b, 256, 58);
    DigitsOfChars(r);
    ConvertBack(b, 256, 58);
    ConvertEmpty(b, 256, 58);
  }

  /** Decoding loses nothing: every non-empty string over the alphabet, with any
      number of leading '1's, is the encoding of what it decodes to. */
  lemma EncodeOfDecode(s: string)
    ensures Decode(s).Ok? <==> s != "" && Spelled(s)
    ensures Decode(s).Ok? ==> Decode(s).value != [] && Encode(Decode(s).value) == s
  {
    if s != "" && Spelled(s) {
      ConvertBack(DigitsOfText(s), 58, 256);
      ConvertEmpty(DigitsOfText(s), 58, 256);
    }
  }

  // ---- the source's loops --------------------------------------------------

  /** The division loop. */
  method EncodeNumber(v: nat) returns (s: string)
    ensures s == Chars(Digits(v, 58))
  {
    var n := v;
    s := [];
    while n > 0
      invariant Chars(Digits(v, 58)) == Chars(Digits(n, 58)) + s
    {
      QuotientIsSmaller(n, 58);
      s := [CharOf(n % 58)] + s;
      n := n / 58;
    }
  }

  function Ones(k: nat): string {
    seq(k, _ => '1')
  }

  lemma EncodeSplit(b: seq<byte>)
    ensures Encode(b) == Ones(LeadingZeros(b)) + Chars(Digits(Value(b, 256), 58))
  {
  }

  lemma NoOnes(digits: string)
    ensures Ones(0) + digits == digits
  {
  }

  lemma OneMore(i: nat, digits: string)
    ensures ['1'] + (Ones(i) + digits) == Ones(i + 1) + digits
  {
    assert Ones(i + 1) == ['1'] + Ones(i);
  }

  method PrependOnes(b: seq<byte>, digits: string) returns (s: string)
    ensures s == Ones(LeadingZeros(b)) + digits
  {
    hide Ones;
    NoOnes(digits);
    s := digits;
    var i := 0;
    while i < |b| && b[i] == 0
      invariant i <= LeadingZeros(b)
      invariant s == Ones(i) + digits
    {
      OneMore(i, digits);
      s := ['1'] + s;
      i := i + 1;
    }
  }

  method Base58Encode(b: seq<byte>) returns (s: string)
    ensures s == Encode(b)
  {
    s := EncodeNumber(Value(b, 256));
    s := PrependOnes(b, s);
    EncodeSplit(b);
  }

  /** The multiply-and-add loop. */
  method DecodeNumber(s: string) returns (r: Option<nat>)
    ensures r == if Spelled(s) then Some(Value(DigitsOfText(s), 58)) else None
  {
    hide DigitOf, CharOf;
    var n := 0;
    for i := 0 to |s|
      invariant Spelled(s[..i]) && n == Value(DigitsOfText(s[..i]), 58)
    {
      var d := DigitOf(s[i]);
      if d.None? {
        return None;
      }
      assert DigitsOfText(s[..i + 1])[..i] == DigitsOfText(s[..i]);
      n := n * 58 + d.value;
    }
    assert s[..|s|] == s;
    return Some(n);
  }

  /** One zero byte for each leading '1'. */
  method PrependZeros(s: string, digits: seq<byte>) returns (out: seq<byte>)
    requires Spelled(s)
    ensures out == Zeros(LeadingZeros(DigitsOfText(s))) + digits
  {
    hide Zeros, LeadingZeros, DigitsOfText;
    ghost var ds := DigitsOfText(s);
    NoZeros(digits);
    out := digits;
    var i := 0;
    while i < |s| && s[i] == '1'
      invariant i <= LeadingZeros(ds)
      invariant out == Zeros(i) + digits
    {
      ZeroDigit(s, i);
      OneMoreZero(i, digits);
      out := [0] + out;
      i := i + 1;
    }
    if i < |s| {
      ZeroDigit(s, i);
    }
  }

  lemma NoZeros(digits: seq<byte>)
    ensures Zeros(0) + digits == digits
  {
  }

  lemma OneMoreZero(i: nat, digits: seq<byte>)
    ensures [0] + (Zeros(i) + digits) == Zeros(i + 1) + digits
  {
    assert Zeros(i + 1) == [0] + Zeros(i);
  }

  /** The digit zero is spelled '1'. */
  lemma ZeroDigit(s: string, i: nat)
    requires Spelled(s) && i < |s|
    ensures DigitsOfText(s)[i] == 0 <==> s[i] == '1'
  {
  }

  method Base58Decode(s: string) returns (r: Result<seq<byte>>)
    ensures r == Decode(s)
  {
    if s == "" {
      return Err("base58");
    }
    var n := DecodeNumber(s);
    if n.None? {
      return Err("base58");
    }
    var out := PrependZeros(s, ToBytes(Digits(n.value, 256)));
    r := Ok(out);
  }

  /** Known texts: the most significant digit comes first, zeros lead. */
  lemma KnownTexts()
    ensures Encode([1, 0]) == "5R" && Encode([0, 0, 1]) == "112"
  {
    hide Encode;
    TwoDigits();
    ZerosLead();
  }

  lemma TwoDigits()
    ensures Encode([1, 0]) == "5R"
  {
    var b: seq<byte> := [1, 0];
    assert b[..1] == [1] && [1][..0] == [] && Value(b, 256) == 256;
    assert Digits(4, 58) == [4] && Digits(256, 58) == [4, 24];
    hide Value, Digits;
    EncodeSplit(b);
  }

  lemma ZerosLead()
    ensures Encode([0, 0, 1]) == "112"
  {
    var z: seq<byte> := [0, 0, 1];
    OneAfterZeros();
    assert Digits(1, 58) == [1];
    hide Value, Digits, LeadingZeros;
    EncodeSplit(z);
  }

  lemma OneAfterZeros()
    ensures var z: seq<byte> := [0, 0, 1]; Value(z, 256) == 1 && LeadingZeros(z) == 2
  {
    var z: seq<byte> := [0, 0, 1];
    assert z[..2] == [0, 0] && [0, 0][..1] == [0] && [0][..0] == [];
    assert z[1..] == [0, 1] && [0, 1][1..] == [1];
  }
}

/** EncodeMultibase and DecodeMultibase: 'z', base58btc, multicodec prefix. */
module Multibase {
  import opened Prelude
  import Base58

  datatype Point = Point(x: nat, y: nat)

  /** The public keys the two functions dispatch on. */
  datatype PublicKey = Ed25519(bytes: seq<byte>) | Ecdsa(point: Point) | Other

  /** Compressed SEC 1 points of P-256, as crypto/elliptic encodes them. */
  datatype Curve = Curve(
    onCurve: Point -> bool, compress: Point -> seq<byte>, decompress: seq<byte> -> Option<Point>)

  ghost predicate Lawful(c: Curve) {
    && (forall p :: c.onCurve(p) ==> |c.compress(p)| == 33 && c.decompress(c.compress(p)) == Some(p))
    && (forall b :: |b| == 33 && c.decompress(b).Some? ==>
          c.onCurve(c.decompress(b).value) && c.compress(c.decompress(b).value) == b)
  }

  const ED25519_PREFIX: seq<byte> := [0xed, 0x01]
  const P256_PREFIX: seq<byte> := [0x80, 0x24]

  /** The multicodec payload of a key. */
  function Payload(c: Curve, key: PublicKey): Result<seq<byte>> {
    match key
    case Ed25519(bytes) => Ok(ED25519_PREFIX + bytes)
    case Ecdsa(p) => if c.onCurve(p) then Ok(P256_PREFIX + c.compress(p)) else Err("jwk")
    case Other => Err("jwk")
  }

  function EncodeMultibase(c: Curve, key: PublicKey): Result<string> {
    match Payload(c, key)
    case Err(e) => Err(e)
    case Ok(raw) => Ok("z" + Base58.Encode(raw))
  }

  function KeyOf(c: Curve, raw: seq<byte>): Result<PublicKey> {
    if |raw| <= 2 then Err("jwk")
    else if raw[..2] == ED25519_PREFIX then
      if |raw| == 34 then Ok(Ed25519(raw[2..])) else Err("jwk")
    else if raw[..2] == P256_PREFIX then
      if |raw| != 35 || c.decompress(raw[2..]).None? then Err("jwk")
      else Ok(Ecdsa(c.decompress(raw[2..]).value))
    else Err("jwk")
  }

  function DecodeMultibase(c: Curve, s: string): Result<PublicKey> {
    if s == "" || s[0] != 'z' then Err("jwk") else
      match Base58.Decode(s[1..])
      case Err(e) => Err(e)
      case Ok(raw) => KeyOf(c, raw)
  }

  lemma PayloadRoundTrip(c: Curve, key: PublicKey)
    requires Lawful(c) && Payload(c, key).Ok?
    ensures Payload(c, key).value != []
    ensures KeyOf(c, Payload(c, key).value) == Ok(key) <==> (key.Ed25519? ==> |key.bytes| == 32)
  {
    var raw := Payload(c, key).value;
    if key.Ed25519? {
      assert raw[..2] == ED25519_PREFIX && raw[2..] == key.bytes;
    } else {
      assert raw[..2] == P256_PREFIX && raw[2..] == c.compress(key.point);
      assert P256_PREFIX[0] != ED25519_PREFIX[0];
    }
  }

  /** What is encoded decodes to the same key, except that the encoder accepts
      Ed25519 keys of any length and the decoder only those of 32 bytes. */
  lemma MultibaseRoundTrip(c: Curve, key: PublicKey)
    requires Lawful(c) && EncodeMultibase(c, key).Ok?
    ensures DecodeMultibase(c, EncodeMultibase(c, key).value) == Ok(key)
            <==> (key.Ed25519? ==> |key.bytes| == 32)
  {
    var raw := Payload(c, key).value;
    PayloadRoundTrip(c, key);
    Base58.DecodeOfEncode(raw);
    assert ("z" + Base58.Encode(raw))[1..] == Base58.Encode(raw);
  }

  /** Each key has one multibase form: any string that decodes to it is its encoding. */
  lemma MultibaseCanonical(c: Curve, s: string)
    requires Lawful(c) && DecodeMultibase(c, s).Ok?
    ensures EncodeMultibase(c, DecodeMultibase(c, s).value) == Ok(s)
  {
    Base58.EncodeOfDecode(s[1..]);
    PayloadOfKey(c, Base58.Decode(s[1..]).value);
    assert s == "z" + s[1..];
  }

  lemma PayloadOfKey(c: Curve, raw: seq<byte>)
    requires Lawful(c) && KeyOf(c, raw).Ok?
    ensures Payload(c, KeyOf(c, raw).value) == Ok(raw)
  {
    assert raw == raw[..2] + raw[2..];
  }

  /** Which texts are keys, and of which bytes: 'z' and the base58 of a two-byte code
      and the key, 32 bytes for Ed25519 and a 33-byte compressed point for P-256. */
  lemma MultibaseExactly(c: Curve, s: string, key: PublicKey)
    ensures DecodeMultibase(c, s) == Ok(key) <==>
              exists b: seq<byte> ::
                || (key == Ed25519(b) && |b| == 32 && s == "z" + Base58.Encode([0xed, 0x01] + b))
                || (|b| == 33 && c.decompress(b).Some? && key == Ecdsa(c.decompress(b).value) &&
                    s == "z" + Base58.Encode([0x80, 0x24] + b))
  {
    hide Base58.Encode, Base58.Decode;
    if DecodeMultibase(c, s) == Ok(key) {
      var raw := Base58.Decode(s[1..]).value;
      Base58.EncodeOfDecode(s[1..]);
      var b := raw[2..];
      assert raw == raw[..2] + b && s == "z" + s[1..];
      if key.Ed25519? {
        assert key == Ed25519(b) && |b| == 32 && s == "z" + Base58.Encode([0xed, 0x01] + b);
      } else {
        assert |b| == 33 && c.decompress(b).Some? && key == Ecdsa(c.decompress(b).value);
        assert s == "z" + Base58.Encode([0x80, 0x24] + b);
      }
    }
    forall b: seq<byte>
      ensures key == Ed25519(b) && |b| == 32 && s == "z" + Base58.Encode([0xed, 0x01] + b) ==>
                DecodeMultibase(c, s) == Ok(key)
      ensures |b| == 33 && c.decompress(b).Some? && s == "z" + Base58.Encode([0x80, 0x24] + b) ==>
                DecodeMultibase(c, s) == Ok(Ecdsa(c.decompress(b).value))
    {
      CodedBytesDecode(c, [0xed, 0x01], b);
      CodedBytesDecode(c, [0x80, 0x24], b);
    }
  }

  lemma CodedBytesDecode(c: Curve, code: seq<byte>, b: seq<byte>)
    requires |code| == 2
    ensures DecodeMultibase(c, "z" + Base58.Encode(code + b)) == KeyOf(c, code + b)
    ensures (code + b)[..2] == code && (code + b)[2..] == b
  {
    hide Base58.Encode, Base58.Decode;
    Base58.DecodeOfEncode(code + b);
    assert ("z" + Base58.Encode(code + b))[1..] == Base58.Encode(code + b);
  }
}
