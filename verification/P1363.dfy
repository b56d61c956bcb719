/** ECDSA signature wire formats: ASN.1 DER and the fixed-width r || s of
    section 3.4 of RFC 7518. */
module P1363 {
  import opened Prelude
  import opened Radix

  datatype Scalars = Scalars(r: int, s: int)

  /** encoding/asn1 for the two-integer signature structure: `parse` yields the
      scalars and the bytes left over. */
  datatype Asn1 = Asn1(parse: seq<byte> -> Option<(Scalars, seq<byte>)>, marshal: Scalars -> seq<byte>)

  ghost predicate Lawful(a: Asn1) {
    forall sc: Scalars :: a.parse(a.marshal(sc)) == Some((sc, []))
  }

  /** n in exactly `width` bytes, zeros in front. */
  function FixedWidth(n: nat, width: nat): (b: seq<byte>)
    requires |Digits(n, 256)| <= width
    ensures |b| == width
  {
    var ds := Digits(n, 256);
    seq(width, i requires 0 <= i < width => if i < width - |ds| then 0 else ds[i - (width - |ds|)])
  }

  predicate Fits(sc: Scalars, width: nat) {
    sc.r > 0 && sc.s > 0 && |Digits(sc.r, 256)| <= width && |Digits(sc.s, 256)| <= width
  }

  function DerToP1363(a: Asn1, der: seq<byte>, coordBytes: int): Result<seq<byte>> {
    if coordBytes <= 0 then Err("coordBytes")
    else match a.parse(der)
      case None => Err("unmarshal")
      case Some((sc, rest)) =>
        if rest != [] then Err("trailing bytes")
        else if !Fits(sc, coordBytes) then Err("invalid scalars")
        else Ok(FixedWidth(sc.r, coordBytes) + FixedWidth(sc.s, coordBytes))
  }

  function P1363ToScalars(sig: seq<byte>): Result<Scalars> {
    if sig == [] || |sig| % 2 != 0 then Err("length")
    else
      var half := |sig| / 2;
      var r, s := Value(sig[..half], 256), Value(sig[half..], 256);
      if r == 0 || s == 0 then Err("invalid scalars") else Ok(Scalars(r, s))
  }

  function P1363ToDer(a: Asn1, sig: seq<byte>): Result<seq<byte>> {
    match P1363ToScalars(sig)
    case Err(e) => Err(e)
    case Ok(sc) => Ok(a.marshal(sc))
  }

  // ---- the source's buffer code --------------------------------------------

  /** Go's copy of a scalar's bytes into the right end of out[lo..hi]. */
  method CopyRight(out: array<byte>, lo: nat, hi: nat, ds: seq<nat>)
    requires lo + |ds| <= hi <= out.Length && ValidDigits(ds, 256)
    modifies out
    ensures forall i :: 0 <= i < out.Length ==>
              out[i] == if hi - |ds| <= i < hi then ds[i - (hi - |ds|)] else old(out[i])
  {
    for k := 0 to |ds|
      invariant forall i :: 0 <= i < out.Length ==>
        out[i] == if hi - |ds| <= i < hi - |ds| + k then ds[i - (hi - |ds|)] else old(out[i])
    {
      out[hi - |ds| + k] := ds[k];
    }
  }

  method DerToP1363InPlace(a: Asn1, der: seq<byte>, coordBytes: int) returns (r: Result<seq<byte>>)
    ensures r == DerToP1363(a, der, coordBytes)
  {
    if coordBytes <= 0 {
      return Err("coordBytes");
    }
    var parsed := a.parse(der);
    if parsed.None? {
      return Err("unmarshal");
    }
    var sc, rest := parsed.value.0, parsed.value.1;
    if rest != [] {
      return Err("trailing bytes");
    }
    if !Fits(sc, coordBytes) {
      return Err("invalid scalars");
    }
    hide Digits;
    var n := 2 * coordBytes;
    var out := new byte[n](_ => 0);
    CopyRight(out, 0, coordBytes, Digits(sc.r, 256));
    CopyRight(out, coordBytes, n, Digits(sc.s, 256));
    assert out[..] == FixedWidth(sc.r, coordBytes) + FixedWidth(sc.s, coordBytes);
    r := Ok(out[..]);
  }

  // ---- round trips ---------------------------------------------------------

  lemma FixedWidthValue(n: nat, width: nat)
    requires |Digits(n, 256)| <= width
    ensures Value(FixedWidth(n, width), 256) == n
  {
    var ds := Digits(n, 256);
    assert FixedWidth(n, width) == Zeros(width - |ds|) + ds;
    ValueDropsZeros(width - |ds|, ds, 256);
    ValueOfDigits(n, 256);
  }

  /** Any byte string is the fixed-width form of its own value. */
  lemma FixedWidthOfValue(b: seq<byte>)
    ensures |Digits(Value(b, 256), 256)| <= |b|
    ensures FixedWidth(Value(b, 256), |b|) == b
  {
    hide Digits, Value, FixedWidth, LeadingZeros;
    SplitZeros(b, 256);
    FixedWidthPadded(LeadingZeros(b), Value(b, 256));
  }

  lemma FixedWidthPadded(k: nat, n: nat)
    ensures FixedWidth(n, k + |Digits(n, 256)|) == Zeros(k) + Digits(n, 256)
  {
  }

  /** The converter accepts exactly the DER signatures whose scalars lie strictly
      between zero and 256^coordBytes, and its output gives both scalars back. */
  lemma DerScalarsSurvive(a: Asn1, der: seq<byte>, coordBytes: int)
    ensures DerToP1363(a, der, coordBytes).Ok? <==>
              coordBytes > 0 && a.parse(der).Some? && a.parse(der).value.1 == [] &&
              var sc := a.parse(der).value.0;
              0 < sc.r < Power(256, coordBytes) && 0 < sc.s < Power(256, coordBytes)
    ensures DerToP1363(a, der, coordBytes).Ok? ==>
              && |DerToP1363(a, der, coordBytes).value| == 2 * coordBytes
              && P1363ToScalars(DerToP1363(a, der, coordBytes).value) == Ok(a.parse(der).value.0)
  {
    hide Digits, FixedWidth, P1363ToScalars, Power;
    if coordBytes > 0 && a.parse(der).Some? {
      var sc := a.parse(der).value.0;
      if sc.r > 0 && sc.s > 0 {
        DigitCount(sc.r, 256, coordBytes);
        DigitCount(sc.s, 256, coordBytes);
      }
      if Fits(sc, coordBytes) {
        HalvesRead(sc, coordBytes);
      }
    }
  }

  lemma HalvesRead(sc: Scalars, width: nat)
    requires width > 0 && Fits(sc, width)
    ensures P1363ToScalars(FixedWidth(sc.r, width) + FixedWidth(sc.s, width)) == Ok(sc)
  {
    hide Digits, FixedWidth, Value;
    var x, y := FixedWidth(sc.r, width), FixedWidth(sc.s, width);
    assert |x + y| == 2 * width && |x + y| / 2 == width;
    assert (x + y)[..width] == x && (x + y)[width..] == y;
    FixedWidthValue(sc.r, width);
    FixedWidthValue(sc.s, width);
  }

  /** Converting a fixed-width signature to DER and back gives the same bytes. */
  lemma P1363Survives(a: Asn1, sig: seq<byte>)
    requires Lawful(a) && P1363ToDer(a, sig).Ok?
    ensures DerToP1363(a, P1363ToDer(a, sig).value, |sig| / 2) == Ok(sig)
  {
    var half := |sig| / 2;
    var sc := P1363ToScalars(sig).value;
    assert a.parse(a.marshal(sc)) == Some((sc, []));
    FixedWidthOfValue(sig[..half]);
    FixedWidthOfValue(sig[half..]);
    assert sig == sig[..half] + sig[half..];
  }
}
