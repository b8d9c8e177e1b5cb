/** The pure helpers of weathered-base-bad8/src/auth/jwt.ts: big-endian
    integers over bytes, the re-encoding of a raw ES256 signature `R || S`
    (section 3.4 of RFC 7518) as a DER `Ecdsa-Sig-Value` (section 2.2.3 of
    RFC 3279; ITU-T X.690 sections 8.3 and 8.9), and the claim checks that
    bind a device-signed token to its key. */
module Jwt {
  import opened Wrappers

  type byte = x: int | 0 <= x < 256

  function Pow256(n: nat): (p: nat)
    ensures p > 0
  {
    if n == 0 then 1 else 256 * Pow256(n - 1)
  }

  // ---------------------------------------------------------------------
  // bytesToBigInt / bigIntToMinimalUnsignedBytes
  // ---------------------------------------------------------------------

  /** `bytesToBigInt`: the big-endian unsigned value. Each step shifts the
      value left by eight bits and ORs in the next byte; the shifted value
      has its low eight bits clear, so the OR is an addition. */
  function BytesToBigInt(bytes: seq<byte>): (v: nat)
    ensures v < Pow256(|bytes|)
  {
    if |bytes| == 0 then 0
    else BytesToBigInt(bytes[..|bytes| - 1]) * 256 + bytes[|bytes| - 1]
  }

  /** The base-256 digits of `v`, most significant first, with no leading
      zero: the collected low bytes of the loop in `bigIntToMinimalUnsignedBytes`,
      reversed. */
  function Digits(v: nat): (d: seq<byte>)
    ensures v == 0 <==> |d| == 0
    ensures v > 0 ==> d[0] != 0
    ensures BytesToBigInt(d) == v
    decreases v
  {
    if v == 0 then []
    else
      var d := Digits(v / 256) + [v % 256];
      assert d[..|d| - 1] == Digits(v / 256);
      d
  }

  /** `bigIntToMinimalUnsignedBytes`. A zero is the single byte 0; a
      negative value leaves the loop at once and yields no bytes. */
  function MinimalUnsigned(value: int): (r: seq<byte>)
    ensures value == 0 ==> r == [0]
    ensures value < 0 ==> r == []
    ensures value >= 0 ==> 0 < |r| && BytesToBigInt(r) == value
  {
    if value == 0 then [0]
    else if value < 0 then []
    else
      var d := Digits(value);
      if d[0] >= 0x80 then
        LeadingZero(d);
        [0] + d
      else d
  }

  /** A leading zero byte does not change the value. */
  lemma {:induction false} LeadingZero(d: seq<byte>)
    ensures BytesToBigInt([0] + d) == BytesToBigInt(d)
  {
    if |d| > 0 {
      var init := d[..|d| - 1];
      assert ([0] + d)[..|d|] == [0] + init;
      LeadingZero(init);
    }
  }

  /** The encoding is a minimal two's-complement INTEGER of a non-negative
      value (section 8.3.2 of ITU-T X.690): the sign bit of the first byte
      is clear, and a leading zero byte appears only in front of a byte
      whose high bit is set. */
  lemma MinimalUnsignedIsMinimal(value: nat)
    ensures var r := MinimalUnsigned(value);
            && r[0] < 0x80
            && (r[0] == 0 && |r| > 1 ==> r[1] >= 0x80)
            && (r[0] == 0 ==> value == 0 || |r| > 1)
  {
  }

  /** At most `n` digits for a value below 256^n. */
  lemma {:induction false} DigitsLength(v: nat, n: nat)
    requires v < Pow256(n)
    ensures |Digits(v)| <= n
    decreases n
  {
    if v > 0 {
      assert n > 0;
      DigitsLength(v / 256, n - 1);
    }
  }

  /** The encoding of a value below 256^n takes at most n + 1 bytes. */
  lemma MinimalUnsignedLength(v: nat, n: nat)
    requires v < Pow256(n)
    ensures 1 <= |MinimalUnsigned(v)| <= n + 1
  {
    DigitsLength(v, n);
  }

  // ---------------------------------------------------------------------
  // rawEcdsaSigToDer
  // ---------------------------------------------------------------------

  datatype SigError = InvalidLength(length: nat) | SequenceTooLong

  /** A DER INTEGER: tag 0x02, a one-byte length (the typed-array store
      keeps the low eight bits), the body. */
  function DerInteger(body: seq<byte>): (part: seq<byte>)
    ensures |part| == |body| + 2 && part[0] == 0x02 && part[2..] == body
    ensures |body| < 256 ==> part[1] == |body|
  {
    [0x02, |body| % 256] + body
  }

  /** `rawEcdsaSigToDer`. A signature that is not 64 bytes long is passed
      through when it already starts like a DER SEQUENCE and rejected
      otherwise. */
  function RawEcdsaSigToDer(rawSig: seq<byte>): (r: Result<seq<byte>, SigError>)
    ensures |rawSig| != 64 ==>
              && (r.Success? <==> |rawSig| > 0 && rawSig[0] == 0x30)
              && (r.Success? ==> r.value == rawSig)
              && (r.Failure? ==> r.error == InvalidLength(|rawSig|))
  {
    if |rawSig| != 64 then
      if |rawSig| > 0 && rawSig[0] == 0x30 then Success(rawSig)
      else Failure(InvalidLength(|rawSig|))
    else
      var rInt := MinimalUnsigned(BytesToBigInt(rawSig[..32]));
      var sInt := MinimalUnsigned(BytesToBigInt(rawSig[32..]));
      var seqLen := |DerInteger(rInt)| + |DerInteger(sInt)|;
      if seqLen > 0xff then Failure(SequenceTooLong)
      else Success(SigValue(rInt, sInt))
  }

  /** The DER `Ecdsa-Sig-Value`: a SEQUENCE with a one-byte length holding
      the two INTEGERs. */
  function SigValue(rInt: seq<byte>, sInt: seq<byte>): (der: seq<byte>)
    requires |rInt| + |sInt| + 4 <= 0xff
    ensures |der| == |rInt| + |sInt| + 6 && der[0] == 0x30 && der[1] == |der| - 2
  {
    var header: seq<byte> := [0x30, |rInt| + |sInt| + 4];
    header + DerInteger(rInt) + DerInteger(sInt)
  }

  /** A minimal INTEGER body of a non-negative value (section 8.3.2 of
      ITU-T X.690). */
  predicate MinimalPositiveBody(body: seq<byte>) {
    && |body| > 0
    && body[0] < 0x80
    && (|body| > 1 && body[0] == 0 ==> body[1] >= 0x80)
  }

  /** A reader for the DER `Ecdsa-Sig-Value` the conversion produces: a
      SEQUENCE with a short-form length holding exactly two INTEGERs, each
      minimal and non-negative; it answers the two values. */
  function ParseEcdsaSigValue(der: seq<byte>): (r: Option<(nat, nat)>)
    ensures r.Some? ==> |der| >= 8 && der[0] == 0x30 && der[1] == |der| - 2 < 0x80
  {
    if |der| < 8 || der[0] != 0x30 || der[1] != |der| - 2 || der[1] >= 0x80 || der[2] != 0x02 then None
    else
      var rLen := der[3];
      if 6 + rLen > |der| || der[4 + rLen] != 0x02 then None
      else
        var sLen := der[5 + rLen];
        if 6 + rLen + sLen != |der| then None
        else
          var rBody := der[4..4 + rLen];
          var sBody := der[6 + rLen..];
          if !MinimalPositiveBody(rBody) || !MinimalPositiveBody(sBody) then None
          else Some((BytesToBigInt(rBody), BytesToBigInt(sBody)))
  }

  /** Reading back a SEQUENCE of two minimal INTEGERs gives their values. */
  lemma ParseEncoded(rInt: seq<byte>, sInt: seq<byte>)
    requires MinimalPositiveBody(rInt) && MinimalPositiveBody(sInt)
    requires |rInt| + |sInt| + 4 < 0x80
    ensures ParseEcdsaSigValue(SigValue(rInt, sInt)) == Some((BytesToBigInt(rInt), BytesToBigInt(sInt)))
  {
    var rPart := DerInteger(rInt);
    var sPart := DerInteger(sInt);
    var header: seq<byte> := [0x30, |rInt| + |sInt| + 4];
    var der := SigValue(rInt, sInt);
    assert der == header + rPart + sPart;
    var head := header + rPart;
    assert der == head + sPart;
    var rLen := |rInt|;
    assert |head| == 4 + rLen;
    assert head[2..] == rPart;
    assert der[..4 + rLen] == head;
    assert der[4 + rLen..] == sPart;
    assert der[3] == rPart[1] == rLen;
    assert der[4..4 + rLen] == head[4..] == rInt;
    assert der[4 + rLen] == 0x02 && der[5 + rLen] == sPart[1] == |sInt|;
    assert der[6 + rLen..] == sPart[2..] == sInt;
  }

  /** For a 64-byte signature the conversion always succeeds, the
      SEQUENCE is at most 70 bytes long (so the length fits the DER short
      form and the guard against overlong sequences never fires), and
      reading it back gives the two halves as integers. */
  lemma RawEcdsaSigToDerRoundTrip(rawSig: seq<byte>)
    requires |rawSig| == 64
    ensures var r := RawEcdsaSigToDer(rawSig);
            && r.Success?
            && 8 <= |r.value| <= 72
            && r.value[1] == |r.value| - 2 <= 70
            && ParseEcdsaSigValue(r.value) == Some((BytesToBigInt(rawSig[..32]), BytesToBigInt(rawSig[32..])))
  {
    var rInt := MinimalHalf(rawSig[..32]);
    var sInt := MinimalHalf(rawSig[32..]);
    ParseEncoded(rInt, sInt);
    assert RawEcdsaSigToDer(rawSig) == Success(SigValue(rInt, sInt));
  }

  /** One 32-byte half of a raw signature encodes to a minimal INTEGER
      body of at most 33 bytes. */
  lemma MinimalHalf(half: seq<byte>) returns (body: seq<byte>)
    requires |half| == 32
    ensures body == MinimalUnsigned(BytesToBigInt(half))
    ensures MinimalPositiveBody(body) && |body| <= 33
  {
    var v := BytesToBigInt(half);
    MinimalUnsignedLength(v, |half|);
    MinimalUnsignedIsMinimal(v);
    body := MinimalUnsigned(v);
  }

  // ---------------------------------------------------------------------
  // validateJwtClaimsAndKeyBinding / getJwtSubject
  // ---------------------------------------------------------------------

  /** The decoded header and payload fields the checks read. A field that
      is absent or of the wrong JSON type is `None`; a number that is not
      finite is `None` too. */
  datatype JwtClaims = JwtClaims(kid: Option<string>, sub: Option<string>, iat: Option<int>, exp: Option<int>)

  datatype ClaimError =
    | MissingKid | MissingSub | KidMismatch | SubMismatch
    | InvalidIat | InvalidExp | IssuedInFuture | Expired | LifetimeTooLong

  /** Five minutes of tolerated clock difference, in seconds. */
  const ClockSkewSeconds: int := 5 * 60
  /** Thirty days, in seconds. */
  const MaxLifetimeSeconds: int := 30 * 24 * 60 * 60

  predicate NonEmpty(s: Option<string>) {
    s.Some? && |s.value| > 0
  }

  /** The claims a token must satisfy, stated all at once: key id and
      subject both present and equal to the key's thumbprint, issued no
      later than the skew allows, not expired beyond the skew, and living
      no longer than thirty days. */
  predicate Acceptable(c: JwtClaims, thumbprint: string, nowSeconds: int) {
    && NonEmpty(c.kid) && NonEmpty(c.sub)
    && c.kid.value == thumbprint && c.sub.value == thumbprint
    && c.iat.Some? && c.exp.Some?
    && c.iat.value <= nowSeconds + ClockSkewSeconds
    && c.exp.value >= nowSeconds - ClockSkewSeconds
    && c.exp.value - c.iat.value <= MaxLifetimeSeconds
  }

  /** The checks of `validateJwtClaimsAndKeyBinding`, in the order it
      makes them; the first failing one names the error. */
  function ValidateClaims(c: JwtClaims, thumbprint: string, nowSeconds: int): (r: Outcome<ClaimError>)
    ensures r.Pass? <==> Acceptable(c, thumbprint, nowSeconds)
    ensures r == Fail(MissingKid) <==> !NonEmpty(c.kid)
    ensures r == Fail(MissingSub) <==> NonEmpty(c.kid) && !NonEmpty(c.sub)
    ensures r == Fail(IssuedInFuture) ==> c.iat.Some? && c.iat.value > nowSeconds + ClockSkewSeconds
    ensures r == Fail(Expired) ==> c.exp.Some? && nowSeconds - ClockSkewSeconds > c.exp.value
    ensures r == Fail(LifetimeTooLong) ==>
              c.iat.Some? && c.exp.Some? && c.exp.value - c.iat.value > MaxLifetimeSeconds
  {
    if !NonEmpty(c.kid) then Fail(MissingKid)
    else if !NonEmpty(c.sub) then Fail(MissingSub)
    else if c.kid.value != thumbprint then Fail(KidMismatch)
    else if c.sub.value != thumbprint then Fail(SubMismatch)
    else if c.iat.None? then Fail(InvalidIat)
    else if c.exp.None? then Fail(InvalidExp)
    else if c.iat.value > nowSeconds + ClockSkewSeconds then Fail(IssuedInFuture)
    else if nowSeconds - ClockSkewSeconds > c.exp.value then Fail(Expired)
    else if c.exp.value - c.iat.value > MaxLifetimeSeconds then Fail(LifetimeTooLong)
    else Pass
  }

  /** An accepted token was issued at most thirty days and five minutes
      ago, and expires at most thirty days and five minutes from now. */
  lemma AcceptedWindow(c: JwtClaims, thumbprint: string, nowSeconds: int)
    requires ValidateClaims(c, thumbprint, nowSeconds).Pass?
    ensures nowSeconds - ClockSkewSeconds - MaxLifetimeSeconds <= c.iat.value <= nowSeconds + ClockSkewSeconds
    ensures nowSeconds - ClockSkewSeconds <= c.exp.value <= nowSeconds + ClockSkewSeconds + MaxLifetimeSeconds
  {
  }

  /** `getJwtSubject`: the subject, when it is a non-empty string. */
  function GetJwtSubject(sub: Option<string>): (r: Result<string, ClaimError>)
    ensures r.Success? <==> NonEmpty(sub)
    ensures r.Success? ==> r.value == sub.value
    ensures r.Failure? ==> r.error == MissingSub
  {
    if NonEmpty(sub) then Success(sub.value) else Failure(MissingSub)
  }

  /** The subject of a token that passed the checks is the key's
      thumbprint. */
  lemma AcceptedSubjectIsThumbprint(c: JwtClaims, thumbprint: string, nowSeconds: int)
    requires ValidateClaims(c, thumbprint, nowSeconds).Pass?
    ensures GetJwtSubject(c.sub) == Success(thumbprint)
  {
  }
}
