/**
 Label padding and the label envelope of `scripts/labels_reference.py`.
 */
module LabelPadding {
  import opened Outcomes
  import opened Sorting
  import opened Utf8

  const LABEL_VERSION: nat := 1
  const BUCKETS: seq<nat> := [32, 64, 128, 256]
  const MAX_LABEL_BYTES: nat := 255

  datatype Error =
    | NotEncodable
    | TooLong
    | NotABucket
    | MalformedPadding
    | NonMinimalBucket
    | NotUtf8
    | EnvelopeTooShort
    | UnsupportedVersion
    | OutOfRange

  const MARK: Byte := 0x80

  /** The first bucket with room for n bytes. */
  function FirstBucket(n: nat, buckets: seq<nat>): Option<nat> {
    if buckets == [] then None
    else if n <= buckets[0] then Some(buckets[0])
    else FirstBucket(n, buckets[1..])
  }

  function Zeros(n: nat): Bytes {
    seq(n, _ => 0)
  }

  function Pad(text: Text): Result<Bytes, Error> {
    var raw := Encode(text);
    if raw.None? then Err(NotEncodable)
    else if |raw.value| > MAX_LABEL_BYTES then Err(TooLong)
    else
      var bucket := FirstBucket(|raw.value| + 1, BUCKETS);
      if bucket.None? || bucket.value < |raw.value| + 1 then Err(TooLong)
      else Ok(raw.value + [MARK] + Zeros(bucket.value - |raw.value| - 1))
  }

  /** `rstrip(b"\x00")`. */
  function StripZeros(s: Bytes): (r: Bytes)
    ensures |r| <= |s| && r == s[..|r|]
  {
    if s != [] && s[|s| - 1] == 0 then StripZeros(s[..|s| - 1]) else s
  }

  function Unpad(padded: Bytes): Result<Text, Error> {
    if |padded| !in BUCKETS then Err(NotABucket)
    else
      var stripped := StripZeros(padded);
      if stripped == [] || stripped[|stripped| - 1] != MARK then Err(MalformedPadding)
      else
        var body := stripped[..|stripped| - 1];
        if Some(|padded|) != FirstBucket(|body| + 1, BUCKETS) then Err(NonMinimalBucket)
        else
          var text := Decode(body);
          if text.None? then Err(NotUtf8) else Ok(text.value)
  }

  /** The bucket found is the least one with room. */
  lemma {:induction false} FirstBucketIsLeast(n: nat, buckets: seq<nat>)
    requires forall i, j :: 0 <= i < j < |buckets| ==> buckets[i] < buckets[j]
    ensures FirstBucket(n, buckets).None? ==> forall b :: b in buckets ==> b < n
    ensures FirstBucket(n, buckets).Some? ==>
              && FirstBucket(n, buckets).value in buckets && n <= FirstBucket(n, buckets).value
              && forall b :: b in buckets && n <= b ==> FirstBucket(n, buckets).value <= b
    decreases |buckets|
  {
    if buckets != [] && n > buckets[0] {
      FirstBucketIsLeast(n, buckets[1..]);
      assert buckets == [buckets[0]] + buckets[1..];
    } else if buckets != [] {
      forall b | b in buckets ensures buckets[0] <= b {
        var i :| 0 <= i < |buckets| && buckets[i] == b;
      }
    }
  }

  lemma BucketFor(n: nat)
    ensures FirstBucket(n, BUCKETS).Some? <==> n <= 256
    ensures n <= 256 ==>
              && FirstBucket(n, BUCKETS).value in BUCKETS && n <= FirstBucket(n, BUCKETS).value
              && forall b :: b in BUCKETS && n <= b ==> FirstBucket(n, BUCKETS).value <= b
  {
    FirstBucketIsLeast(n, BUCKETS);
    assert BUCKETS[3] == 256 && BUCKETS[3] in BUCKETS;
    assert forall b :: b in BUCKETS ==> b <= 256;
  }

  lemma {:induction false} StripAddedZeros(s: Bytes, n: nat)
    requires s != [] && s[|s| - 1] != 0
    ensures StripZeros(s + Zeros(n)) == s
    decreases n
  {
    var p := s + Zeros(n);
    if n > 0 {
      StripAddedZeros(s, n - 1);
      assert p[..|p| - 1] == s + Zeros(n - 1);
    } else {
      assert p == s;
    }
  }

  lemma {:induction false} StrippedWereZeros(s: Bytes)
    ensures s == StripZeros(s) + Zeros(|s| - |StripZeros(s)|)
    decreases |s|
  {
    if s != [] && s[|s| - 1] == 0 {
      var init := s[..|s| - 1];
      StrippedWereZeros(init);
      var k := |init| - |StripZeros(init)|;
      assert s == init + [0] && Zeros(k + 1) == Zeros(k) + [0];
    }
  }

  /** Exactly the labels of at most 255 UTF-8 bytes can be padded. */
  lemma PadAccepts(text: Text)
    ensures Pad(text).Ok? <==> AllScalars(text) && Encode(text).Some? && |Encode(text).value| <= MAX_LABEL_BYTES
    ensures Pad(text).Ok? ==>
              && |Pad(text).value| in BUCKETS
              && |Encode(text).value| < |Pad(text).value|
              && forall b :: b in BUCKETS && |Encode(text).value| < b ==> |Pad(text).value| <= b
  {
    EncodesIffScalars(text);
    if Encode(text).Some? {
      BucketFor(|Encode(text).value| + 1);
    }
  }

  /** A padded label: its bytes, 0x80, and zeros up to 32, 64, 128 or 256 bytes. */
  lemma PaddedLayout(text: Text)
    requires Pad(text).Ok?
    ensures Encode(text).Some?
    ensures var p, n := Pad(text).value, |Encode(text).value|;
            && |p| in {32, 64, 128, 256} && n < |p|
            && p[..n] == Encode(text).value && p[n] == 0x80 && forall i :: n < i < |p| ==> p[i] == 0
  {
    hide Encode, FirstBucket;
    BucketFor(|Encode(text).value| + 1);
  }

  /** Padding loses nothing, labels that end in NUL included. */
  lemma UnpadUndoesPad(text: Text)
    requires Pad(text).Ok?
    ensures Unpad(Pad(text).value) == Ok(text)
  {
    hide Encode, Decode, StripZeros, FirstBucket, Zeros, Pad;
    PadAccepts(text);
    var raw, p := Encode(text).value, Pad(text).value;
    PaddedForm(text);
    StripAddedZeros(raw + [MARK], |p| - |raw| - 1);
    assert (raw + [MARK])[..|raw|] == raw;
    DecodeUndoesEncode(text);
  }

  lemma PaddedForm(text: Text)
    requires Pad(text).Ok?
    ensures Encode(text).Some? && |Encode(text).value| < |Pad(text).value|
    ensures Pad(text).value == Encode(text).value + [MARK] + Zeros(|Pad(text).value| - |Encode(text).value| - 1)
    ensures FirstBucket(|Encode(text).value| + 1, BUCKETS) == Some(|Pad(text).value|)
  {
    hide Encode, FirstBucket;
  }

  /** Every byte string that unpads is the one padded form of its label. */
  lemma PadUndoesUnpad(padded: Bytes)
    requires Unpad(padded).Ok?
    ensures Pad(Unpad(padded).value) == Ok(padded)
  {
    hide Encode, Decode, StripZeros, FirstBucket, Zeros;
    var stripped := StripZeros(padded);
    var body := stripped[..|stripped| - 1];
    StrippedWereZeros(padded);
    EncodeUndoesDecode(body);
    BucketFor(|body| + 1);
    assert stripped == body + [MARK];
  }

  /** The byte 0x80 at n and nothing but zeros behind it. */
  predicate IsMarkedAt(padded: Bytes, n: nat) {
    n < |padded| && padded[n] == 0x80 && forall i :: n < i < |padded| ==> padded[i] == 0
  }

  lemma {:induction false} MarkIsLastNonZero(padded: Bytes, n: nat)
    ensures IsMarkedAt(padded, n) <==> |StripZeros(padded)| == n + 1 && StripZeros(padded)[n] == MARK
    decreases |padded|
  {
    var k := |padded|;
    if k > 0 && padded[k - 1] == 0 {
      MarkIsLastNonZero(padded[..k - 1], n);
      assert IsMarkedAt(padded, n) <==> IsMarkedAt(padded[..k - 1], n);
    } else if k > 0 {
      assert IsMarkedAt(padded, n) ==> n == k - 1;
    }
  }

  lemma InBuckets(b: nat)
    ensures b in BUCKETS <==> b in {32, 64, 128, 256}
  {
    assert BUCKETS[0] == 32 && BUCKETS[1] == 64 && BUCKETS[2] == 128 && BUCKETS[3] == 256;
  }

  lemma LeastBucket(n: nat)
    ensures FirstBucket(n, BUCKETS)
         == if n <= 32 then Some(32) else if n <= 64 then Some(64) else if n <= 128 then Some(128)
            else if n <= 256 then Some(256) else None
  {
    hide FirstBucket;
    BucketFor(n);
    forall b ensures b in BUCKETS <==> b in {32, 64, 128, 256} {
      InBuckets(b);
    }
    assert 32 in BUCKETS && 64 in BUCKETS && 128 in BUCKETS && 256 in BUCKETS;
  }

  /** Why a label is not padded. */
  lemma PadRefusals(text: Text)
    ensures Pad(text) == Err(NotEncodable) <==> Encode(text).None?
    ensures Pad(text) == Err(TooLong) <==> Encode(text).Some? && |Encode(text).value| > 255
    ensures Pad(text).Err? ==> Pad(text).error in {NotEncodable, TooLong}
  {
    hide Encode, FirstBucket;
    PadAccepts(text);
    EncodesIffScalars(text);
  }

  /** Why bytes do not unpad: no bucket, no mark before the zeros, a smaller bucket would have done, or no UTF-8. */
  lemma UnpadRefusals(padded: Bytes)
    ensures Unpad(padded) == Err(NotABucket) <==> |padded| !in {32, 64, 128, 256}
    ensures |padded| in {32, 64, 128, 256} ==>
              (Unpad(padded) == Err(MalformedPadding) <==> forall n: nat :: !IsMarkedAt(padded, n))
    ensures |padded| in {32, 64, 128, 256} ==> forall n: nat :: IsMarkedAt(padded, n) ==>
              if |padded| > 32 && n < |padded| / 2 then Unpad(padded) == Err(NonMinimalBucket)
              else if Decode(padded[..n]).None? then Unpad(padded) == Err(NotUtf8)
              else Unpad(padded) == Ok(Decode(padded[..n]).value)
  {
    hide Decode, StripZeros, IsMarkedAt, FirstBucket;
    InBuckets(|padded|);
    forall n: nat ensures IsMarkedAt(padded, n) <==> |StripZeros(padded)| == n + 1 && StripZeros(padded)[n] == MARK {
      MarkIsLastNonZero(padded, n);
    }
    var stripped := StripZeros(padded);
    if stripped != [] && stripped[|stripped| - 1] == MARK {
      var n := |stripped| - 1;
      assert IsMarkedAt(padded, n) && stripped[..n] == padded[..n];
      LeastBucket(n + 1);
    }
  }

  // ----- the envelope

  const EPOCH_LIMIT: nat := 0x1_0000_0000
  const ENC_BYTES: nat := 32
  const TAG_BYTES: nat := 16

  datatype Envelope = Envelope(version: nat, epoch: int, enc: Bytes, ciphertext: Bytes)

  /** `struct.pack(">I", epoch)`. */
  function BigEndian(epoch: nat): (r: Bytes)
    requires epoch < EPOCH_LIMIT
    ensures |r| == 4
  {
    [epoch / 0x100_0000, epoch / 0x1_0000 % 256, epoch / 256 % 256, epoch % 256]
  }

  function FromBigEndian(s: Bytes): nat
    requires |s| == 4
  {
    var a: int, b: int, c: int, d: int := s[0], s[1], s[2], s[3];
    a * 0x100_0000 + b * 0x1_0000 + c * 256 + d
  }

  /** version(1) || key_epoch(4) || enc || ciphertext; a version or epoch that does not fit raises. */
  function PackEnvelope(e: Envelope): Result<Bytes, Error> {
    if e.version > 255 || e.epoch < 0 || e.epoch >= EPOCH_LIMIT then Err(OutOfRange)
    else Ok([e.version] + BigEndian(e.epoch) + e.enc + e.ciphertext)
  }

  function UnpackEnvelope(blob: Bytes): Result<Envelope, Error> {
    if |blob| < 1 + 4 + ENC_BYTES + TAG_BYTES + BUCKETS[0] then Err(EnvelopeTooShort)
    else if blob[0] != LABEL_VERSION then Err(UnsupportedVersion)
    else Ok(Envelope(blob[0], FromBigEndian(blob[1..5]), blob[5..37], blob[37..]))
  }

  lemma BigEndianBack(epoch: nat)
    requires epoch < EPOCH_LIMIT
    ensures FromBigEndian(BigEndian(epoch)) == epoch
  {
    assert epoch / 0x1_0000 == epoch / 256 / 256 && epoch / 0x100_0000 == epoch / 0x1_0000 / 256;
  }

  lemma BigEndianForth(s: Bytes)
    requires |s| == 4
    ensures FromBigEndian(s) < EPOCH_LIMIT && BigEndian(FromBigEndian(s)) == s
  {
    var a: int, b: int, c: int, d: int := s[0], s[1], s[2], s[3];
    var n := ((a * 256 + b) * 256 + c) * 256 + d;
    assert FromBigEndian(s) == n;
    LastDigit((a * 256 + b) * 256 + c, d);
    LastDigit(a * 256 + b, c);
    LastDigit(a, b);
    NestedQuotients(n);
  }

  lemma LastDigit(q: int, r: int)
    requires 0 <= r < 256
    ensures (q * 256 + r) / 256 == q && (q * 256 + r) % 256 == r
  {
  }

  lemma NestedQuotients(n: int)
    ensures n / 0x1_0000 == n / 256 / 256 && n / 0x100_0000 == n / 256 / 256 / 256
  {
    assert n / 0x1_0000 == n / 256 / 256;
  }

  /** A packed envelope: version, epoch with its most significant byte first, encapsulated key, ciphertext. */
  lemma EnvelopeLayout(e: Envelope)
    requires PackEnvelope(e).Ok?
    ensures var b := PackEnvelope(e).value;
            && |b| == 5 + |e.enc| + |e.ciphertext|
            && b[0] == e.version && (((b[1] as int) * 256 + b[2]) * 256 + b[3]) * 256 + b[4] == e.epoch
            && b[5..5 + |e.enc|] == e.enc && b[5 + |e.enc|..] == e.ciphertext
  {
    BigEndianBack(e.epoch);
    var b := PackEnvelope(e).value;
    assert b[1..5] == BigEndian(e.epoch);
  }

  /**
   Unpacking gives back what was packed exactly when the version is the supported one, the
   encapsulated key has 32 bytes and the ciphertext has room for the least bucket and its tag;
   packing itself checks none of these.
   */
  lemma UnpackUndoesPack(e: Envelope)
    requires PackEnvelope(e).Ok?
    ensures UnpackEnvelope(PackEnvelope(e).value) == Ok(e) <==>
            e.version == LABEL_VERSION && |e.enc| == ENC_BYTES && |e.ciphertext| >= TAG_BYTES + BUCKETS[0]
  {
    var blob := PackEnvelope(e).value;
    BigEndianBack(e.epoch);
    assert blob[0] == e.version && blob[1..5] == BigEndian(e.epoch) && blob[5..] == e.enc + e.ciphertext;
    if |blob| >= 85 {
      assert |blob[5..37]| == ENC_BYTES;
      if |e.enc| == ENC_BYTES {
        assert blob[5..37] == blob[5..][..32] == e.enc && blob[37..] == blob[5..][32..] == e.ciphertext;
      }
    }
  }

  /** What is not packed or unpacked, and why. */
  lemma EnvelopeRefusals(e: Envelope, blob: Bytes)
    ensures PackEnvelope(e) == Err(OutOfRange) <==> !(0 <= e.version <= 255 && 0 <= e.epoch < 4_294_967_296)
    ensures UnpackEnvelope(blob) == Err(EnvelopeTooShort) <==> |blob| < 1 + 4 + 32 + 16 + 32
    ensures UnpackEnvelope(blob) == Err(UnsupportedVersion) <==> |blob| >= 1 + 4 + 32 + 16 + 32 && blob[0] != 1
  {
    assert BUCKETS[0] == 32;
  }

  /** Every blob that unpacks is what its parts pack to. */
  lemma PackUndoesUnpack(blob: Bytes)
    requires UnpackEnvelope(blob).Ok?
    ensures PackEnvelope(UnpackEnvelope(blob).value) == Ok(blob)
  {
    BigEndianForth(blob[1..5]);
    assert blob == [blob[0]] + blob[1..5] + blob[5..37] + blob[37..];
  }
}
