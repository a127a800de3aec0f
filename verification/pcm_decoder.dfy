/**
  The PCM sample decoder `_wav2array`: the data chunk of a RIFF/WAVE file,
  a little-endian byte string, becomes a frames-by-channels integer matrix.

  `Decode` is the decoder as its authors evidently meant it. The two copies in
  the program, a module-level function and a method of the GUI class, are
  modelled as written by `Wav2ArrayAsWritten` and `Wav2ArrayMethodAsWritten`;
  they differ from `Decode` on sample widths 3 and above 4.
 */
module PcmDecoder {
  import opened Common
  import opened LittleEndian

  /** Why a decode was refused. */
  datatype DecodeError =
    | DivisionByZero   // sampwidth * nchannels == 0 makes divmod raise
    | NotMultiple      // the byte count is not a whole number of frames
    | WidthTooLarge    // the explicit "sampwidth must not be greater than 4" check
    | UnknownDtype     // numpy has no little-endian integer dtype of that width

  /** What a call of the Python function produces: an array, `None`, or an exception. */
  datatype Outcome =
    | Frames(frames: seq<seq<int>>)
    | NoValue
    | Raised(error: DecodeError)

  /** A 24-bit sample widened to 32 bits: the added top byte is (b2 >> 7) * 255. */
  function Widen3(bs: seq<byte>): (wide: seq<byte>)
    requires |bs| == 3
  {
    bs + [(bs[2] / 128) * 255]
  }

  /**
    The value of one stored sample of `w` bytes: unsigned for one byte,
    a widened 24-bit value for three, two's complement otherwise.
   */
  function SampleValue(w: nat, bs: seq<byte>): (v: int)
    requires w >= 1 && |bs| == w
  {
    if w == 1 then Unsigned(bs)
    else if w == 3 then Signed(Widen3(bs))
    else Signed(bs)
  }

  /** The values a `w`-byte sample can take. */
  predicate InRange(w: nat, v: int)
    requires w >= 1
  {
    if w == 1 then 0 <= v < 256 else -HalfRange(w) <= v < HalfRange(w)
  }

  /** The bytes that store `v` as a `w`-byte sample. */
  function SampleBytes(w: nat, v: int): (bs: seq<byte>)
    requires w >= 1 && InRange(w, v)
    ensures |bs| == w
  {
    if w == 1 then EncodeUnsigned(1, v) else EncodeSigned(w, v)
  }

  /** Sign extension: the widened 32-bit reading equals the 24-bit two's-complement reading. */
  lemma Widen3PreservesValue(bs: seq<byte>)
    requires |bs| == 3
    ensures Signed(Widen3(bs)) == Signed(bs)
  {
    var w := Widen3(bs);
    UnsignedSplitLast(w);
    assert w[..3] == bs;
    if bs[2] >= 128 {
      assert w[3] == 255;
    } else {
      assert w[3] == 0;
    }
  }

  /** A three-byte sample's value, written out, and its 24-bit range. */
  lemma Width3Value(bs: seq<byte>)
    requires |bs| == 3
    ensures SampleValue(3, bs)
            == bs[0] as int + 256 * bs[1] as int + 65536 * bs[2] as int
               - (if bs[2] >= 128 then 16777216 else 0)
    ensures -8388608 <= SampleValue(3, bs) < 8388608
  {
    Widen3PreservesValue(bs);
    SignedRange(bs);
    assert bs[1..][1..][1..] == [];
    assert Unsigned(bs[1..][1..]) == bs[2] as int;
    assert Unsigned(bs[1..]) == bs[1] as int + 256 * bs[2] as int;
  }

  /** Every stored sample decodes to a value in its width's range. */
  lemma SampleInRange(w: nat, bs: seq<byte>)
    requires w >= 1 && |bs| == w
    ensures InRange(w, SampleValue(w, bs))
  {
    if w == 1 {
      UnsignedBound(bs);
    } else {
      if w == 3 {
        Widen3PreservesValue(bs);
      }
      SignedRange(bs);
    }
  }

  /** Storing a value and reading it back gives the value. */
  lemma SampleRoundTrip(w: nat, v: int)
    requires w >= 1 && InRange(w, v)
    ensures SampleValue(w, SampleBytes(w, v)) == v
  {
    if w == 3 {
      Widen3PreservesValue(SampleBytes(w, v));
    }
  }

  /** Reading a sample and storing it again gives the same bytes. */
  lemma SampleBytesRoundTrip(w: nat, bs: seq<byte>)
    requires w >= 1 && |bs| == w
    ensures InRange(w, SampleValue(w, bs))
    ensures SampleBytes(w, SampleValue(w, bs)) == bs
  {
    SampleInRange(w, bs);
    if w == 1 {
      UnsignedEncodeInverse(bs);
    } else {
      if w == 3 {
        Widen3PreservesValue(bs);
      }
      SignedEncodeInverse(bs);
    }
  }

  lemma MulPred(k: nat, w: nat)
    requires k >= 1
    ensures (k - 1) * w == k * w - w
  {
  }

  /** `np.fromstring`: `k` consecutive `w`-byte samples, in byte order. */
  function DecodeFlat(data: seq<byte>, w: nat, k: nat): (samples: seq<int>)
    requires w >= 1 && |data| == k * w
    ensures |samples| == k
    ensures AllInRange(samples, w)
  {
    if k == 0 then []
    else
      MulPred(k, w);
      SampleInRange(w, data[..w]);
      [SampleValue(w, data[..w])] + DecodeFlat(data[w..], w, k - 1)
  }

  /** `reshape(-1, n)`: a flat sequence cut into `k` rows of `n`. */
  function Reshape(flat: seq<int>, n: nat, k: nat): (rows: seq<seq<int>>)
    requires |flat| == k * n
    ensures |rows| == k
    ensures forall f :: 0 <= f < k ==> |rows[f]| == n
  {
    if k == 0 then []
    else
      MulPred(k, n);
      [flat[..n]] + Reshape(flat[n..], n, k - 1)
  }

  /** Sample `i` of the flat decoding is the sample stored at byte offset `i * w`. */
  lemma {:induction false} DecodeFlatAt(data: seq<byte>, w: nat, k: nat, i: nat)
    requires w >= 1 && |data| == k * w && i < k
    ensures i * w + w <= |data|
    ensures DecodeFlat(data, w, k)[i] == SampleValue(w, data[i * w .. i * w + w])
  {
    MulPred(k, w);
    MulMonotone(w, i + 1, k);
    if i > 0 {
      DecodeFlatAt(data[w..], w, k - 1, i - 1);
      MulPred(i, w);
      assert data[w..][(i - 1) * w .. (i - 1) * w + w] == data[i * w .. i * w + w];
    }
  }

  /** Entry `[f][c]` of a reshaped sequence is flat entry `f * n + c`. */
  lemma {:induction false} ReshapeAt(flat: seq<int>, n: nat, k: nat, f: nat, c: nat)
    requires |flat| == k * n && f < k && c < n
    ensures f * n + c < |flat|
    ensures Reshape(flat, n, k)[f][c] == flat[f * n + c]
  {
    MulPred(k, n);
    MulMonotone(n, f + 1, k);
    if f > 0 {
      ReshapeAt(flat[n..], n, k - 1, f - 1, c);
      MulPred(f, n);
    }
  }

  /** The frames of `data`, once its length is known to be `k` frames of `nch` samples of `w` bytes. */
  function DecodeFrames(data: seq<byte>, nch: nat, w: nat, k: nat): (frames: seq<seq<int>>)
    requires w >= 1 && |data| == k * nch * w
  {
    Reshape(DecodeFlat(data, w, k * nch), nch, k)
  }

  /**
    The decoder as intended: the frame-count check, then the width check,
    then every width from 1 to 4 decoded, 24-bit samples sign-extended.
   */
  function Decode(nch: nat, w: nat, data: seq<byte>): (r: Result<seq<seq<int>>, DecodeError>)
    ensures r == Failure(DivisionByZero) <==> w * nch == 0
    ensures r == Failure(NotMultiple) <==> w * nch > 0 && |data| % (w * nch) != 0
    ensures r == Failure(WidthTooLarge) <==> w > 4 && nch >= 1 && |data| % (w * nch) == 0
    ensures r.Success? <==> 1 <= w <= 4 && nch >= 1 && |data| % (w * nch) == 0
    ensures r.Success? ==> |r.value| == |data| / (w * nch)
                           && |r.value| * nch * w == |data|
                           && forall f :: 0 <= f < |r.value| ==> |r.value[f]| == nch
  {
    var unit := w * nch;
    if unit == 0 then Failure(DivisionByZero)
    else if |data| % unit != 0 then Failure(NotMultiple)
    else if w > 4 then Failure(WidthTooLarge)
    else
      var k := |data| / unit;
      FrameCount(|data|, nch, w);
      Success(DecodeFrames(data, nch, w, k))
  }

  lemma FrameCount(len: nat, nch: nat, w: nat)
    requires w * nch > 0 && len % (w * nch) == 0
    ensures len == (len / (w * nch)) * nch * w
  {
    var k := len / (w * nch);
    assert len == k * (w * nch);
  }

  /** What a call returns or raises when it behaves as `Decode` says. */
  function Lift(d: Result<seq<seq<int>>, DecodeError>): (o: Outcome)
  {
    match d
    case Success(m) => Frames(m)
    case Failure(e) => Raised(e)
  }

  /**
    The module-level `_wav2array` as written (lines 62-82). It differs from
    `Decode` only on well-sized input: 24-bit data gives no value, and a
    width above 4 is refused by numpy's dtype lookup rather than by the
    width check, which never runs.
   */
  function Wav2ArrayAsWritten(nch: nat, w: nat, data: seq<byte>): (r: Outcome)
    ensures r == NoValue <==> w == 3 && Decode(nch, w, data).Success?
    ensures r != NoValue && Decode(nch, w, data) != Failure(WidthTooLarge) ==>
              r == Lift(Decode(nch, w, data))
    ensures Decode(nch, w, data) == Failure(WidthTooLarge) ==>
              (r.Frames? <==> w == 8) && (w != 8 ==> r == Raised(UnknownDtype))
  {
    var unit := w * nch;
    if unit == 0 then Raised(DivisionByZero)
    // the width check below the raise can never run
    else if |data| % unit != 0 then Raised(NotMultiple)
    // the 3-byte branch builds its array but does not return it
    else if w == 3 then NoValue
    else if w !in {1, 2, 4, 8} then Raised(UnknownDtype)
    else
      var k := |data| / unit;
      FrameCount(|data|, nch, w);
      Frames(DecodeFrames(data, nch, w, k))
  }

  /**
    The method copy of `_wav2array` as written (lines 250-270): exactly
    `Decode`, except that 24-bit data gives no value.
   */
  function Wav2ArrayMethodAsWritten(nch: nat, w: nat, data: seq<byte>): (r: Outcome)
    ensures r == NoValue <==> w == 3 && Decode(nch, w, data).Success?
    ensures r != NoValue ==> r == Lift(Decode(nch, w, data))
  {
    var unit := w * nch;
    if unit == 0 then Raised(DivisionByZero)
    else if |data| % unit != 0 then Raised(NotMultiple)
    else if w > 4 then Raised(WidthTooLarge)
    else if w == 3 then NoValue
    else
      var k := |data| / unit;
      FrameCount(|data|, nch, w);
      Frames(DecodeFrames(data, nch, w, k))
  }

  /** Every sample of a flat sequence is storable in `w` bytes. */
  predicate AllInRange(samples: seq<int>, w: nat)
    requires w >= 1
  {
    forall i :: 0 <= i < |samples| ==> InRange(w, samples[i])
  }

  /** A matrix of `nch`-sample frames whose every sample is storable in `w` bytes. */
  predicate WellFormed(frames: seq<seq<int>>, nch: nat, w: nat)
    requires w >= 1
  {
    forall f :: 0 <= f < |frames| ==>
      |frames[f]| == nch && forall c :: 0 <= c < nch ==> InRange(w, frames[f][c])
  }

  /** Frame `f`, channel `c` of a decoded matrix is the sample at byte offset `(f * nch + c) * w`. */
  lemma DecodeElement(nch: nat, w: nat, data: seq<byte>, f: nat, c: nat)
    requires Decode(nch, w, data).Success?
    requires f < |Decode(nch, w, data).value| && c < nch
    ensures (f * nch + c) * w + w <= |data|
    ensures Decode(nch, w, data).value[f][c]
            == SampleValue(w, data[(f * nch + c) * w .. (f * nch + c) * w + w])
    ensures InRange(w, Decode(nch, w, data).value[f][c])
  {
    var k := |data| / (w * nch);
    FrameCount(|data|, nch, w);
    var flat := DecodeFlat(data, w, k * nch);
    ReshapeAt(flat, nch, k, f, c);
    DecodeFlatAt(data, w, k * nch, f * nch + c);
  }

  /** The samples of a flat sequence, each stored in `w` bytes, in order. */
  function EncodeFlat(samples: seq<int>, w: nat): (data: seq<byte>)
    requires w >= 1 && AllInRange(samples, w)
    ensures |data| == |samples| * w
  {
    if |samples| == 0 then []
    else SampleBytes(w, samples[0]) + EncodeFlat(samples[1..], w)
  }

  /** The frames of a matrix laid end to end. */
  function Flatten(rows: seq<seq<int>>): (flat: seq<int>)
  {
    if |rows| == 0 then [] else rows[0] + Flatten(rows[1..])
  }

  /** The data chunk that stores a matrix of frames: the inverse of `Decode`. */
  function Encode(nch: nat, w: nat, frames: seq<seq<int>>): (data: seq<byte>)
    requires w >= 1 && WellFormed(frames, nch, w)
  {
    FlattenWellFormed(frames, nch, w);
    EncodeFlat(Flatten(frames), w)
  }

  lemma {:induction false} FlattenWellFormed(rows: seq<seq<int>>, nch: nat, w: nat)
    requires w >= 1 && WellFormed(rows, nch, w)
    ensures |Flatten(rows)| == |rows| * nch
    ensures AllInRange(Flatten(rows), w)
  {
    if |rows| > 0 {
      FlattenWellFormed(rows[1..], nch, w);
      var t := Flatten(rows[1..]);
      forall i | 0 <= i < |Flatten(rows)|
        ensures InRange(w, Flatten(rows)[i])
      {
        if i < nch {
          assert Flatten(rows)[i] == rows[0][i];
        } else {
          assert Flatten(rows)[i] == t[i - nch];
        }
      }
    }
  }

  lemma {:induction false} DecodeFlatOfEncodeFlat(samples: seq<int>, w: nat)
    requires w >= 1 && AllInRange(samples, w)
    ensures DecodeFlat(EncodeFlat(samples, w), w, |samples|) == samples
  {
    if |samples| > 0 {
      var data := EncodeFlat(samples, w);
      var head := SampleBytes(w, samples[0]);
      assert data[..w] == head;
      assert data[w..] == EncodeFlat(samples[1..], w);
      SampleRoundTrip(w, samples[0]);
      DecodeFlatOfEncodeFlat(samples[1..], w);
    }
  }

  lemma {:induction false} EncodeFlatOfDecodeFlat(data: seq<byte>, w: nat, k: nat)
    requires w >= 1 && |data| == k * w
    ensures EncodeFlat(DecodeFlat(data, w, k), w) == data
  {
    if k > 0 {
      MulPred(k, w);
      SampleBytesRoundTrip(w, data[..w]);
      EncodeFlatOfDecodeFlat(data[w..], w, k - 1);
      assert data == data[..w] + data[w..];
    }
  }

  lemma {:induction false} ReshapeOfFlatten(rows: seq<seq<int>>, nch: nat)
    requires forall f :: 0 <= f < |rows| ==> |rows[f]| == nch
    ensures |Flatten(rows)| == |rows| * nch
    ensures Reshape(Flatten(rows), nch, |rows|) == rows
  {
    if |rows| > 0 {
      ReshapeOfFlatten(rows[1..], nch);
      var flat := Flatten(rows);
      assert flat[..nch] == rows[0];
      assert flat[nch..] == Flatten(rows[1..]);
      assert rows == [rows[0]] + rows[1..];
    }
  }

  lemma {:induction false} FlattenOfReshape(flat: seq<int>, n: nat, k: nat)
    requires |flat| == k * n
    ensures Flatten(Reshape(flat, n, k)) == flat
  {
    if k > 0 {
      MulPred(k, n);
      FlattenOfReshape(flat[n..], n, k - 1);
      assert flat == flat[..n] + flat[n..];
    }
  }

  lemma MulDivExact(k: nat, a: nat)
    requires a > 0
    ensures (k * a) % a == 0 && (k * a) / a == k
  {
    var q := (k * a) / a;
    var r := (k * a) % a;
    assert k * a == q * a + r;
    if q < k {
      MulMonotone(a, 1, k - q);
      assert false;
    } else if q > k {
      MulMonotone(a, 1, q - k);
      assert false;
    }
  }

  lemma FrameArithmetic(k: nat, nch: nat, w: nat)
    requires w * nch > 0
    ensures (k * nch * w) % (w * nch) == 0 && (k * nch * w) / (w * nch) == k
  {
    assert k * nch * w == k * (w * nch);
    MulDivExact(k, w * nch);
  }

  /** Decoding the stored form of a well-formed matrix gives the matrix back. */
  lemma DecodeOfEncode(nch: nat, w: nat, frames: seq<seq<int>>)
    requires 1 <= w <= 4 && nch >= 1 && WellFormed(frames, nch, w)
    ensures Decode(nch, w, Encode(nch, w, frames)) == Success(frames)
  {
    var data := Encode(nch, w, frames);
    var k := |frames|;
    var flat := Flatten(frames);
    FlattenWellFormed(frames, nch, w);
    assert |data| == k * nch * w;
    FrameArithmetic(k, nch, w);
    DecodeFlatOfEncodeFlat(flat, w);
    ReshapeOfFlatten(frames, nch);
    assert DecodeFrames(data, nch, w, k) == frames;
  }

  /** Storing a decoded matrix again gives back the bytes it was decoded from. */
  lemma EncodeOfDecode(nch: nat, w: nat, data: seq<byte>)
    requires Decode(nch, w, data).Success?
    ensures w >= 1 && WellFormed(Decode(nch, w, data).value, nch, w)
    ensures Encode(nch, w, Decode(nch, w, data).value) == data
  {
    var m := Decode(nch, w, data).value;
    var k := |data| / (w * nch);
    FrameCount(|data|, nch, w);
    var flat := DecodeFlat(data, w, k * nch);
    forall f, c | 0 <= f < |m| && 0 <= c < nch
      ensures InRange(w, m[f][c])
    {
      DecodeElement(nch, w, data, f, c);
    }
    FlattenOfReshape(flat, nch, k);
    EncodeFlatOfDecodeFlat(data, w, k * nch);
  }

  /** Where widths 1, 2 and 4 are concerned, both copies agree with `Decode`, errors included. */
  lemma CopiesAgreeOnCommonWidths(nch: nat, w: nat, data: seq<byte>)
    requires w in {1, 2, 4} || w * nch == 0 || |data| % (w * nch) != 0
    ensures Wav2ArrayAsWritten(nch, w, data) == Wav2ArrayMethodAsWritten(nch, w, data)
    ensures Wav2ArrayAsWritten(nch, w, data) == Lift(Decode(nch, w, data))
  {
  }

  /** Both copies return `None` for any well-sized 24-bit data, where `Decode` returns the frames. */
  lemma Width3ReturnsNoValue(nch: nat, data: seq<byte>)
    requires nch >= 1 && |data| % (3 * nch) == 0
    ensures Wav2ArrayAsWritten(nch, 3, data) == NoValue
    ensures Wav2ArrayMethodAsWritten(nch, 3, data) == NoValue
    ensures Decode(nch, 3, data).Success?
  {
  }

  /** Bytes 00 00 80 decode to a negative sample and 00 00 7F to a positive one. */
  lemma Width3SignExample()
    ensures Decode(1, 3, [0x00, 0x00, 0x80]).Success?
    ensures Decode(1, 3, [0x00, 0x00, 0x80]).value == [[-8388608]]
    ensures Decode(1, 3, [0x00, 0x00, 0x7F]).value == [[8323072]]
    ensures Wav2ArrayAsWritten(1, 3, [0x00, 0x00, 0x80]) == NoValue
  {
    var neg: seq<byte> := [0x00, 0x00, 0x80];
    var pos: seq<byte> := [0x00, 0x00, 0x7F];
    DecodeElement(1, 3, neg, 0, 0);
    DecodeElement(1, 3, pos, 0, 0);
    Width3Value(neg);
    Width3Value(pos);
    assert neg[0..3] == neg;
    assert pos[0..3] == pos;
  }

  /**
    On whole frames of samples wider than 4 bytes, the method copy refuses
    the width, while the module copy decodes 8-byte samples as `<i8` and
    fails on any other width only because numpy has no such dtype.
   */
  lemma {:induction false} WideSamplesAsWritten(nch: nat, w: nat, data: seq<byte>)
    requires w > 4 && nch >= 1 && |data| % (w * nch) == 0
    ensures |data| == (|data| / (w * nch)) * nch * w
    ensures Wav2ArrayMethodAsWritten(nch, w, data) == Raised(WidthTooLarge)
    ensures Decode(nch, w, data) == Failure(WidthTooLarge)
    ensures w != 8 ==> Wav2ArrayAsWritten(nch, w, data) == Raised(UnknownDtype)
    ensures w == 8 ==>
              Wav2ArrayAsWritten(nch, w, data) == Frames(DecodeFrames(data, nch, w, |data| / (w * nch)))
  {
    FrameCount(|data|, nch, w);
  }

  /** The module copy decodes 8-byte samples its dead width check was meant to refuse. */
  lemma ModuleCopyAcceptsWidth8(nch: nat, data: seq<byte>)
    requires nch >= 1 && |data| % (8 * nch) == 0
    ensures |data| == (|data| / (8 * nch)) * nch * 8
    ensures Wav2ArrayAsWritten(nch, 8, data) == Frames(DecodeFrames(data, nch, 8, |data| / (8 * nch)))
    ensures Decode(nch, 8, data) == Failure(WidthTooLarge)
  {
    WideSamplesAsWritten(nch, 8, data);
  }

  /** Five bytes of 16-bit mono data are not a whole number of frames. */
  lemma OddLengthExample()
    ensures Decode(1, 2, [0, 0, 0, 0, 0]) == Failure(NotMultiple)
  {
  }

  /** An empty data chunk decodes to no frames, not an error. */
  lemma EmptyDataExample(nch: nat, w: nat)
    requires 1 <= w <= 4 && nch >= 1
    ensures Decode(nch, w, []) == Success([])
  {
  }
}
