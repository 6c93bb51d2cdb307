/**
 * The Zoom bot's decimating resampler: 16-bit little-endian PCM at some
 * input rate to 16 kHz, by averaging groups of `ratio` consecutive
 * samples and dividing with C++'s truncation toward zero.
 */
module AudioResampler {
  import opened MachineInts
  import opened Arith

  type Int16 = x: int | -0x8000 <= x < 0x8000

  const TargetRate: nat := 16000

  /** One sample from its two bytes, low byte first, read as two's complement. */
  function SampleOf(lo: byte, hi: byte): Int16 {
    var u := lo as int + 256 * hi as int;
    if u >= 0x8000 then u - 0x1_0000 else u
  }

  /** The bytes of one sample, low byte first. */
  function BytesOf(x: Int16): seq<byte> {
    var u := if x < 0 then x + 0x1_0000 else x;
    [(u % 256) as byte, (u / 256) as byte]
  }

  /** The buffer read as samples; a trailing odd byte is ignored. */
  function DecodeSamples(buffer: seq<byte>): (samples: seq<Int16>)
    ensures |samples| == |buffer| / 2
    ensures forall i :: 0 <= i < |samples| ==> samples[i] == SampleOf(buffer[2 * i], buffer[2 * i + 1])
  {
    seq(|buffer| / 2, i requires 0 <= i < |buffer| / 2 => SampleOf(buffer[2 * i], buffer[2 * i + 1]))
  }

  function EncodeSamples(samples: seq<Int16>): (buffer: seq<byte>)
    ensures |buffer| == 2 * |samples|
  {
    if |samples| == 0 then [] else BytesOf(samples[0]) + EncodeSamples(samples[1..])
  }

  lemma SampleRoundTrip(x: Int16)
    ensures SampleOf(BytesOf(x)[0], BytesOf(x)[1]) == x
  {
    var u := if x < 0 then x + 0x1_0000 else x;
    assert (u % 256) + 256 * (u / 256) == u;
  }

  lemma {:induction false} EncodeSamplesAt(samples: seq<Int16>, i: nat)
    requires i < |samples|
    ensures EncodeSamples(samples)[2 * i] == BytesOf(samples[i])[0]
    ensures EncodeSamples(samples)[2 * i + 1] == BytesOf(samples[i])[1]
    decreases i
  {
    if i > 0 {
      EncodeSamplesAt(samples[1..], i - 1);
    }
  }

  /** Reading the encoded samples back gives the same samples. */
  lemma DecodeEncode(samples: seq<Int16>)
    ensures DecodeSamples(EncodeSamples(samples)) == samples
  {
    var d := DecodeSamples(EncodeSamples(samples));
    forall i | 0 <= i < |samples|
      ensures d[i] == samples[i]
    {
      EncodeSamplesAt(samples, i);
      SampleRoundTrip(samples[i]);
    }
  }

  // ---------------------------------------------------------------------
  // Averaging
  // ---------------------------------------------------------------------

  /** `a / d` in C++: the quotient truncated toward zero. */
  function TruncDiv(a: int, d: int): (q: int)
    requires d > 0
    ensures a >= 0 ==> d * q <= a < d * q + d
    ensures a < 0 ==> d * q - d < a <= d * q
  {
    if a >= 0 then a / d else -((-a) / d)
  }

  /** The sum, accumulated front to back as the loop does. */
  function Sum(s: seq<int>): int {
    if |s| == 0 then 0 else Sum(s[..|s| - 1]) + s[|s| - 1]
  }

  predicate InRange(s: seq<int>, lo: int, hi: int) {
    forall i :: 0 <= i < |s| ==> lo <= s[i] <= hi
  }

  lemma {:induction false} SumBounds(s: seq<int>, lo: int, hi: int)
    requires InRange(s, lo, hi)
    ensures |s| * lo <= Sum(s) <= |s| * hi
    decreases |s|
  {
    if |s| > 0 {
      var n := |s| - 1;
      SumBounds(s[..n], lo, hi);
      assert lo <= s[n] <= hi;
      assert |s| * lo == n * lo + lo && |s| * hi == n * hi + hi;
    }
  }

  /** A truncated average lies within any bounds of what it averages. */
  lemma TruncDivWithin(sum: int, d: int, lo: int, hi: int)
    requires d > 0 && d * lo <= sum <= d * hi
    ensures lo <= TruncDiv(sum, d) <= hi
  {
    var q := TruncDiv(sum, d);
    if sum >= 0 {
      assert d * (q + 1) == d * q + d;
      MulLtCancel(d, lo, q + 1);
      MulLeCancel(d, q, hi);
    } else {
      MulLeCancel(d, lo, q);
      assert d * (q - 1) == d * q - d;
      MulLtCancel(d, q - 1, hi);
    }
  }

  function Average(group: seq<int>): int
    requires |group| > 0
  {
    TruncDiv(Sum(group), |group|)
  }

  function SeqMin(s: seq<int>): (m: int)
    requires |s| > 0
    ensures m in s && forall i :: 0 <= i < |s| ==> m <= s[i]
  {
    if |s| == 1 then s[0]
    else var r := SeqMin(s[1..]); assert s[1..][0] == s[1]; if s[0] <= r then s[0] else r
  }

  function SeqMax(s: seq<int>): (m: int)
    requires |s| > 0
    ensures m in s && forall i :: 0 <= i < |s| ==> s[i] <= m
  {
    if |s| == 1 then s[0]
    else var r := SeqMax(s[1..]); assert s[1..][0] == s[1]; if s[0] >= r then s[0] else r
  }

  /** Each output lies between the smallest and the largest sample of its group. */
  lemma AverageBetweenMinAndMax(group: seq<int>)
    requires |group| > 0
    ensures SeqMin(group) <= Average(group) <= SeqMax(group)
  {
    SumBounds(group, SeqMin(group), SeqMax(group));
    TruncDivWithin(Sum(group), |group|, SeqMin(group), SeqMax(group));
  }

  /** So the cast back to `int16_t` never wraps. */
  lemma AverageIsSample(group: seq<Int16>)
    requires |group| > 0
    ensures -0x8000 <= Average(group) < 0x8000
  {
    SumBounds(group, -0x8000, 0x7FFF);
    TruncDivWithin(Sum(group), |group|, -0x8000, 0x7FFF);
  }

  const Int32Min: int := -0x8000_0000
  const Int32Max: int := 0x7FFF_FFFF

  /** With at most 65536 samples per group, no partial sum leaves `int32_t`. */
  lemma PartialSumsFitInt32(group: seq<Int16>, j: nat)
    requires |group| <= 0x1_0000 && j <= |group|
    ensures Int32Min <= Sum(group[..j]) <= Int32Max
  {
    SumBounds(group[..j], -0x8000, 0x7FFF);
  }

  // ---------------------------------------------------------------------
  // Resampling
  // ---------------------------------------------------------------------

  /** `inputSampleRate / 16000`, clamped to at least 1. */
  function Ratio(inputSampleRate: nat): (ratio: nat)
    ensures ratio >= 1
    ensures inputSampleRate >= 2 * TargetRate ==> ratio * TargetRate <= inputSampleRate < (ratio + 1) * TargetRate
    ensures inputSampleRate < 2 * TargetRate ==> ratio == 1
  {
    var r := inputSampleRate / TargetRate;
    if r == 0 then 1 else r
  }

  lemma GroupBound(k: nat, ratio: nat, count: nat)
    requires ratio >= 1 && k < count / ratio
    ensures k * ratio + ratio <= count
  {
    MulMono(ratio, k + 1, count / ratio);
    assert ratio * (k + 1) == k * ratio + ratio;
    assert ratio * (count / ratio) <= count;
  }

  /** Group `k`: the `ratio` samples starting at `k * ratio`. */
  function GroupOf(samples: seq<Int16>, ratio: nat, k: nat): (group: seq<Int16>)
    requires ratio >= 1 && k < |samples| / ratio
    ensures |group| == ratio
  {
    GroupBound(k, ratio, |samples|);
    samples[k * ratio .. k * ratio + ratio]
  }

  /** The truncated average of a group, which is again a sample. */
  function Mean(group: seq<Int16>): (m: Int16)
    requires |group| > 0
    ensures m == Average(group)
  {
    AverageIsSample(group);
    Average(group) as Int16
  }

  /** The decimated signal: one truncated average per complete group of `ratio` samples. */
  function Decimate(samples: seq<Int16>, ratio: nat): (out: seq<Int16>)
    requires ratio >= 1
    ensures |out| == |samples| / ratio
  {
    seq(|samples| / ratio, k requires 0 <= k < |samples| / ratio => Mean(GroupOf(samples, ratio, k)))
  }

  /** What `resample` returns, as a definition. */
  function Resampled(buffer: seq<byte>, inputSampleRate: nat): seq<Int16> {
    if inputSampleRate == TargetRate then DecodeSamples(buffer)
    else Decimate(DecodeSamples(buffer), Ratio(inputSampleRate))
  }

  /** The inner loop: the `int32_t` accumulation of one group. */
  method GroupSum(samples: seq<Int16>, start: nat, ratio: nat) returns (sum: int)
    requires start + ratio <= |samples|
    ensures sum == Sum(samples[start .. start + ratio])
  {
    sum := 0;
    var j := 0;
    while j < ratio
      invariant j <= ratio
      invariant sum == Sum(samples[start .. start + j])
    {
      assert samples[start .. start + j + 1][..j] == samples[start .. start + j];
      sum := sum + samples[start + j];
      j := j + 1;
    }
  }

  /**
   * `AudioResampler::resample` on a buffer of `|buffer|` bytes: the outer
   * loop walks complete groups, the inner one accumulates a group's sum.
   */
  method Resample(buffer: seq<byte>, inputSampleRate: nat) returns (output: seq<Int16>)
    requires inputSampleRate < 0x1_0000_0000
    ensures output == Resampled(buffer, inputSampleRate)
    ensures inputSampleRate != TargetRate ==> |output| == (|buffer| / 2) / Ratio(inputSampleRate)
  {
    var samples := DecodeSamples(buffer);
    var sampleCount := |samples|;
    if inputSampleRate == TargetRate {
      return samples;
    }
    var ratio := inputSampleRate / TargetRate;
    if ratio == 0 {
      ratio := 1;
    }
    assert ratio == Ratio(inputSampleRate);
    ghost var target := Decimate(samples, ratio);
    output := [];
    var i := 0;
    while i + ratio <= sampleCount
      invariant i == |output| * ratio
      invariant i <= sampleCount
      invariant |output| <= |target|
      invariant output == target[..|output|]
      decreases sampleCount - i
    {
      var sum := GroupSum(samples, i, ratio);
      ghost var m := |output|;
      NextGroup(samples, ratio, m, i);
      output := output + [TruncDiv(sum, ratio) as Int16];
      assert output == target[..m + 1];
      assert |output| == m + 1;
      i := i + ratio;
    }
    DivOfBracket(sampleCount, ratio, |output|);
    assert output == target;
  }

  /** One turn of the outer loop: the group at `i` is group `m` and exists. */
  lemma NextGroup(samples: seq<Int16>, ratio: nat, m: nat, i: nat)
    requires ratio >= 1 && i == m * ratio && i + ratio <= |samples|
    ensures m < |samples| / ratio
    ensures i + ratio == (m + 1) * ratio
    ensures Decimate(samples, ratio)[m] == TruncDiv(Sum(samples[i .. i + ratio]), ratio)
  {
    assert (m + 1) * ratio == m * ratio + ratio;
    DivLower(m + 1, ratio, |samples|);
    assert GroupOf(samples, ratio, m) == samples[i .. i + ratio];
  }

  // ---------------------------------------------------------------------
  // Properties
  // ---------------------------------------------------------------------

  lemma AverageOfOne(x: Int16)
    ensures Average([x]) == x
  {
    assert [x][..0] == [];
    assert Sum([x]) == x;
  }

  /** With a ratio of 1 decimation is the identity. */
  lemma DecimateByOne(samples: seq<Int16>)
    ensures Decimate(samples, 1) == samples
  {
    forall k | 0 <= k < |samples|
      ensures Decimate(samples, 1)[k] == samples[k]
    {
      assert samples[k .. k + 1] == [samples[k]];
      AverageOfOne(samples[k]);
    }
  }

  /** Any input rate below 32 kHz passes the samples through unchanged. */
  lemma SlowRatesPassThrough(buffer: seq<byte>, inputSampleRate: nat)
    requires inputSampleRate < 2 * TargetRate
    ensures Resampled(buffer, inputSampleRate) == DecodeSamples(buffer)
  {
    if inputSampleRate != TargetRate {
      DecimateByOne(DecodeSamples(buffer));
    }
  }

  /** 48 kHz to 16 kHz: groups of three, a trailing partial group dropped. */
  lemma From48k(buffer: seq<byte>)
    ensures |Resampled(buffer, 48000)| == (|buffer| / 2) / 3
  {
  }

  /** Truncation toward zero differs from Dafny's floor-like division on negative sums. */
  lemma TruncationTowardZero()
    ensures TruncDiv(-5, 3) == -1 && -5 / 3 == -2
    ensures Average([-2, -2, -1]) == -1
  {
    assert [-2, -2, -1][..2] == [-2, -2];
    assert [-2, -2][..1] == [-2];
    assert [-2][..0] == [];
  }
}
