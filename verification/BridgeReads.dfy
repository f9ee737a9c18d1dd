/** The samples the bridge takes from what it reads, and which reads give the samples of
    the byte stream they cut. */
module BridgeReads {
  import opened FixedPoint
  import opened Framing

  /** Sample i of a buffer of little-endian 16-bit samples. */
  function SampleAt(bytes: seq<byte>, i: nat): int
    requires i < |bytes| / 2
  {
    ToInt16(bytes[2 * i] + 0x100 * bytes[2 * i + 1] as int)
  }

  function SamplesOf(bytes: seq<byte>): (s: seq<int>)
    ensures |s| == |bytes| / 2
  {
    seq(|bytes| / 2, i requires 0 <= i < |bytes| / 2 => SampleAt(bytes, i))
  }

  /** Two bytes for each sample, the low one first. */
  function BytesOf(samples: seq<int>): (b: seq<byte>)
    ensures |b| == 2 * |samples|
  {
    seq(2 * |samples|, i requires 0 <= i < 2 * |samples| =>
      if i % 2 == 0 then samples[i / 2] % 0x100 else samples[i / 2] / 0x100 % 0x100)
  }

  lemma SampleReadsBack(sample: int)
    requires -0x8000 <= sample < 0x8000
    ensures ToInt16(sample % 0x100 + 0x100 * (sample / 0x100 % 0x100)) == sample
  {
    var high := sample / 0x100;
    assert sample == 0x100 * high + sample % 0x100 && high == 0x100 * (high / 0x100) + high % 0x100;
    var v := sample % 0x100 + 0x100 * (high % 0x100);
    Quotient(sample - v, 0x1_0000, high / 0x100, 0);
    ToInt16Congruent(v, sample);
  }

  /** 16-bit samples are read back from their bytes. */
  lemma SamplesReadBack(samples: seq<int>)
    requires forall i :: 0 <= i < |samples| ==> -0x8000 <= samples[i] < 0x8000
    ensures SamplesOf(BytesOf(samples)) == samples
  {
    hide ToInt16;
    var bytes := BytesOf(samples);
    forall i | 0 <= i < |samples|
      ensures SamplesOf(bytes)[i] == samples[i]
    {
      BytesOfOne(samples, i);
      SampleReadsBack(samples[i]);
    }
  }

  lemma BytesOfOne(samples: seq<int>, i: nat)
    requires i < |samples|
    ensures BytesOf(samples)[2 * i] == samples[i] % 0x100
    ensures BytesOf(samples)[2 * i + 1] == samples[i] / 0x100 % 0x100
  {
    Quotient(2 * i, 2, i, 0);
    Quotient(2 * i + 1, 2, i, 1);
  }

  lemma EvenReadJoins(a: seq<byte>, b: seq<byte>)
    requires |a| % 2 == 0
    ensures SamplesOf(a + b) == SamplesOf(a) + SamplesOf(b)
  {
    var x, y, h := SamplesOf(a + b), SamplesOf(a) + SamplesOf(b), |a| / 2;
    assert |x| == |y|;
    forall i | 0 <= i < |x|
      ensures x[i] == y[i]
    {
      if i >= h {
        assert (a + b)[2 * i] == b[2 * (i - h)] && (a + b)[2 * i + 1] == b[2 * (i - h) + 1];
      }
    }
  }

  ghost predicate JoinsAnything(a: seq<byte>) {
    forall b: seq<byte> :: SamplesOf(a + b) == SamplesOf(a) + SamplesOf(b)
  }

  /** What one read gives joins with whatever follows if and only if the read is of even
      length; after an odd one the discarded byte is missing. */
  lemma ReadJoinsIff(a: seq<byte>)
    ensures JoinsAnything(a) <==> |a| % 2 == 0
  {
    if |a| % 2 == 0 {
      forall b: seq<byte>
        ensures SamplesOf(a + b) == SamplesOf(a) + SamplesOf(b)
      {
        EvenReadJoins(a, b);
      }
    } else {
      assert |SamplesOf(a + [0])| != |SamplesOf(a) + SamplesOf([0])|;
    }
  }

  // ---------------------------------------------------------- lists of reads

  function EachRead(chunks: seq<seq<byte>>): seq<seq<int>> {
    seq(|chunks|, i requires 0 <= i < |chunks| => SamplesOf(chunks[i]))
  }

  /** These reads give the samples of the bytes they brought. */
  ghost predicate GiveStream(chunks: seq<seq<byte>>) {
    Flatten(EachRead(chunks)) == SamplesOf(Flatten(chunks))
  }

  ghost predicate OfLengths(chunks: seq<seq<byte>>, lengths: seq<nat>) {
    |chunks| == |lengths| && forall i :: 0 <= i < |chunks| ==> |chunks[i]| == lengths[i]
  }

  /** No read of odd length has a byte after it. */
  ghost predicate OddOnlyLast(lengths: seq<nat>) {
    forall i, j :: 0 <= i < j < |lengths| && lengths[i] % 2 == 1 ==> lengths[j] == 0
  }

  lemma FirstRead(chunks: seq<seq<byte>>)
    requires chunks != []
    ensures Flatten(EachRead(chunks)) == SamplesOf(chunks[0]) + Flatten(EachRead(chunks[1..]))
    ensures Flatten(chunks) == chunks[0] + Flatten(chunks[1..])
  {
    assert EachRead(chunks)[1..] == EachRead(chunks[1..]);
  }

  lemma {:induction false} NothingRead(chunks: seq<seq<byte>>)
    requires forall i :: 0 <= i < |chunks| ==> chunks[i] == []
    ensures Flatten(chunks) == [] && Flatten(EachRead(chunks)) == []
  {
    if chunks != [] {
      NothingRead(chunks[1..]);
      FirstRead(chunks);
    }
  }

  lemma {:induction false} ReadsGiveStream(chunks: seq<seq<byte>>, lengths: seq<nat>)
    requires OfLengths(chunks, lengths) && OddOnlyLast(lengths)
    ensures GiveStream(chunks)
    decreases |chunks|
  {
    hide SamplesOf;
    if chunks == [] {
      NothingSampled();
    } else {
      FirstRead(chunks);
      if lengths[0] % 2 == 0 {
        ReadsGiveStream(chunks[1..], lengths[1..]);
        EvenReadJoins(chunks[0], Flatten(chunks[1..]));
      } else {
        forall i | 0 <= i < |chunks[1..]|
          ensures chunks[1..][i] == []
        {
          assert lengths[i + 1] == 0;
        }
        NothingRead(chunks[1..]);
        assert chunks[0] + [] == chunks[0] && SamplesOf(chunks[0]) + [] == SamplesOf(chunks[0]);
      }
    }
  }

  lemma NothingSampled()
    ensures SamplesOf([]) == []
  {}

  ghost predicate AllZero(s: seq<int>) {
    forall i :: 0 <= i < |s| ==> s[i] == 0
  }

  lemma {:induction false} ZeroReads(chunks: seq<seq<byte>>)
    requires forall i :: 0 <= i < |chunks| ==> AllZero(SamplesOf(chunks[i]))
    ensures AllZero(Flatten(EachRead(chunks)))
  {
    hide SamplesOf;
    if chunks != [] {
      ZeroReads(chunks[1..]);
      FirstRead(chunks);
    }
  }

  function ZeroBytes(n: nat): seq<byte> {
    Zeros(n)
  }

  function ZeroesOf(lengths: seq<nat>): (c: seq<seq<byte>>)
    ensures |c| == |lengths|
  {
    seq(|lengths|, i requires 0 <= i < |lengths| => ZeroBytes(lengths[i]))
  }

  lemma {:induction false} ZeroesFlat(lengths: seq<nat>, j: nat)
    requires j < |lengths| && lengths[j] > 0
    ensures |Flatten(ZeroesOf(lengths))| > 0 && Flatten(ZeroesOf(lengths))[0] == 0
  {
    var chunks := ZeroesOf(lengths);
    assert chunks[1..] == ZeroesOf(lengths[1..]);
    if lengths[0] == 0 {
      ZeroesFlat(lengths[1..], j - 1);
    }
  }

  /** An odd read with a byte after it: its last byte, a one, is in the stream but in none
      of the samples got. */
  lemma {:induction false} TornReads(lengths: seq<nat>, i: nat, j: nat) returns (chunks: seq<seq<byte>>)
    requires i < j < |lengths| && lengths[i] % 2 == 1 && lengths[j] > 0
    ensures OfLengths(chunks, lengths) && !GiveStream(chunks)
    decreases |lengths|
  {
    hide SamplesOf;
    var first, rest := lengths[0], lengths[1..];
    if first % 2 == 0 {
      var more := TornReads(rest, i - 1, j - 1);
      chunks := [ZeroBytes(first)] + more;
      FirstRead(chunks);
      assert chunks[1..] == more;
      EvenReadJoins(chunks[0], Flatten(more));
      assert (SamplesOf(chunks[0]) + SamplesOf(Flatten(more)))[|SamplesOf(chunks[0])|..] == SamplesOf(Flatten(more));
      assert (SamplesOf(chunks[0]) + Flatten(EachRead(more)))[|SamplesOf(chunks[0])|..] == Flatten(EachRead(more));
    } else {
      var odd, more := ZeroBytes(first - 1) + [1], ZeroesOf(rest);
      chunks := [odd] + more;
      assert chunks[1..] == more;
      FirstRead(chunks);
      ZeroesFlat(rest, j - 1);
      OddReadHidesOne(first, Flatten(more));
      forall k | 0 <= k < |chunks|
        ensures AllZero(SamplesOf(chunks[k]))
      {
        if k > 0 { ZeroSamples(rest[k - 1]); }
      }
      ZeroReads(chunks);
      assert SamplesOf(Flatten(chunks))[(first - 1) / 2] == 1;
    }
  }

  lemma ZeroSamples(n: nat)
    ensures AllZero(SamplesOf(ZeroBytes(n)))
  {}

  lemma OddReadHidesOne(n: nat, after: seq<byte>)
    requires n % 2 == 1 && |after| > 0 && after[0] == 0
    ensures var odd := ZeroBytes(n - 1) + [1];
      && AllZero(SamplesOf(odd))
      && (n - 1) / 2 < |SamplesOf(odd + after)| && SamplesOf(odd + after)[(n - 1) / 2] == 1
  {
    var odd, h := ZeroBytes(n - 1) + [1], (n - 1) / 2;
    assert n == 2 * h + 1;
    forall i | 0 <= i < |SamplesOf(odd)|
      ensures SamplesOf(odd)[i] == 0
    {
      assert odd[2 * i] == 0 && odd[2 * i + 1] == 0;
    }
    var stream := odd + after;
    assert stream[2 * h] == 1 && stream[2 * h + 1] == after[0];
  }

  ghost predicate AlwaysGiveStream(lengths: seq<nat>) {
    forall chunks: seq<seq<byte>> :: OfLengths(chunks, lengths) ==> GiveStream(chunks)
  }

  /** Reads of given lengths give the samples of the stream, whatever the bytes, if and
      only if every read of odd length has no byte after it. */
  lemma ReadsGiveStreamIff(lengths: seq<nat>)
    ensures AlwaysGiveStream(lengths) <==> OddOnlyLast(lengths)
  {
    hide GiveStream, OfLengths;
    if OddOnlyLast(lengths) {
      forall chunks: seq<seq<byte>> | OfLengths(chunks, lengths)
        ensures GiveStream(chunks)
      {
        ReadsGiveStream(chunks, lengths);
      }
    } else {
      var i, j :| 0 <= i < j < |lengths| && lengths[i] % 2 == 1 && lengths[j] != 0;
      var chunks := TornReads(lengths, i, j);
    }
  }
}
