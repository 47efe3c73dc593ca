/** Model of `wav_to_mp3/src/mp3_encode_i16.rs`: the channel splitter that
    demultiplexes the interleaved 16-bit sample stream, the two encoder
    wrappers, and `from_reader`, which stages a left, a right and a joint-stereo
    MP3 for a stereo input.

    The LAME encoder and its `max_required_buffer_size` formula are foreign: they
    are the two fields of a `Codec` value passed in. Staging storage is a map
    from path to file contents. */
module Mp3Encode {

  import opened Wrappers
  import opened Errors
  import opened StdPath
  import opened Text

  newtype i16 = x: int | -0x8000 <= x < 0x8000
  newtype u16 = x: int | 0 <= x < 0x1_0000
  newtype u32 = x: int | 0 <= x < 0x1_0000_0000
  newtype byte = x: int | 0 <= x < 0x100

  /** The header fields the pipeline reads from `hound::WavSpec`. */
  datatype WavSpec = WavSpec(sampleRate: u32, channels: u16, bitsPerSample: u16)

  /** One item of `into_samples::<i16>()`: a decoded sample, or `None` for a
      sample the container reader failed to decode. */
  type Sample = Option<i16>

  /** What a `hound::WavReader` offers once constructed: the parsed header
      (`None` when `WavReader::new` fails) and the sample stream after it. */
  datatype WavStream = WavStream(header: Option<WavSpec>, samples: seq<Sample>)

  // ---------------------------------------------------------------------------
  // Channel splitter

  datatype Side = Left | Right

  /** The side the parity flag assigns to stream position `k` (0-based): the flag
      starts false and is flipped before each sample is looked at, so it is true
      exactly at even positions. */
  function SideOf(k: nat): Side {
    if k % 2 == 0 then Left else Right
  }

  /** The samples the splitter pushes onto `side`: the successfully decoded
      samples at that side's positions, in stream order. */
  function ChannelSamples(s: seq<Sample>, side: Side): (r: seq<i16>)
    ensures |r| <= |s|
    decreases |s|
  {
    if s == [] then []
    else
      var k := |s| - 1;
      ChannelSamples(s[..k], side) + (if SideOf(k) == side && s[k].Some? then [s[k].value] else [])
  }

  /** The stream positions `ChannelSamples` takes its samples from. */
  function Positions(s: seq<Sample>, side: Side): seq<nat>
    decreases |s|
  {
    if s == [] then []
    else
      var k := |s| - 1;
      Positions(s[..k], side) + (if SideOf(k) == side && s[k].Some? then [k] else [])
  }

  /** Number of successfully decoded samples in the stream. */
  function CountOk(s: seq<Sample>): nat
    decreases |s|
  {
    if s == [] then 0 else CountOk(s[..|s| - 1]) + (if s[|s| - 1].Some? then 1 else 0)
  }

  /** The stream a stereo container produces for the frames `(ls[i], rs[i])`
      with no decode failures. */
  function Interleave(ls: seq<i16>, rs: seq<i16>): (r: seq<Sample>)
    requires |ls| == |rs|
    ensures |r| == 2 * |ls|
    decreases |ls|
  {
    if ls == [] then []
    else
      var n := |ls| - 1;
      Interleave(ls[..n], rs[..n]) + [Some(ls[n]), Some(rs[n])]
  }

  /** The loop of `from_reader`: flip `is_left`, skip a failed sample, push a
      good one onto the side the flag names. */
  method SplitChannels(samples: seq<Sample>) returns (left: seq<i16>, right: seq<i16>)
    ensures left == ChannelSamples(samples, Left)
    ensures right == ChannelSamples(samples, Right)
  {
    left, right := [], [];
    var isLeft := false;
    for i := 0 to |samples|
      invariant isLeft <==> i % 2 == 1
      invariant left == ChannelSamples(samples[..i], Left)
      invariant right == ChannelSamples(samples[..i], Right)
    {
      assert samples[..i + 1][..i] == samples[..i];
      isLeft := !isLeft;
      if samples[i].None? {
        continue;
      }
      var sample := samples[i].value;
      if isLeft {
        left := left + [sample];
      } else {
        right := right + [sample];
      }
    }
    assert samples[..|samples|] == samples;
  }

  /** Each channel is the subsequence of the stream made of the successfully
      decoded samples at that channel's parity positions: a failed sample still
      uses up its position, and order is kept. */
  lemma {:induction false} ChannelIsParitySubsequence(s: seq<Sample>, side: Side)
    ensures |Positions(s, side)| == |ChannelSamples(s, side)|
    ensures forall j :: 0 <= j < |Positions(s, side)| ==>
      Positions(s, side)[j] < |s| && SideOf(Positions(s, side)[j]) == side &&
      s[Positions(s, side)[j]].Some? &&
      ChannelSamples(s, side)[j] == s[Positions(s, side)[j]].value
    ensures forall j, j' :: 0 <= j < j' < |Positions(s, side)| ==>
      Positions(s, side)[j] < Positions(s, side)[j']
    decreases |s|
  {
    if s != [] {
      var n := |s| - 1;
      var init := s[..n];
      ChannelIsParitySubsequence(init, side);
      var p, c := Positions(s, side), ChannelSamples(s, side);
      var p', c' := Positions(init, side), ChannelSamples(init, side);
      var taken := SideOf(n) == side && s[n].Some?;
      assert p == p' + (if taken then [n] else []);
      assert c == c' + (if taken then [s[n].value] else []);
      forall j | 0 <= j < |p'|
        ensures p[j] == p'[j] && c[j] == c'[j] && s[p[j]] == init[p'[j]]
      {
      }
    }
  }

  /** No successfully decoded sample at a channel's positions is missed. */
  lemma {:induction false} ChannelKeepsEveryGoodSample(s: seq<Sample>, side: Side)
    ensures forall k :: 0 <= k < |s| && SideOf(k) == side && s[k].Some? ==>
      k in Positions(s, side)
    decreases |s|
  {
    if s != [] {
      var n := |s| - 1;
      var init := s[..n];
      ChannelKeepsEveryGoodSample(init, side);
      var p, p' := Positions(s, side), Positions(init, side);
      assert p == p' + (if SideOf(n) == side && s[n].Some? then [n] else []);
      forall k | 0 <= k < |s| && SideOf(k) == side && s[k].Some?
        ensures k in p
      {
        if k < n {
          assert init[k] == s[k];
          assert k in p';
        }
      }
    }
  }

  /** Every successfully decoded sample lands on exactly one side; failed ones
      are dropped, not replaced. */
  lemma {:induction false} ChannelCounts(s: seq<Sample>)
    ensures |ChannelSamples(s, Left)| + |ChannelSamples(s, Right)| == CountOk(s)
    decreases |s|
  {
    if s != [] {
      ChannelCounts(s[..|s| - 1]);
    }
  }

  /** With no failed sample, the left side gets the rounded-up half of the
      stream and the right side the rounded-down half. */
  lemma {:induction false} ChannelBalance(s: seq<Sample>)
    requires forall k :: 0 <= k < |s| ==> s[k].Some?
    ensures |ChannelSamples(s, Left)| == (|s| + 1) / 2
    ensures |ChannelSamples(s, Right)| == |s| / 2
    ensures 0 <= |ChannelSamples(s, Left)| - |ChannelSamples(s, Right)| <= 1
    decreases |s|
  {
    if s != [] {
      var init := s[..|s| - 1];
      assert forall k :: 0 <= k < |init| ==> init[k] == s[k];
      ChannelBalance(init);
    }
  }

  /** Once samples fail the balance is gone: one good sample on each even
      position and a failure on each odd one fills only the left side. */
  lemma FailuresBreakBalance(a: i16, b: i16)
    ensures ChannelSamples([Some(a), None, Some(b), None], Left) == [a, b]
    ensures ChannelSamples([Some(a), None, Some(b), None], Right) == []
  {
    var s1: seq<Sample> := [Some(a)];
    var s2, s3 := s1 + [None], s1 + [None] + [Some(b)];
    ChannelStep([], Some(a));
    ChannelStep(s1, None);
    ChannelStep(s2, Some(b));
    ChannelStep(s3, None);
    assert [] + [Some(a)] == s1;
    assert s3 + [None] == [Some(a), None, Some(b), None];
  }

  /** Pushing one more stream item: the splitter's step. */
  lemma ChannelStep(s: seq<Sample>, e: Sample)
    ensures ChannelSamples(s + [e], Left) ==
      ChannelSamples(s, Left) + (if SideOf(|s|) == Left && e.Some? then [e.value] else [])
    ensures ChannelSamples(s + [e], Right) ==
      ChannelSamples(s, Right) + (if SideOf(|s|) == Right && e.Some? then [e.value] else [])
  {
    assert (s + [e])[..|s|] == s;
  }

  /** Splitting undoes interleaving: frames `(ls[i], rs[i])` come back out as the
      left and right channels. */
  lemma {:induction false} SplitUndoesInterleave(ls: seq<i16>, rs: seq<i16>)
    requires |ls| == |rs|
    ensures ChannelSamples(Interleave(ls, rs), Left) == ls
    ensures ChannelSamples(Interleave(ls, rs), Right) == rs
    decreases |ls|
  {
    if ls != [] {
      var n := |ls| - 1;
      var x := Interleave(ls[..n], rs[..n]);
      SplitUndoesInterleave(ls[..n], rs[..n]);
      ChannelFrameStep(x, ls[n], rs[n]);
      assert ls == ls[..n] + [ls[n]];
      assert rs == rs[..n] + [rs[n]];
    }
  }

  /** One whole frame after an even-length stream: its first sample goes
      left and its second right. */
  lemma ChannelFrameStep(x: seq<Sample>, a: i16, b: i16)
    requires |x| % 2 == 0
    ensures ChannelSamples(x + [Some(a), Some(b)], Left) == ChannelSamples(x, Left) + [a]
    ensures ChannelSamples(x + [Some(a), Some(b)], Right) == ChannelSamples(x, Right) + [b]
  {
    var y := x + [Some(a)];
    var z := y + [Some(b)];
    assert z == x + [Some(a), Some(b)];
    FrameSides(|x|);
    assert ChannelSamples(y, Left) == ChannelSamples(x, Left) + [a] && ChannelSamples(y, Right) == ChannelSamples(x, Right) by {
      ChannelStep(x, Some(a));
    }
    assert ChannelSamples(z, Left) == ChannelSamples(y, Left) && ChannelSamples(z, Right) == ChannelSamples(y, Right) + [b] by {
      assert |y| == |x| + 1;
      ChannelStep(y, Some(b));
    }
  }

  /** A frame starting at an even position spans a left and a right position. */
  lemma FrameSides(n: nat)
    requires n % 2 == 0
    ensures SideOf(n) == Left && SideOf(n + 1) == Right
  {
  }

  /** The stereo scenario of four frames L0,R0,...,L3,R3. */
  lemma FourFrameScenario(l0: i16, l1: i16, l2: i16, l3: i16, r0: i16, r1: i16, r2: i16, r3: i16)
    ensures var s := [Some(l0), Some(r0), Some(l1), Some(r1), Some(l2), Some(r2), Some(l3), Some(r3)];
      ChannelSamples(s, Left) == [l0, l1, l2, l3] && ChannelSamples(s, Right) == [r0, r1, r2, r3]
  {
    var ls, rs := [l0, l1, l2, l3], [r0, r1, r2, r3];
    assert Interleave([l0], [r0]) == [Some(l0), Some(r0)] by {
      assert [l0][..0] == [] && [r0][..0] == [];
    }
    assert Interleave([l0, l1], [r0, r1]) == [Some(l0), Some(r0), Some(l1), Some(r1)] by {
      assert [l0, l1][..1] == [l0] && [r0, r1][..1] == [r0];
    }
    assert Interleave([l0, l1, l2], [r0, r1, r2]) == [Some(l0), Some(r0), Some(l1), Some(r1), Some(l2), Some(r2)] by {
      assert [l0, l1, l2][..2] == [l0, l1] && [r0, r1, r2][..2] == [r0, r1];
    }
    assert ls[..3] == [l0, l1, l2] && rs[..3] == [r0, r1, r2];
    assert Interleave(ls, rs) == [Some(l0), Some(r0), Some(l1), Some(r1), Some(l2), Some(r2), Some(l3), Some(r3)];
    SplitUndoesInterleave(ls, rs);
  }

  // ---------------------------------------------------------------------------
  // Encoder wrappers

  /** The PCM buffers handed to the encoder: one channel, or two. */
  datatype Pcm = MonoPcm(samples: seq<i16>) | DualPcm(left: seq<i16>, right: seq<i16>)

  /** One `build_mp3_encoder(rate, channels)` + `encode_to_vec(pcm, buffer)` call,
      with the capacity reserved in `buffer` beforehand. */
  datatype EncodeCall = EncodeCall(sampleRate: u32, channels: nat, pcm: Pcm, reserved: nat)

  /** What the encoder leaves behind: the bytes in the output buffer and the
      count `encode_to_vec` reports. */
  datatype Encoded = Encoded(written: seq<byte>, count: nat)

  /** The foreign encoder: `encode` is `None` when building the encoder or
      encoding fails (each an `expect` in the source). */
  datatype Codec = Codec(encode: EncodeCall -> Option<Encoded>, maxRequiredBufferSize: nat -> nat)

  function MonoCall(codec: Codec, sampleRate: u32, samples: seq<i16>): EncodeCall {
    EncodeCall(sampleRate, 1, MonoPcm(samples), codec.maxRequiredBufferSize(|samples|))
  }

  function StereoCall(codec: Codec, sampleRate: u32, left: seq<i16>, right: seq<i16>): EncodeCall {
    EncodeCall(sampleRate, 2, DualPcm(left, right), codec.maxRequiredBufferSize(|left| + |right|))
  }

  /** `Vec::from(&output_buffer[..encoded])`: the first `encoded` bytes, a panic
      (here an error) if the count runs past the buffer. */
  function TakeEncoded(out: Option<Encoded>): Result<seq<byte>, Error> {
    match out
    case None => Err(EncodeFailed)
    case Some(e) => if e.count <= |e.written| then Ok(e.written[..e.count]) else Err(EncodeFailed)
  }

  /** `encode_mono_mp3`. */
  function EncodeMono(codec: Codec, sampleRate: u32, samples: seq<i16>): Result<seq<byte>, Error> {
    TakeEncoded(codec.encode(MonoCall(codec, sampleRate, samples)))
  }

  /** `encode_stereo_mp3`. */
  function EncodeStereo(codec: Codec, sampleRate: u32, left: seq<i16>, right: seq<i16>): Result<seq<byte>, Error> {
    TakeEncoded(codec.encode(StereoCall(codec, sampleRate, left, right)))
  }

  /** The facts at the encoder call sites: a one-channel encoder for one buffer,
      a two-channel encoder for both; the reservation sized from the input's
      sample count (for the joint encode: every successfully decoded sample of
      the stream). */
  lemma EncoderCallSites(codec: Codec, sampleRate: u32, s: seq<Sample>)
    ensures var left, right := ChannelSamples(s, Left), ChannelSamples(s, Right);
      && MonoCall(codec, sampleRate, left).channels == 1
      && MonoCall(codec, sampleRate, left).pcm == MonoPcm(left)
      && MonoCall(codec, sampleRate, left).reserved == codec.maxRequiredBufferSize(|left|)
      && StereoCall(codec, sampleRate, left, right).channels == 2
      && StereoCall(codec, sampleRate, left, right).pcm == DualPcm(left, right)
      && StereoCall(codec, sampleRate, left, right).reserved == codec.maxRequiredBufferSize(CountOk(s))
  {
    ChannelCounts(s);
  }

  /** Both wrappers return exactly the first `encoded` bytes the encoder
      reports, and fail when the encoder fails or reports more bytes than it
      wrote. */
  lemma EncodedPrefix(codec: Codec, sampleRate: u32, left: seq<i16>, right: seq<i16>)
    ensures var out := codec.encode(MonoCall(codec, sampleRate, left));
      var r := EncodeMono(codec, sampleRate, left);
      && (r.Ok? <==> out.Some? && out.value.count <= |out.value.written|)
      && (r.Ok? ==> r.value == out.value.written[..out.value.count] && |r.value| == out.value.count)
      && (r.Err? ==> r.error == EncodeFailed)
    ensures var out := codec.encode(StereoCall(codec, sampleRate, left, right));
      var r := EncodeStereo(codec, sampleRate, left, right);
      && (r.Ok? <==> out.Some? && out.value.count <= |out.value.written|)
      && (r.Ok? ==> r.value == out.value.written[..out.value.count] && |r.value| == out.value.count)
      && (r.Err? ==> r.error == EncodeFailed)
  {
  }

  // ---------------------------------------------------------------------------
  // Output naming and staging

  /** Staging storage: the files written so far, by path. */
  type Staging = map<Path, seq<byte>>

  /** `std::fs::write(path, bytes).unwrap()`: fails (a panic in the source) when
      the path cannot name a regular file; other I/O failures are not modelled. */
  function Write(fs: Staging, path: Path, bytes: seq<byte>): Result<Staging, Error> {
    if IsFilePath(path) then Ok(fs[path := bytes]) else Err(WriteFailed(path))
  }

  const Mp3Extension := "mp3"

  /** `out_dir.join(Path::new(&format!("{base_name}-left")).with_extension("mp3"))` */
  function LeftOutput(outDir: Path, base: string): Path
    requires Separator !in base
  {
    Join(outDir, WithExtension(base + "-left", Mp3Extension))
  }

  /** `out_dir.join(Path::new(&format!("{base_name}-right")).with_extension("mp3"))` */
  function RightOutput(outDir: Path, base: string): Path
    requires Separator !in base
  {
    Join(outDir, WithExtension(base + "-right", Mp3Extension))
  }

  /** `out_dir.join(Path::new(base_name).with_extension("mp3"))` */
  function StereoOutput(outDir: Path, base: string): Path
    requires Separator !in base
  {
    Join(outDir, WithExtension(base, Mp3Extension))
  }

  /** The three staged files and the storage after writing them. */
  datatype Staged = Staged(files: seq<Path>, staging: Staging)

  /** Encode the left channel, the right channel and both together, writing each
      to its path in that order; the first failure stops everything. Shared by
      both copies of `from_reader`, which differ only in the paths. */
  function EncodeAndWrite(codec: Codec, sampleRate: u32, left: seq<i16>, right: seq<i16>,
                          leftMp3: Path, rightMp3: Path, stereoMp3: Path, fs: Staging): Result<Staging, Error>
  {
    var leftBytes :- EncodeMono(codec, sampleRate, left);
    var fs1 :- Write(fs, leftMp3, leftBytes);
    var rightBytes :- EncodeMono(codec, sampleRate, right);
    var fs2 :- Write(fs1, rightMp3, rightBytes);
    var stereoBytes :- EncodeStereo(codec, sampleRate, left, right);
    Write(fs2, stereoMp3, stereoBytes)
  }

  /** What `from_reader` does with a reader over `spec` and `samples`. */
  function Transcode(spec: WavSpec, samples: seq<Sample>, outDir: Path, base: string,
                     codec: Codec, fs: Staging): Result<Staged, Error>
    requires Separator !in base
  {
    if spec.channels != 2 then Err(UnsupportedChannels(spec.channels as int))
    else
      var leftMp3, rightMp3, stereoMp3 := LeftOutput(outDir, base), RightOutput(outDir, base), StereoOutput(outDir, base);
      var staging :- EncodeAndWrite(codec, spec.sampleRate,
                                    ChannelSamples(samples, Left), ChannelSamples(samples, Right),
                                    leftMp3, rightMp3, stereoMp3, fs);
      Ok(Staged([leftMp3, rightMp3, stereoMp3], staging))
  }

  /** The body of `from_reader` after the split: encode the left channel, write
      it, encode the right channel, write it, encode both, write that; any
      failure (a panic in the source) ends the run. */
  method WriteChannels(codec: Codec, sampleRate: u32, left: seq<i16>, right: seq<i16>,
                       leftMp3: Path, rightMp3: Path, stereoMp3: Path, fs: Staging)
    returns (r: Result<Staging, Error>)
    ensures r == EncodeAndWrite(codec, sampleRate, left, right, leftMp3, rightMp3, stereoMp3, fs)
  {
    var leftBuffer := EncodeMono(codec, sampleRate, left);
    if leftBuffer.Err? {
      return Err(leftBuffer.error);
    }
    var written := Write(fs, leftMp3, leftBuffer.value);
    if written.Err? {
      return Err(written.error);
    }
    var staging := written.value;

    var rightBuffer := EncodeMono(codec, sampleRate, right);
    if rightBuffer.Err? {
      return Err(rightBuffer.error);
    }
    written := Write(staging, rightMp3, rightBuffer.value);
    if written.Err? {
      return Err(written.error);
    }
    staging := written.value;

    var stereoBuffer := EncodeStereo(codec, sampleRate, left, right);
    if stereoBuffer.Err? {
      return Err(stereoBuffer.error);
    }
    r := Write(staging, stereoMp3, stereoBuffer.value);
  }

  /** `from_reader`: one channel or more than two is `unimplemented!()`; for two,
      split the stream, then encode and write left, right and joint stereo,
      returning the three paths in that order. */
  method FromReader(spec: WavSpec, samples: seq<Sample>, outDir: Path, base: string,
                    codec: Codec, fs: Staging) returns (r: Result<Staged, Error>)
    requires Separator !in base
    ensures r == Transcode(spec, samples, outDir, base, codec, fs)
  {
    if spec.channels == 1 {
      return Err(UnsupportedChannels(1));
    } else if spec.channels != 2 {
      return Err(UnsupportedChannels(spec.channels as int));
    }
    var leftMp3 := LeftOutput(outDir, base);
    var rightMp3 := RightOutput(outDir, base);
    var left, right := SplitChannels(samples);
    var stereoMp3 := StereoOutput(outDir, base);
    var written := WriteChannels(codec, spec.sampleRate, left, right, leftMp3, rightMp3, stereoMp3, fs);
    if written.Err? {
      return Err(written.error);
    }
    var results := [leftMp3, rightMp3, stereoMp3];
    r := Ok(Staged(results, written.value));
  }

  // ---------------------------------------------------------------------------
  // Properties of `from_reader`

  /** When the three encodes succeed into three distinct writable paths, each
      path holds its own encoding and nothing else in storage changes; a
      failure anywhere leaves no result. */
  lemma {:induction false} EncodeAndWriteOutcome(codec: Codec, sampleRate: u32, left: seq<i16>, right: seq<i16>,
                                                 leftMp3: Path, rightMp3: Path, stereoMp3: Path, fs: Staging)
    ensures var r := EncodeAndWrite(codec, sampleRate, left, right, leftMp3, rightMp3, stereoMp3, fs);
      r.Ok? <==>
        && EncodeMono(codec, sampleRate, left).Ok? && EncodeMono(codec, sampleRate, right).Ok?
        && EncodeStereo(codec, sampleRate, left, right).Ok?
        && IsFilePath(leftMp3) && IsFilePath(rightMp3) && IsFilePath(stereoMp3)
    ensures var r := EncodeAndWrite(codec, sampleRate, left, right, leftMp3, rightMp3, stereoMp3, fs);
      r.Ok? ==>
        && r.value.Keys == fs.Keys + {leftMp3, rightMp3, stereoMp3}
        && r.value[stereoMp3] == EncodeStereo(codec, sampleRate, left, right).value
        && (rightMp3 != stereoMp3 ==> r.value[rightMp3] == EncodeMono(codec, sampleRate, right).value)
        && (leftMp3 != rightMp3 && leftMp3 != stereoMp3 ==>
              r.value[leftMp3] == EncodeMono(codec, sampleRate, left).value)
        && (forall p :: p in fs && p != leftMp3 && p != rightMp3 && p != stereoMp3 ==> r.value[p] == fs[p])
  {
  }

  /** For a stereo stream, `from_reader` returns exactly three paths, left,
      right, joint stereo, in that order, and stages the two channel encodings
      and the joint one; any other channel count is refused. */
  lemma TranscodeResults(spec: WavSpec, samples: seq<Sample>, outDir: Path, base: string, codec: Codec, fs: Staging)
    requires Separator !in base
    ensures spec.channels != 2 ==>
      Transcode(spec, samples, outDir, base, codec, fs) == Err(UnsupportedChannels(spec.channels as int))
    ensures var r := Transcode(spec, samples, outDir, base, codec, fs);
      r.Ok? ==>
        && spec.channels == 2
        && r.value.files == [LeftOutput(outDir, base), RightOutput(outDir, base), StereoOutput(outDir, base)]
        && (forall p :: p in r.value.files ==> p in r.value.staging)
        && EncodeStereo(codec, spec.sampleRate, ChannelSamples(samples, Left), ChannelSamples(samples, Right)).Ok?
        && r.value.staging[StereoOutput(outDir, base)] ==
             EncodeStereo(codec, spec.sampleRate, ChannelSamples(samples, Left), ChannelSamples(samples, Right)).value
  {
    if spec.channels == 2 {
      EncodeAndWriteOutcome(codec, spec.sampleRate, ChannelSamples(samples, Left), ChannelSamples(samples, Right),
                            LeftOutput(outDir, base), RightOutput(outDir, base), StereoOutput(outDir, base), fs);
    }
  }

  /** A non-empty base name without a dot gives the names `base-left.mp3`,
      `base-right.mp3` and `base.mp3` under `out_dir`. */
  lemma DotlessOutputNames(outDir: Path, base: string)
    requires Separator !in base && '.' !in base && base != ""
    ensures LeftOutput(outDir, base) == Join(outDir, base + "-left" + "." + Mp3Extension)
    ensures RightOutput(outDir, base) == Join(outDir, base + "-right" + "." + Mp3Extension)
    ensures StereoOutput(outDir, base) == Join(outDir, base + "." + Mp3Extension)
  {
    assert StereoOutput(outDir, base) == Join(outDir, base + "." + Mp3Extension) by {
      WithExtensionOfDotless(base, Mp3Extension);
    }
    DotlessSuffixedName(base, "-left");
    DotlessSuffixedName(base, "-right");
  }

  /** A dotless base with a dotless suffix just gains `.mp3`. */
  lemma DotlessSuffixedName(base: string, suffix: string)
    requires Separator !in base && '.' !in base && Separator !in suffix && '.' !in suffix && suffix != ""
    ensures WithExtension(base + suffix, Mp3Extension) == base + suffix + "." + Mp3Extension
  {
    assert Separator !in base + suffix && '.' !in base + suffix;
    WithExtensionOfDotless(base + suffix, Mp3Extension);
  }

  /** Those three names are pairwise distinct. */
  lemma DotlessOutputsDistinct(outDir: Path, base: string)
    requires Separator !in base && '.' !in base && base != ""
    ensures LeftOutput(outDir, base) != RightOutput(outDir, base)
    ensures LeftOutput(outDir, base) != StereoOutput(outDir, base)
    ensures RightOutput(outDir, base) != StereoOutput(outDir, base)
  {
    var l, rt, st := base + "-left" + "." + Mp3Extension, base + "-right" + "." + Mp3Extension, base + "." + Mp3Extension;
    assert |l| == |base| + 9 && |rt| == |base| + 10 && |st| == |base| + 4;
    assert Separator !in l && Separator !in rt && Separator !in st;
    DotlessOutputNames(outDir, base);
    JoinInjective(outDir, l, rt);
    JoinInjective(outDir, l, st);
    JoinInjective(outDir, rt, st);
  }

  /** With a non-empty dotless base name a successful run keeps all three
      encodings, each under its own name. */
  lemma DistinctOutputs(spec: WavSpec, samples: seq<Sample>, outDir: Path, base: string, codec: Codec, fs: Staging)
    requires Separator !in base && '.' !in base && base != ""
    ensures var r := Transcode(spec, samples, outDir, base, codec, fs);
      var left, right := ChannelSamples(samples, Left), ChannelSamples(samples, Right);
      r.Ok? ==>
        && LeftOutput(outDir, base) in r.value.staging && RightOutput(outDir, base) in r.value.staging
        && StereoOutput(outDir, base) in r.value.staging
        && EncodeMono(codec, spec.sampleRate, left).Ok? && EncodeMono(codec, spec.sampleRate, right).Ok?
        && EncodeStereo(codec, spec.sampleRate, left, right).Ok?
        && r.value.staging[LeftOutput(outDir, base)] == EncodeMono(codec, spec.sampleRate, left).value
        && r.value.staging[RightOutput(outDir, base)] == EncodeMono(codec, spec.sampleRate, right).value
        && r.value.staging[StereoOutput(outDir, base)] == EncodeStereo(codec, spec.sampleRate, left, right).value
  {
    var left, right := ChannelSamples(samples, Left), ChannelSamples(samples, Right);
    var l, rt, st := LeftOutput(outDir, base), RightOutput(outDir, base), StereoOutput(outDir, base);
    assert l != rt && l != st && rt != st by {
      DotlessOutputsDistinct(outDir, base);
    }
    var r := Transcode(spec, samples, outDir, base, codec, fs);
    if r.Ok? {
      var written := EncodeAndWrite(codec, spec.sampleRate, left, right, l, rt, st, fs);
      assert written.Ok? && r.value.staging == written.value;
      EncodeAndWriteOutcome(codec, spec.sampleRate, left, right, l, rt, st, fs);
    }
  }

  /** A base name with a dot after its first character (`a.b`) makes
      `with_extension` cut all three names at that dot: left, right and joint
      stereo are one path, and after a successful run it holds only the joint
      stereo encoding. */
  lemma DottedBaseCollapsesOutputs(spec: WavSpec, samples: seq<Sample>, outDir: Path, base: string, codec: Codec, fs: Staging)
    requires Separator !in base && HasInnerDot(base) && base != ".."
    ensures LeftOutput(outDir, base) == RightOutput(outDir, base) == StereoOutput(outDir, base)
    ensures var r := Transcode(spec, samples, outDir, base, codec, fs);
      r.Ok? ==>
        && LeftOutput(outDir, base) in r.value.staging
        && EncodeStereo(codec, spec.sampleRate, ChannelSamples(samples, Left), ChannelSamples(samples, Right)).Ok?
        && r.value.staging[LeftOutput(outDir, base)] ==
          EncodeStereo(codec, spec.sampleRate, ChannelSamples(samples, Left), ChannelSamples(samples, Right)).value
  {
    WithExtensionAfterSuffix(base, "-left", Mp3Extension);
    WithExtensionAfterSuffix(base, "-right", Mp3Extension);
    InnerDotIsLastDot(base);
    assert WithExtension(base, Mp3Extension) == base[..LastIndexOf(base, '.').value] + "." + Mp3Extension;
    TranscodeResults(spec, samples, outDir, base, codec, fs);
  }
}
