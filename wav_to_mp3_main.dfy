/** Model of `wav_to_mp3/src/main.rs`: the command-line converter. Its private
    copy of `from_reader` runs the same splitter and encoders as the library
    one (`Mp3Encode`), returns nothing, and names the joint-stereo file by
    plain concatenation instead of `with_extension`. `main` takes the input
    path from the first argument and writes the outputs beside it. */
module WavToMp3 {

  import opened Wrappers
  import opened Errors
  import opened Text
  import opened StdPath
  import opened Mp3Encode

  /** `out_dir.join(format!("{base_name}.mp3"))` */
  function StereoOutputByFormat(outDir: Path, base: string): Path {
    Join(outDir, base + "." + Mp3Extension)
  }

  /** What this copy of `from_reader` leaves in staging storage. */
  function Transcode(spec: WavSpec, samples: seq<Sample>, outDir: Path, base: string,
                     codec: Codec, fs: Staging): Result<Staging, Error>
    requires Separator !in base
  {
    if spec.channels != 2 then Err(UnsupportedChannels(spec.channels as int))
    else
      EncodeAndWrite(codec, spec.sampleRate, ChannelSamples(samples, Left), ChannelSamples(samples, Right),
                     LeftOutput(outDir, base), RightOutput(outDir, base), StereoOutputByFormat(outDir, base), fs)
  }

  /** `mp3_encode_i16::from_reader` as written in main.rs. */
  method FromReader(spec: WavSpec, samples: seq<Sample>, outDir: Path, base: string,
                    codec: Codec, fs: Staging) returns (r: Result<Staging, Error>)
    requires Separator !in base
    ensures r == Transcode(spec, samples, outDir, base, codec, fs)
  {
    if spec.channels == 1 {
      return Err(UnsupportedChannels(1));
    } else if spec.channels != 2 {
      return Err(UnsupportedChannels(spec.channels as int));
    }
    var leftMp3 := LeftOutput(outDir, base);
    var rightMp3 := RightOutput(outDir, base);
    var stereoMp3 := StereoOutputByFormat(outDir, base);
    var left, right := SplitChannels(samples);
    r := WriteChannels(codec, spec.sampleRate, left, right, leftMp3, rightMp3, stereoMp3, fs);
  }

  /** The file stem of the input: the base name of every output. */
  function InputBase(path: Path): (r: string)
    requires PlainPath(path)
    ensures r != "" && Separator !in r
  {
    PlainPathRoundTrip(path);
    FileStem(FinalComponent(path))
  }

  /** `main`: the first argument names the input; the outputs go to its parent
      directory under its file stem; only 16 bits per sample is implemented.
      `open` stands for opening the file and constructing the `WavReader` over
      it (`None`: the file cannot be opened). */
  function Main(arg: Option<string>, open: Path -> Option<WavStream>, codec: Codec, fs: Staging): Result<Staging, Error>
    requires arg.Some? ==> PlainPath(arg.value)
  {
    if arg.None? then Err(MissingArgument)
    else
      var path := arg.value;
      match open(path)
      case None => Err(OpenFailed(path))
      case Some(stream) =>
        var baseName := InputBase(path);
        var out := Parent(path);
        match stream.header
        case None => Err(HeaderInvalid)
        case Some(spec) =>
          if spec.bitsPerSample == 16 then Transcode(spec, stream.samples, out, baseName, codec, fs)
          else Err(UnsupportedBitDepth(spec.bitsPerSample as int))
  }

  // ---------------------------------------------------------------------------
  // Properties

  /** The `-left` and `-right` names coincide exactly when the base name has a
      dot after its first character: `with_extension` then cuts both at that
      dot. */
  lemma LeftRightCollideIffInnerDot(outDir: Path, base: string)
    requires Separator !in base
    ensures LeftOutput(outDir, base) == RightOutput(outDir, base) <==> HasInnerDot(base)
  {
    WithExtensionAfterSuffix(base, "-left", Mp3Extension);
    WithExtensionAfterSuffix(base, "-right", Mp3Extension);
    if !HasInnerDot(base) {
      var l, rt := base + "-left" + "." + Mp3Extension, base + "-right" + "." + Mp3Extension;
      assert |l| != |rt|;
      JoinInjective(outDir, l, rt);
    }
  }

  /** The concatenated stereo name keeps the whole base, so it never coincides
      with the left or the right output. */
  lemma StereoByFormatIsDistinct(outDir: Path, base: string)
    requires Separator !in base
    ensures StereoOutputByFormat(outDir, base) != LeftOutput(outDir, base)
    ensures StereoOutputByFormat(outDir, base) != RightOutput(outDir, base)
  {
    var st := base + "." + Mp3Extension;
    WithExtensionAfterSuffix(base, "-left", Mp3Extension);
    WithExtensionAfterSuffix(base, "-right", Mp3Extension);
    var l, rt := WithExtension(base + "-left", Mp3Extension), WithExtension(base + "-right", Mp3Extension);
    assert Separator !in l && Separator !in rt by {
      if HasInnerDot(base) {
        var k := LastIndexOf(base, '.').value;
        assert base[..k] == base[..|base|][..k];
      }
    }
    assert |l| != |st| && |rt| != |st|;
    JoinInjective(outDir, st, l);
    JoinInjective(outDir, st, rt);
  }

  /** With a dotted base name the right channel's file overwrites the left
      one's: after a successful run the shared path holds the right channel's
      encoding, and the joint stereo file sits apart under the full name. */
  lemma DottedBaseLosesLeftChannel(spec: WavSpec, samples: seq<Sample>, outDir: Path, base: string, codec: Codec, fs: Staging)
    requires Separator !in base && HasInnerDot(base)
    ensures var r := Transcode(spec, samples, outDir, base, codec, fs);
      r.Ok? ==>
        && LeftOutput(outDir, base) in r.value && StereoOutputByFormat(outDir, base) in r.value
        && EncodeMono(codec, spec.sampleRate, ChannelSamples(samples, Right)).Ok?
        && EncodeStereo(codec, spec.sampleRate, ChannelSamples(samples, Left), ChannelSamples(samples, Right)).Ok?
        && r.value[LeftOutput(outDir, base)] == EncodeMono(codec, spec.sampleRate, ChannelSamples(samples, Right)).value
        && r.value[StereoOutputByFormat(outDir, base)] ==
             EncodeStereo(codec, spec.sampleRate, ChannelSamples(samples, Left), ChannelSamples(samples, Right)).value
  {
    LeftRightCollideIffInnerDot(outDir, base);
    StereoByFormatIsDistinct(outDir, base);
    EncodeAndWriteOutcome(codec, spec.sampleRate, ChannelSamples(samples, Left), ChannelSamples(samples, Right),
                          LeftOutput(outDir, base), RightOutput(outDir, base), StereoOutputByFormat(outDir, base), fs);
  }

  /** A successful run had a 16-bit stereo input and wrote the three outputs
      into the input's directory, named from the input's file stem, leaving
      every other file as it was; other bit depths are refused. */
  lemma MainWritesBesideInput(path: Path, open: Path -> Option<WavStream>, codec: Codec, fs: Staging)
    requires PlainPath(path)
    ensures var r := Main(Some(path), open, codec, fs);
      && (open(path).Some? && open(path).value.header.Some? && open(path).value.header.value.bitsPerSample != 16 ==>
            r == Err(UnsupportedBitDepth(open(path).value.header.value.bitsPerSample as int)))
      && (r.Ok? ==>
            var base, out := InputBase(path), Parent(path);
            && open(path).Some? && open(path).value.header.Some?
            && open(path).value.header.value.bitsPerSample == 16
            && open(path).value.header.value.channels == 2
            && r.value.Keys == fs.Keys + {LeftOutput(out, base), RightOutput(out, base), StereoOutputByFormat(out, base)}
            && (forall p :: (p in fs && p != LeftOutput(out, base) && p != RightOutput(out, base) &&
                  p != StereoOutputByFormat(out, base)) ==> r.value[p] == fs[p]))
  {
    var base, out := InputBase(path), Parent(path);
    if open(path).Some? && open(path).value.header.Some? {
      var spec := open(path).value.header.value;
      var samples := open(path).value.samples;
      EncodeAndWriteOutcome(codec, spec.sampleRate, ChannelSamples(samples, Left), ChannelSamples(samples, Right),
                            LeftOutput(out, base), RightOutput(out, base), StereoOutputByFormat(out, base), fs);
    }
  }
}
