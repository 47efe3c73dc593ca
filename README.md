# mp3-magic-machine, modelled in Dafny

mp3-magic-machine turns uploaded WAV recordings into MP3 files:

- **`wav_to_mp3`** is a library and command-line tool. Its `from_reader` splits a 16-bit stereo stream into a left and a right channel. It then encodes each channel, and both together, with LAME, and writes three files named from a base name:
  - `<base>-left.mp3`
  - `<base>-right.mp3`
  - `<base>.mp3`
- **`magic_lambda`** is an AWS Lambda. It receives S3 notification records and fetches every referenced object. From the object's key it derives a base name (`key_last`) and transcodes the object into `/tmp`. Then it zips everything it staged into `/tmp/YYYY-MM-DD.zip` and uploads the archive to the project bucket as `mp3-magic-machine/archive/YYYY/MM-DD.zip`. The date is that of the last record's event time.

## Modules

The model has one module per source file:

| module | source file | what it models |
|---|---|---|
| `Mp3Encode` | `mp3_encode_i16.rs` | the channel splitter, the two encoder wrappers and `from_reader` |
| `WavToMp3` | `main.rs` | the second copy of `from_reader` and `main` |
| `EventHandler` | `event_handler.rs` | `key_last`, `handle_s3_object`, `compress_files` (a `ZipWriter` class updated in place) and `function_handler` |

Supporting modules:

- `Text` models the string operations the source gets from Rust: `split`, `rsplit`, `join` and `rfind`.
- `StdPath` models the part of Rust's `std::path` the names depend on: `join`, `with_extension`, `file_name`, `file_stem` and `parent`.
- `DateKey` models chrono's `%Y`, `%m` and `%d`, and the two names built from a date.

### How the outside world is represented

- **Foreign code is passed in as values.**
  - The LAME encoder and `max_required_buffer_size` are the fields of a `Codec`.
  - The parsed WAV header and its sample stream are a `WavStream`.
  - The S3 client is the pair of functions in `Services`.
  - The current time is the `now` parameter.
- **Files** are a staging map from path to bytes.
- **Panics** (`unwrap`, `expect`, `unimplemented!`) become `Err` results.

### Loops are methods proved against functions

Each loop of the source is a method proved equal to a function:

- `SplitChannels` is proved equal to `ChannelSamples`.
- `CompressFiles` is proved equal to `Compress`.
- The record loop in `FunctionHandler` is proved equal to `ProcessRecords` and `Invocation`.

The lemmas then state what those functions guarantee.

### Behaviours the proofs bring out

These follow from the code as written:

- **A dot inside the base name collapses the three outputs.** With a base name like `a.b`, `with_extension` cuts `a.b-left` and `a.b-right` at the dot. All three outputs of the library's `from_reader` become the same path, so only the joint-stereo encoding survives. In `main.rs` the left file is overwritten by the right one.
- **`key_last` reverses and concatenates the stem's dot-separated pieces.** `a.b.wav` gives `ba`.
- **A key whose `key_last` is empty fails.** Such keys include a last segment with no dot (`uploads/README`) and a last segment with only a leading dot (`x/.wav`). The empty base name makes the joint-stereo path `/tmp/`, which names the directory and cannot be written.
- **Two records with the same base name fail the invocation.** They stage the same paths, so the archive refuses the repeated entry name.

## Model

| member | source | states |
|---|---|---|
| Mp3Encode.SplitChannels | wav_to_mp3/src/mp3_encode_i16.rs:70-85 | The loop that flips `is_left` and skips failed samples yields exactly `ChannelSamples(samples, Left)` and `ChannelSamples(samples, Right)`. |
| Mp3Encode.ChannelIsParitySubsequence | wav_to_mp3/src/mp3_encode_i16.rs:73-85 | Each channel is the successfully decoded samples at that channel's parity positions, in stream order. Same length, elementwise equal, positions strictly increasing. |
| Mp3Encode.ChannelKeepsEveryGoodSample | wav_to_mp3/src/mp3_encode_i16.rs:73-85 | Every decoded sample at an even position (left) or odd position (right) is among the positions the channel takes. A failed sample still uses up its position. |
| Mp3Encode.ChannelCounts | wav_to_mp3/src/mp3_encode_i16.rs:74-84 | The two channels together hold exactly as many samples as decoded successfully. Failures are dropped, not replaced. |
| Mp3Encode.ChannelBalance | wav_to_mp3/src/mp3_encode_i16.rs:73-85 | With no decode failure, left gets the rounded-up half of the stream and right the rounded-down half. They differ by at most one. |
| Mp3Encode.FailuresBreakBalance | wav_to_mp3/src/mp3_encode_i16.rs:74-78 | Failures at odd positions leave the right channel empty while the left keeps its samples. The channels can drift apart. |
| Mp3Encode.ChannelStep | wav_to_mp3/src/mp3_encode_i16.rs:74-84 | One more stream item is appended to the side its position's parity names, if it decoded, and to neither side otherwise. |
| Mp3Encode.ChannelFrameStep | wav_to_mp3/src/mp3_encode_i16.rs:73-84 | After an even-length prefix, a frame's first sample goes left and its second goes right. |
| Mp3Encode.SplitUndoesInterleave | wav_to_mp3/src/mp3_encode_i16.rs:73-85 | Splitting the interleaved stream of frames `(ls[i], rs[i])` gives back `ls` and `rs`. |
| Mp3Encode.FourFrameScenario | wav_to_mp3/src/mp3_encode_i16.rs:73-85 | The stream L0,R0,…,L3,R3 splits into [L0..L3] and [R0..R3]. |
| Mp3Encode.EncoderCallSites | wav_to_mp3/src/mp3_encode_i16.rs:17-49 | A mono encoder is built for one channel's buffer and a stereo encoder for both buffers. Each reservation is sized by its input's sample count. For the stereo encode that count is every decoded sample of the stream. |
| Mp3Encode.EncodedPrefix | wav_to_mp3/src/mp3_encode_i16.rs:17-49 | Both wrappers succeed exactly when the encoder succeeds and reports no more bytes than it wrote. They return exactly the first `encoded` bytes. Otherwise they fail with `EncodeFailed`. |
| Mp3Encode.WriteChannels | wav_to_mp3/src/mp3_encode_i16.rs:87-98 | It encodes and writes left, then right, then joint stereo. The first failure stops it. It equals `EncodeAndWrite`. |
| Mp3Encode.FromReader | wav_to_mp3/src/mp3_encode_i16.rs:51-104 | One channel, or more than two, is refused. For two channels it returns the left, right and stereo paths in that order, with the storage `Transcode` describes. |
| Mp3Encode.EncodeAndWriteOutcome | wav_to_mp3/src/mp3_encode_i16.rs:87-98 | Success holds exactly when all three encodes succeed and all three paths name files. The new storage holds exactly the old paths plus the three outputs. Each output holds its encoding unless a later write reused its path. Every other file is unchanged. |
| Mp3Encode.TranscodeResults | wav_to_mp3/src/mp3_encode_i16.rs:60-103 | A channel count other than 2 gives `UnsupportedChannels`. A success returns `[left, right, stereo]`, all staged, with the joint encoding at the stereo path. |
| Mp3Encode.DotlessOutputNames | wav_to_mp3/src/mp3_encode_i16.rs:65-96 | A non-empty dotless base gives `out_dir/base-left.mp3`, `out_dir/base-right.mp3` and `out_dir/base.mp3`. |
| Mp3Encode.DotlessOutputsDistinct | wav_to_mp3/src/mp3_encode_i16.rs:65-96 | Those three paths are pairwise distinct. |
| Mp3Encode.DistinctOutputs | wav_to_mp3/src/mp3_encode_i16.rs:64-98 | With a non-empty dotless base, a successful run keeps the left, right and joint encodings, each under its own path. |
| Mp3Encode.DottedBaseCollapsesOutputs | wav_to_mp3/src/mp3_encode_i16.rs:64-98 | A base with a dot after its first character makes the three output paths one path. After a success that path holds only the joint-stereo encoding. |
| StdPath.FileStem | wav_to_mp3/src/main.rs:103-107 | `file_stem` of a normal name is a non-empty prefix of it, with no separator if the name had none. |
| StdPath.WithExtensionRoundTrip | wav_to_mp3/src/mp3_encode_i16.rs:65-68 | `with_extension(ext)` keeps the file stem and gives exactly the extension `ext`. |
| StdPath.WithExtensionOfDotless | magic_lambda/src/event_handler.rs:147-152 | A name with no dot just gains `.ext`. |
| StdPath.WithExtensionAfterSuffix | wav_to_mp3/src/mp3_encode_i16.rs:65-68 | A dot-free suffix such as `-left` survives `with_extension` exactly when the base has no dot after its first character. Otherwise it is cut off with everything after the last dot. |
| StdPath.FileNameOfJoin | magic_lambda/src/event_handler.rs:71 | `file_name` of `dir.join(name)` is `name`, and that path can be written as a file. |
| StdPath.JoinInjective | wav_to_mp3/src/mp3_encode_i16.rs:65-68 | Joining two separator-free names to the same directory gives equal paths only when the names are equal. |
| StdPath.PlainPathRoundTrip | wav_to_mp3/src/main.rs:103-108 | For a plain path, `parent` joined with `file_name` gives the path back, and the final component is a normal name. |
| Text.JoinSplit | magic_lambda/src/event_handler.rs:22-29 | Joining the pieces of `split` with the separator gives the text back. |
| Text.SplitJoin | magic_lambda/src/event_handler.rs:22-29 | Splitting a join of separator-free pieces gives the pieces back. |
| WavToMp3.FromReader | wav_to_mp3/src/main.rs:51-96 | The command-line copy of `from_reader` equals `WavToMp3.Transcode`. It refuses channel counts other than 2 and writes the joint file under `format!("{base_name}.mp3")`. |
| WavToMp3.InputBase | wav_to_mp3/src/main.rs:103-107 | The base name taken from the input's file stem is non-empty and has no separator. |
| WavToMp3.LeftRightCollideIffInnerDot | wav_to_mp3/src/main.rs:63-66 | The left and right output paths coincide exactly when the base name has a dot after its first character. |
| WavToMp3.StereoByFormatIsDistinct | wav_to_mp3/src/main.rs:63-92 | The concatenated stereo name never equals the left or the right path. |
| WavToMp3.DottedBaseLosesLeftChannel | wav_to_mp3/src/main.rs:63-92 | With a dotted base, after a success the shared left/right path holds the right channel's encoding. The joint file holds the stereo encoding. |
| WavToMp3.MainWritesBesideInput | wav_to_mp3/src/main.rs:99-117 | Bit depths other than 16 are refused. A success had a 16-bit stereo input and wrote exactly the three outputs into the input's parent directory, named from its file stem, leaving every other file unchanged. |
| DateKey.Padded | magic_lambda/src/event_handler.rs:142 | Zero-padded formatting yields exactly `width` digits. |
| DateKey.PaddedRoundTrip | magic_lambda/src/event_handler.rs:142 | Zero padding loses nothing when the number fits the width. |
| DateKey.DecimalRoundTrip | magic_lambda/src/event_handler.rs:142 | Padding to at least `width` digits never loses the number. |
| DateKey.YearText | magic_lambda/src/event_handler.rs:142 | `%Y` text has at least four characters and contains no `/` and no `.`. A `-` can appear only as its sign. |
| DateKey.YearTextRoundTrip | magic_lambda/src/event_handler.rs:142 | `%Y` reads back to the same year, for every year, including years before 0 and after 9999. |
| DateKey.MonthDay | magic_lambda/src/event_handler.rs:142 | `%m-%d` is five characters with the dash in the middle. |
| DateKey.DateStamp | magic_lambda/src/event_handler.rs:150 | `%Y-%m-%d` is non-empty and contains no `/` and no `.`. |
| DateKey.OutputKeyRoundTrip | magic_lambda/src/event_handler.rs:142-143 | The archive key `mp3-magic-machine/archive/%Y/%m-%d.zip` parses back to the date it came from. |
| DateKey.OutputKeyInjective | magic_lambda/src/event_handler.rs:142-143 | Two dates share an archive key exactly when they are the same date. |
| DateKey.OutputKeyWidth | magic_lambda/src/event_handler.rs:142-143 | For years 0 to 9999 the key has the fixed width `YYYY/MM-DD.zip` after the base. |
| DateKey.StagingArchivePathShape | magic_lambda/src/event_handler.rs:147-152 | The staging archive is `/tmp/<date stamp>.zip`, and its `file_name` is `<date stamp>.zip`. |
| EventHandler.KeyLast | magic_lambda/src/event_handler.rs:22-29 | `key_last` contains no `.` and no `/`. |
| EventHandler.KeyLastSegments | magic_lambda/src/event_handler.rs:22-29 | When the last `/`-segment is the pieces `parts` joined by dots, `key_last` is every piece but the last, in reverse order, concatenated. |
| EventHandler.KeyLastOfStemAndExtension | magic_lambda/src/event_handler.rs:22-29 | `dir/stem.ext` and `stem.ext` both give `stem`. |
| EventHandler.KeyLastReversesStemSegments | magic_lambda/src/event_handler.rs:22-29 | `a.b.ext` gives `b` followed by `a`. |
| EventHandler.KeyLastWithoutDot | magic_lambda/src/event_handler.rs:22-29 | A last segment without a dot gives the empty base name. |
| EventHandler.KeyLastOfSongExample | magic_lambda/src/event_handler.rs:22-29 | `dir/song.wav` gives `song`. |
| EventHandler.KeyLastOfDottedExample | magic_lambda/src/event_handler.rs:22-29 | `a.b.wav` gives `ba`. |
| EventHandler.KeyLastOfHiddenExample | magic_lambda/src/event_handler.rs:22-29 | `x/.wav` gives the empty base name. |
| EventHandler.KeyLastOfDotlessExample | magic_lambda/src/event_handler.rs:22-29 | `uploads/README` gives the empty base name. |
| EventHandler.HandleS3Object | magic_lambda/src/event_handler.rs:17-61 | `handle_s3_object` equals `HandleObject`. An invalid header is an error. 16-bit audio goes through the library's `from_reader` into `/tmp` under `key_last`. Other depths stage nothing. A failed transfer is an error. |
| EventHandler.HandleObjectFiles | magic_lambda/src/event_handler.rs:47-60 | A handled object contributes exactly the three paths for 16-bit audio and none otherwise, and only when its transfer succeeded. A non-16-bit object is still a success. |
| EventHandler.EmptyBaseNameFails | magic_lambda/src/event_handler.rs:22-52 | A 16-bit object whose `key_last` is empty always fails: its joint-stereo path is the directory `/tmp/`. |
| EventHandler.DotlessKeyFails | magic_lambda/src/event_handler.rs:22-52 | In particular, a 16-bit object whose key has no dot in its last segment always fails. |
| EventHandler.EmptyBaseNamesTheDirectory | magic_lambda/src/event_handler.rs:52 | With an empty base name the joint-stereo path is `/tmp/`, which is not a file path. |
| EventHandler.ZipWriter.constructor | magic_lambda/src/event_handler.rs:66 | A new writer has no entries. |
| EventHandler.ZipWriter.StartFile | magic_lambda/src/event_handler.rs:75 | A name already in the archive is refused and changes nothing. Otherwise a new empty entry is appended. |
| EventHandler.ZipWriter.WriteAll | magic_lambda/src/event_handler.rs:76 | The bytes are appended to the entry started last. Earlier entries are unchanged. |
| EventHandler.CompressFiles | magic_lambda/src/event_handler.rs:63-84 | The loop that reads each file, starts an entry and writes the buffer gives exactly `Compress(files)`, or its error, at `output`. |
| EventHandler.CompressErrorPersists | magic_lambda/src/event_handler.rs:70-79 | The first failing file decides the error of the whole call. |
| EventHandler.CompressContents | magic_lambda/src/event_handler.rs:70-79 | A built archive has one entry per path, in order, named by the path's file name and holding its staged bytes. |
| EventHandler.CompressedIsArchivable | magic_lambda/src/event_handler.rs:70-79 | A built archive came from paths that all have file names, are all staged, and have pairwise distinct names. |
| EventHandler.ArchivableCompresses | magic_lambda/src/event_handler.rs:70-79 | Conversely, such paths always build an archive. |
| EventHandler.RepeatedPathFails | magic_lambda/src/event_handler.rs:70-79 | A path listed twice makes the archive fail. |
| EventHandler.FunctionHandler | magic_lambda/src/event_handler.rs:91-165 | The handler equals `Invocation`. No records means nothing to do. Otherwise each record is fetched and handled in order, the first error ends the run, and the staged files are zipped and uploaded. |
| EventHandler.ProcessErrorPersists | magic_lambda/src/event_handler.rs:108-140 | A failing record ends the loop with its error, whatever follows it. |
| EventHandler.BatchAccumulates | magic_lambda/src/event_handler.rs:105-140 | The loop's file list is each record's paths concatenated in record order. Its event time is the last record's, or the starting time when there are no records. |
| EventHandler.AllFilesAppend | magic_lambda/src/event_handler.rs:137 | The file list of two runs of records is the concatenation of their file lists. |
| EventHandler.EmptyEventDoesNothing | magic_lambda/src/event_handler.rs:95-98 | An event without records succeeds and does nothing. |
| EventHandler.DeliveredArchive | magic_lambda/src/event_handler.rs:142-162 | A delivered archive went to `ppp-globalbucket-1` under the key and staging path of the last record's date. It has one entry per staged path, in record order. |
| EventHandler.SameBaseNameFails | magic_lambda/src/event_handler.rs:105-152 | Two 16-bit records whose keys give the same `key_last` make the invocation fail. |

## Left out

- **I/O.** The command-line tool opens and parses its input through the `open` parameter of `WavToMp3.Main`, a function from path to parsed stream (`main.rs:101-110`). `std::fs::write`, and the `File::open` and `read_to_end` of `compress_files`, operate on the staging map. Only a write to a path without a file name (such as `/tmp/`) fails. Other I/O errors (permissions, a full disk, a missing directory) are not modelled.
- **hound.** Parsing the WAV container is not modelled: the header is given, and each item of the sample stream is a decoded sample or a failure.
- **LAME.** The encoder's output and the `max_required_buffer_size` formula are opaque functions in `Codec`.
- **The async bridge.** The `flume` channel, `ChannelReader` and the spawned body-streaming task are not modelled. The task's outcome is the `transferOk` flag, which is checked after transcoding, as in the source.
- **Calls not reproduced.** `aws_config`, tracing output, `dbg!` and the `yield_now` scheduling are not modelled.
- **Zip format.** The `zip` crate's byte format, compression options and `finish` are not modelled. `File::create` of the archive is assumed to succeed. The archive is the list of its entries.
- **Upload.** `put_object` is a function of bucket, key and archive. Reading the archive back from `/tmp` (`ByteStream::from_path`) is folded into that call.
- **Dates.** chrono's conversion of an event timestamp to a UTC calendar date is not modelled. A record carries its date, and `now` stands for `Utc::now()`.
- **Key encoding.** URL-encoding of S3 keys in notifications is not modelled: keys arrive as plain text.
- StdPath.WithExtension: modelled only for a path of one component. `from_reader` uses it on a single component, and a base name is assumed to contain no `/`. The lambda's `Path::new("/tmp").join(stamp).with_extension("zip")` (`event_handler.rs:147-151`) applies it to a two-component path. That call is modelled as `Join("/tmp", WithExtension(stamp, "zip"))`, which gives the same path because the stamp's final component has no dot. `DateKey.StagingArchivePathShape` states the resulting path, `/tmp/<stamp>.zip`.
- WavToMp3.Main: the input path must be plain, with no empty, `.` or `..` component except a leading root. A path for which `file_stem` or `parent` returns `None` (`/`, `..`) panics in the source and is not modelled. Neither is a file name that is not valid UTF-8.
- WavToMp3.Main: `Main` has no `ensures` of its own. Its outcomes are stated by `WavToMp3.MainWritesBesideInput`.
- **Functions specified by their methods and lemmas.** These functions have no `ensures` of their own:
  - `Mp3Encode.Transcode` is specified by `Mp3Encode.FromReader` and `Mp3Encode.TranscodeResults`.
  - `EventHandler.HandleObject` is specified by `EventHandler.HandleS3Object` and `EventHandler.HandleObjectFiles`.
  - `EventHandler.Compress` is specified by `EventHandler.CompressFiles` and its lemmas.
  - `EventHandler.Invocation` is specified by `EventHandler.FunctionHandler` and its lemmas.
- Mp3Encode.EncoderCallSites: the `u8` channel argument and the reservation are recorded in the encoder call, but what LAME does with them is foreign.
- **Channel-count type.** The channel count is hound's `u16`, so `UnsupportedChannels` carries it as read. Channel count 0 takes the `_ => unimplemented!()` arm, like any count other than 1 or 2.
