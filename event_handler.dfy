/** Model of `magic_lambda/src/event_handler.rs`: the S3-triggered lambda. For
    every notification record it fetches the object, derives a base name from
    its key (`key_last`), transcodes 16-bit audio into `/tmp` with the
    library's `from_reader`, and collects the staged paths; then it zips them
    into `/tmp/YYYY-MM-DD.zip` and uploads that as
    `mp3-magic-machine/archive/YYYY/MM-DD.zip` to the project bucket. */
module EventHandler {

  import opened Wrappers
  import opened Errors
  import opened Text
  import opened StdPath
  import opened Mp3Encode
  import opened DateKey

  const ProjectBucket := "ppp-globalbucket-1"

  // ---------------------------------------------------------------------------
  // key_last

  /** `key.split('/').last().rsplit('.').skip(1).collect().join("")`: the
      dot-separated segments of the key's last `/`-segment except the final one,
      taken right to left and run together. */
  function KeyLast(key: string): (r: string)
    ensures '.' !in r && Separator !in r
  {
    var name := Last(Split(key, Separator));
    var parts := Split(name, '.');
    SplitKeepsAbsent(name, '.', Separator);
    var kept := Reverse(parts)[1..];
    assert forall i :: 0 <= i < |kept| ==> kept[i] == parts[|parts| - 2 - i];
    ConcatKeepsAbsent(kept, '.');
    ConcatKeepsAbsent(kept, Separator);
    Concat(kept)
  }

  /** `key_last` in general: when the last `/`-segment of the key is the
      segments `parts` joined by dots, it is every segment but the last, in
      reverse order, concatenated. */
  lemma KeyLastSegments(key: string, parts: seq<string>)
    requires |parts| >= 1
    requires forall i :: 0 <= i < |parts| ==> '.' !in parts[i]
    requires Last(Split(key, Separator)) == JoinWith(parts, '.')
    ensures KeyLast(key) == Concat(Reverse(parts[..|parts| - 1]))
  {
    SplitJoin(parts, '.');
    var n := |parts|;
    assert Reverse(parts)[1..] == Reverse(parts[..n - 1]) by {
      forall i | 0 <= i < n - 1 ensures Reverse(parts)[1..][i] == Reverse(parts[..n - 1])[i] {
        assert Reverse(parts)[1..][i] == parts[n - 2 - i];
      }
    }
  }

  /** The last `/`-segment of `dir/name` is `name`. */
  lemma LastSegmentUnderDirectory(dir: string, name: string)
    requires Separator !in name
    ensures Last(Split(dir + "/" + name, Separator)) == name
  {
    SplitAround(dir, name, Separator);
    SplitWithoutSep(name, Separator);
  }

  /** `dir/song.wav` gives `song`, with or without the directory. */
  lemma KeyLastOfStemAndExtension(dir: string, stem: string, ext: string)
    requires '.' !in stem && Separator !in stem && '.' !in ext && Separator !in ext
    ensures KeyLast(dir + "/" + stem + "." + ext) == stem
    ensures KeyLast(stem + "." + ext) == stem
  {
    var name := stem + "." + ext;
    assert JoinWith([stem, ext], '.') == name;
    assert Separator !in name;
    assert dir + "/" + stem + "." + ext == dir + "/" + name;
    LastSegmentUnderDirectory(dir, name);
    SplitWithoutSep(name, Separator);
    KeyLastSegments(dir + "/" + name, [stem, ext]);
    KeyLastSegments(name, [stem, ext]);
    assert Concat(Reverse([stem])) == stem;
  }

  /** A dotted stem comes out reversed and without its dot: `a.b.wav` gives `ba`. */
  lemma KeyLastReversesStemSegments(a: string, b: string, ext: string)
    requires '.' !in a && Separator !in a && '.' !in b && Separator !in b && '.' !in ext && Separator !in ext
    ensures KeyLast(a + "." + b + "." + ext) == b + a
  {
    var key := a + "." + b + "." + ext;
    assert [a, b, ext][1..] == [b, ext];
    assert JoinWith([b, ext], '.') == b + "." + ext;
    assert JoinWith([a, b, ext], '.') == a + "." + (b + "." + ext);
    assert key == a + "." + (b + "." + ext);
    assert Separator !in key;
    SplitWithoutSep(key, Separator);
    KeyLastSegments(key, [a, b, ext]);
    assert [a, b, ext][..2] == [a, b];
    assert Reverse([a, b]) == [b, a];
    assert Concat([b, a]) == b + Concat([a]);
  }

  /** A key whose last segment has no dot gives the empty base name. */
  lemma KeyLastWithoutDot(key: string)
    requires '.' !in Last(Split(key, Separator))
    ensures KeyLast(key) == ""
  {
    var name := Last(Split(key, Separator));
    SplitWithoutSep(name, '.');
    assert JoinWith([name], '.') == name;
    KeyLastSegments(key, [name]);
  }

  /** `dir/song.wav` gives `song`. */
  lemma KeyLastOfSongExample()
    ensures KeyLast("dir/song.wav") == "song"
  {
    assert "dir/song.wav" == "dir" + "/" + "song" + "." + "wav";
    KeyLastOfStemAndExtension("dir", "song", "wav");
  }

  /** `a.b.wav` gives `ba`. */
  lemma KeyLastOfDottedExample()
    ensures KeyLast("a.b.wav") == "ba"
  {
    assert "a.b.wav" == "a" + "." + "b" + "." + "wav";
    KeyLastReversesStemSegments("a", "b", "wav");
  }

  /** `x/.wav` gives the empty base name too: its only piece before the
      extension is empty. */
  lemma KeyLastOfHiddenExample()
    ensures KeyLast("x/.wav") == ""
  {
    var dir, name := "x", ".wav";
    assert Separator !in name;
    assert "x/.wav" == dir + "/" + name;
    LastSegmentUnderDirectory(dir, name);
    assert JoinWith(["", "wav"], '.') == name;
    KeyLastSegments(dir + "/" + name, ["", "wav"]);
    assert Reverse([""]) == [""];
  }

  /** `uploads/README` gives the empty base name. */
  lemma KeyLastOfDotlessExample()
    ensures KeyLast("uploads/README") == ""
  {
    var dir, name := "uploads", "README";
    assert '.' !in name && Separator !in name;
    assert "uploads/README" == dir + "/" + name;
    LastSegmentUnderDirectory(dir, name);
    KeyLastWithoutDot(dir + "/" + name);
  }

  // ---------------------------------------------------------------------------
  // handle_s3_object

  /** A fetched object: what `WavReader` reads from the streamed body, and
      whether the background task that streams it finished without error. */
  datatype ObjectBody = ObjectBody(stream: WavStream, transferOk: bool)

  /** What `handle_s3_object` returns: the library's `from_reader` with the
      base name `key_last` and output directory `/tmp` for 16-bit audio, no
      files for any other depth, and an error if the transfer failed. */
  function HandleObject(key: string, body: ObjectBody, codec: Codec, fs: Staging): Result<Staged, Error> {
    var keyLast := KeyLast(key);
    match body.stream.header
    case None => Err(HeaderInvalid)
    case Some(spec) =>
      var staged :- if spec.bitsPerSample == 16 then Transcode(spec, body.stream.samples, StagingDir, keyLast, codec, fs)
                    else Ok(Staged([], fs));
      if body.transferOk then Ok(staged) else Err(TransferFailed)
  }

  /** `handle_s3_object`. */
  method HandleS3Object(key: string, body: ObjectBody, codec: Codec, fs: Staging) returns (r: Result<Staged, Error>)
    ensures r == HandleObject(key, body, codec, fs)
  {
    var keyLast := KeyLast(key);
    if body.stream.header.None? {
      return Err(HeaderInvalid);
    }
    var spec := body.stream.header.value;
    var allFiles: seq<Path> := [];
    var staging := fs;
    if spec.bitsPerSample == 16 {
      var files := FromReader(spec, body.stream.samples, StagingDir, keyLast, codec, fs);
      if files.Err? {
        return Err(files.error);
      }
      allFiles := allFiles + files.value.files;
      assert allFiles == files.value.files;
      staging := files.value.staging;
    }
    assert HandleObject(key, body, codec, fs) ==
      if body.transferOk then Ok(Staged(allFiles, staging)) else Err(TransferFailed);
    if !body.transferOk {
      return Err(TransferFailed);
    }
    r := Ok(Staged(allFiles, staging));
  }

  /** The paths an object contributes when it is handled without error. */
  function ObjectFiles(key: string, body: ObjectBody): seq<Path> {
    if body.stream.header.Some? && body.stream.header.value.bitsPerSample == 16 then
      [LeftOutput(StagingDir, KeyLast(key)), RightOutput(StagingDir, KeyLast(key)), StereoOutput(StagingDir, KeyLast(key))]
    else []
  }

  /** A handled object contributes exactly its `ObjectFiles`, whatever was
      staged before; an object of another bit depth contributes nothing and is
      still a success when its transfer succeeded. */
  lemma HandleObjectFiles(key: string, body: ObjectBody, codec: Codec, fs: Staging)
    ensures var r := HandleObject(key, body, codec, fs);
      r.Ok? ==> r.value.files == ObjectFiles(key, body) && body.transferOk
    ensures body.stream.header.Some? && body.stream.header.value.bitsPerSample != 16 ==>
      HandleObject(key, body, codec, fs) == (if body.transferOk then Ok(Staged([], fs)) else Err(TransferFailed))
  {
    if body.stream.header.Some? {
      var spec := body.stream.header.value;
      TranscodeResults(spec, body.stream.samples, StagingDir, KeyLast(key), codec, fs);
    }
  }

  /** A 16-bit object whose `key_last` is empty fails: the joint-stereo path
      is the directory `/tmp/` itself and cannot be written. A key whose last
      segment has no dot (`uploads/README`) or only a leading one
      (`x/.wav`) is such a key. */
  lemma EmptyBaseNameFails(key: string, body: ObjectBody, codec: Codec, fs: Staging)
    requires KeyLast(key) == ""
    requires body.stream.header.Some? && body.stream.header.value.bitsPerSample == 16
    ensures HandleObject(key, body, codec, fs).Err?
  {
    var spec := body.stream.header.value;
    EmptyBaseNamesTheDirectory();
    EncodeAndWriteOutcome(codec, spec.sampleRate, ChannelSamples(body.stream.samples, Left), ChannelSamples(body.stream.samples, Right),
                          LeftOutput(StagingDir, ""), RightOutput(StagingDir, ""), StereoOutput(StagingDir, ""), fs);
  }

  /** In particular a 16-bit object whose key has no dot in its last segment fails. */
  lemma DotlessKeyFails(key: string, body: ObjectBody, codec: Codec, fs: Staging)
    requires '.' !in Last(Split(key, Separator))
    requires body.stream.header.Some? && body.stream.header.value.bitsPerSample == 16
    ensures HandleObject(key, body, codec, fs).Err?
  {
    KeyLastWithoutDot(key);
    EmptyBaseNameFails(key, body, codec, fs);
  }

  /** With an empty base name the joint-stereo path is `/tmp/`, which names
      the directory rather than a file. */
  lemma EmptyBaseNamesTheDirectory()
    ensures StereoOutput(StagingDir, "") == "/tmp/"
    ensures !IsFilePath("/tmp/")
  {
    assert "/tmp/" == "" + [Separator] + ("tmp" + [Separator] + "");
    SplitAround("", "tmp/", Separator);
    SplitAround("tmp", "", Separator);
  }

  // ---------------------------------------------------------------------------
  // compress_files

  /** An archive entry: a name and the bytes stored under it. */
  datatype Entry = Entry(name: string, bytes: seq<byte>)

  type Archive = seq<Entry>

  function Names(entries: Archive): seq<string> {
    seq(|entries|, i requires 0 <= i < |entries| => entries[i].name)
  }

  /** The part of `zip::ZipWriter` the lambda uses: entries are started by
      name and then written to; the byte-level format is not modelled. */
  class ZipWriter {
    var entries: Archive

    constructor ()
      ensures entries == []
    {
      entries := [];
    }

    /** `start_file`: a name already in the archive is refused. */
    method StartFile(name: string) returns (r: Result<(), Error>)
      modifies this
      ensures name in Names(old(entries)) ==> r == Err(DuplicateEntry(name)) && entries == old(entries)
      ensures name !in Names(old(entries)) ==> r == Ok(()) && entries == old(entries) + [Entry(name, [])]
    {
      if name in Names(entries) {
        return Err(DuplicateEntry(name));
      }
      entries := entries + [Entry(name, [])];
      r := Ok(());
    }

    /** `write_all`: appends to the entry started last. */
    method WriteAll(bytes: seq<byte>)
      requires entries != []
      modifies this
      ensures entries == old(entries)[..|old(entries)| - 1] + [Entry(Last(old(entries)).name, Last(old(entries)).bytes + bytes)]
    {
      var last := Last(entries);
      entries := entries[..|entries| - 1] + [Entry(last.name, last.bytes + bytes)];
    }
  }

  /** The archive `compress_files` builds from staged files: one entry per path,
      in order, named by the path's file name and holding the file's bytes.
      A path without a file name, a missing file or a repeated name stops it. */
  function Compress(files: seq<Path>, fs: Staging): Result<Archive, Error>
    decreases |files|
  {
    if files == [] then Ok([])
    else
      var entries :- Compress(files[..|files| - 1], fs);
      var file := Last(files);
      match FileName(file)
      case None => Err(NoFileName(file))
      case Some(name) =>
        if file !in fs then Err(OpenFailed(file))
        else if name in Names(entries) then Err(DuplicateEntry(name))
        else Ok(entries + [Entry(name, fs[file])])
  }

  /** The zip file `compress_files` leaves at `output`. */
  datatype ArchiveFile = ArchiveFile(path: Path, entries: Archive)

  /** `compress_files`: `buffer` is filled by `read_to_end`, copied into a new
      entry and cleared, once per file. */
  method CompressFiles(files: seq<Path>, output: Path, fs: Staging) returns (r: Result<ArchiveFile, Error>)
    ensures Compress(files, fs).Ok? ==> r == Ok(ArchiveFile(output, Compress(files, fs).value))
    ensures Compress(files, fs).Err? ==> r == Err(Compress(files, fs).error)
  {
    var zip := new ZipWriter();
    var buffer: seq<byte> := [];
    for i := 0 to |files|
      invariant buffer == []
      invariant Compress(files[..i], fs) == Ok(zip.entries)
    {
      var file := files[i];
      assert files[..i + 1][..i] == files[..i];
      var fileName := FileName(file);
      if fileName.None? {
        CompressErrorPersists(files, fs, i + 1);
        return Err(NoFileName(file));
      }
      if file !in fs {
        CompressErrorPersists(files, fs, i + 1);
        return Err(OpenFailed(file));
      }
      buffer := buffer + fs[file];
      assert buffer == fs[file];
      ghost var prior := zip.entries;
      var started := zip.StartFile(fileName.value);
      if started.Err? {
        CompressErrorPersists(files, fs, i + 1);
        return Err(started.error);
      }
      zip.WriteAll(buffer);
      assert zip.entries == prior + [Entry(fileName.value, fs[file])];
      buffer := [];
    }
    assert files[..|files|] == files;
    r := Ok(ArchiveFile(output, zip.entries));
  }

  /** Once a prefix of the files fails, the whole list fails the same way. */
  lemma {:induction false} CompressErrorPersists(files: seq<Path>, fs: Staging, i: nat)
    requires i <= |files| && Compress(files[..i], fs).Err?
    ensures Compress(files, fs) == Compress(files[..i], fs)
    decreases |files|
  {
    if i < |files| {
      var init := files[..|files| - 1];
      assert init[..i] == files[..i];
      CompressErrorPersists(init, fs, i);
    } else {
      assert files[..i] == files;
    }
  }

  /** Every path names a staged file, and no two paths share a file name. */
  predicate Archivable(files: seq<Path>, fs: Staging) {
    && (forall i :: 0 <= i < |files| ==> FileName(files[i]).Some? && files[i] in fs)
    && (forall i, j :: 0 <= i < j < |files| ==> FileName(files[i]) != FileName(files[j]))
  }

  /** One step of a successful build: the last path adds one entry, under a
      name not used before. */
  lemma CompressStep(files: seq<Path>, fs: Staging)
    requires files != [] && Compress(files, fs).Ok?
    ensures var init, file := files[..|files| - 1], files[|files| - 1];
      && Compress(init, fs).Ok? && FileName(file).Some? && file in fs
      && FileName(file).value !in Names(Compress(init, fs).value)
      && Compress(files, fs).value == Compress(init, fs).value + [Entry(FileName(file).value, fs[file])]
  {
  }

  /** A built archive has one entry per path, in order, named by its file
      name and holding its staged bytes. */
  lemma {:induction false} CompressContents(files: seq<Path>, fs: Staging)
    ensures Compress(files, fs).Ok? ==>
      var a := Compress(files, fs).value;
      |a| == |files| &&
      forall i :: 0 <= i < |files| ==>
        FileName(files[i]).Some? && files[i] in fs && a[i] == Entry(FileName(files[i]).value, fs[files[i]])
    decreases |files|
  {
    if files != [] && Compress(files, fs).Ok? {
      var init := files[..|files| - 1];
      CompressStep(files, fs);
      CompressContents(init, fs);
      assert forall i :: 0 <= i < |init| ==> init[i] == files[i];
    }
  }

  /** A built archive came from archivable paths: the build refuses a path
      without a file name, an unstaged file and a repeated name. */
  lemma {:induction false} CompressedIsArchivable(files: seq<Path>, fs: Staging)
    ensures Compress(files, fs).Ok? ==> Archivable(files, fs)
    decreases |files|
  {
    if files != [] && Compress(files, fs).Ok? {
      var n := |files|;
      var init := files[..n - 1];
      CompressStep(files, fs);
      CompressedIsArchivable(init, fs);
      CompressContents(init, fs);
      var entries := Compress(init, fs).value;
      var last := files[n - 1];
      forall i | 0 <= i < n - 1 ensures FileName(files[i]) != FileName(last) {
        assert init[i] == files[i];
        assert Names(entries)[i] == FileName(files[i]).value;
      }
      forall i | 0 <= i < n ensures FileName(files[i]).Some? && files[i] in fs {
        if i < n - 1 {
          assert init[i] == files[i];
        }
      }
      forall i, j | 0 <= i < j < n ensures FileName(files[i]) != FileName(files[j]) {
        if j < n - 1 {
          assert init[i] == files[i] && init[j] == files[j];
        }
      }
    }
  }

  /** Archivable paths always make an archive. */
  lemma {:induction false} ArchivableCompresses(files: seq<Path>, fs: Staging)
    requires Archivable(files, fs)
    ensures Compress(files, fs).Ok?
    decreases |files|
  {
    if files != [] {
      var n := |files|;
      var init := files[..n - 1];
      assert Archivable(init, fs) by {
        assert forall i :: 0 <= i < n - 1 ==> init[i] == files[i];
      }
      ArchivableCompresses(init, fs);
      CompressContents(init, fs);
    }
  }

  // ---------------------------------------------------------------------------
  // function_handler

  /** The parts of an S3 notification record the handler reads. */
  datatype EventRecord = EventRecord(eventTime: CalendarDate, bucket: Option<string>, key: Option<string>)

  /** The S3 client and the encoder: `getObject(bucket, key)` (`None`: the
      request failed), `putObject(bucket, key, archive)` (`false`: the upload
      failed). */
  datatype Services = Services(
    getObject: (string, string) -> Option<ObjectBody>,
    codec: Codec,
    putObject: (string, string, ArchiveFile) -> bool)

  datatype Outcome =
    | NothingToDo
    | Delivered(bucket: string, key: string, archive: ArchiveFile)

  /** What the record loop has built so far. */
  datatype Batch = Batch(files: seq<Path>, staging: Staging, lastEventTime: CalendarDate)

  /** One iteration of the record loop: unwrap bucket and key, fetch, handle. */
  function HandleRecord(record: EventRecord, services: Services, fs: Staging): Result<Staged, Error> {
    if record.bucket.None? || record.key.None? then Err(MissingObjectRef)
    else
      match services.getObject(record.bucket.value, record.key.value)
      case None => Err(FetchFailed(record.bucket.value, record.key.value))
      case Some(body) => HandleObject(record.key.value, body, services.codec, fs)
  }

  /** The record loop, record by record; `now` is the starting event time. */
  function ProcessRecords(records: seq<EventRecord>, services: Services, fs: Staging, now: CalendarDate): Result<Batch, Error>
    decreases |records|
  {
    if records == [] then Ok(Batch([], fs, now))
    else
      var prior :- ProcessRecords(records[..|records| - 1], services, fs, now);
      var staged :- HandleRecord(Last(records), services, prior.staging);
      Ok(Batch(prior.files + staged.files, staged.staging, Last(records).eventTime))
  }

  /** A whole invocation of `function_handler`. */
  function Invocation(records: seq<EventRecord>, services: Services, fs: Staging, now: CalendarDate): Result<Outcome, Error> {
    if |records| < 1 then Ok(NothingToDo)
    else
      var batch :- ProcessRecords(records, services, fs, now);
      var outputKey := OutputKey(batch.lastEventTime);
      var archive :- Compress(batch.files, batch.staging);
      var archiveFile := ArchiveFile(StagingArchivePath(batch.lastEventTime), archive);
      if services.putObject(ProjectBucket, outputKey, archiveFile) then Ok(Delivered(ProjectBucket, outputKey, archiveFile))
      else Err(UploadFailed)
  }

  /** `function_handler`. */
  method FunctionHandler(records: seq<EventRecord>, services: Services, fs: Staging, now: CalendarDate)
    returns (r: Result<Outcome, Error>)
    ensures r == Invocation(records, services, fs, now)
  {
    if |records| < 1 {
      return Ok(NothingToDo);
    }
    var allFiles: seq<Path> := [];
    var lastEventTime := now;
    var staging := fs;
    for i := 0 to |records|
      invariant ProcessRecords(records[..i], services, fs, now) == Ok(Batch(allFiles, staging, lastEventTime))
    {
      var record := records[i];
      assert records[..i + 1][..i] == records[..i];
      if record.bucket.None? || record.key.None? {
        ProcessErrorPersists(records, services, fs, now, i + 1);
        return Err(MissingObjectRef);
      }
      var fetched := services.getObject(record.bucket.value, record.key.value);
      if fetched.None? {
        ProcessErrorPersists(records, services, fs, now, i + 1);
        return Err(FetchFailed(record.bucket.value, record.key.value));
      }
      var files := HandleS3Object(record.key.value, fetched.value, services.codec, staging);
      if files.Err? {
        ProcessErrorPersists(records, services, fs, now, i + 1);
        return Err(files.error);
      }
      allFiles := allFiles + files.value.files;
      staging := files.value.staging;
      lastEventTime := record.eventTime;
    }
    assert records[..|records|] == records;

    var outputKey := OutputKey(lastEventTime);
    var archive := CompressFiles(allFiles, StagingArchivePath(lastEventTime), staging);
    if archive.Err? {
      return Err(archive.error);
    }
    if !services.putObject(ProjectBucket, outputKey, archive.value) {
      return Err(UploadFailed);
    }
    r := Ok(Delivered(ProjectBucket, outputKey, archive.value));
  }

  /** Once a prefix of the records fails, the loop fails the same way. */
  lemma {:induction false} ProcessErrorPersists(records: seq<EventRecord>, services: Services, fs: Staging, now: CalendarDate, i: nat)
    requires i <= |records| && ProcessRecords(records[..i], services, fs, now).Err?
    ensures ProcessRecords(records, services, fs, now) == ProcessRecords(records[..i], services, fs, now)
    decreases |records|
  {
    if i < |records| {
      var init := records[..|records| - 1];
      assert init[..i] == records[..i];
      ProcessErrorPersists(init, services, fs, now, i);
    } else {
      assert records[..i] == records;
    }
  }

  // ---------------------------------------------------------------------------
  // Properties of the invocation

  /** The paths a record contributes when it is handled without error. */
  function RecordFiles(record: EventRecord, services: Services): seq<Path> {
    if record.bucket.None? || record.key.None? then []
    else
      match services.getObject(record.bucket.value, record.key.value)
      case None => []
      case Some(body) => ObjectFiles(record.key.value, body)
  }

  /** Every record's paths, in record order. */
  function AllFiles(records: seq<EventRecord>, services: Services): seq<Path>
    decreases |records|
  {
    if records == [] then [] else AllFiles(records[..|records| - 1], services) + RecordFiles(Last(records), services)
  }

  /** The loop's file list is the concatenation of each record's paths in
      record order, and its event time is the last record's. */
  lemma {:induction false} BatchAccumulates(records: seq<EventRecord>, services: Services, fs: Staging, now: CalendarDate)
    ensures var r := ProcessRecords(records, services, fs, now);
      r.Ok? ==>
        && r.value.files == AllFiles(records, services)
        && r.value.lastEventTime == (if records == [] then now else Last(records).eventTime)
    decreases |records|
  {
    if records != [] {
      var init := records[..|records| - 1];
      BatchAccumulates(init, services, fs, now);
      var prior := ProcessRecords(init, services, fs, now);
      if prior.Ok? {
        var record := Last(records);
        if record.bucket.Some? && record.key.Some? && services.getObject(record.bucket.value, record.key.value).Some? {
          HandleObjectFiles(record.key.value, services.getObject(record.bucket.value, record.key.value).value,
                            services.codec, prior.value.staging);
        }
      }
    }
  }

  lemma {:induction false} AllFilesAppend(a: seq<EventRecord>, b: seq<EventRecord>, services: Services)
    ensures AllFiles(a + b, services) == AllFiles(a, services) + AllFiles(b, services)
    decreases |b|
  {
    if b != [] {
      var init := b[..|b| - 1];
      assert (a + b)[..|a + b| - 1] == a + init;
      AllFilesAppend(a, init, services);
    } else {
      assert a + b == a;
    }
  }

  /** The empty event changes nothing and succeeds. */
  lemma EmptyEventDoesNothing(services: Services, fs: Staging, now: CalendarDate)
    ensures Invocation([], services, fs, now) == Ok(NothingToDo)
  {
  }

  /** A delivered archive went to the project bucket under the key and the
      staging path of the last record's date, with one entry per staged path,
      in record order, named by its file name and holding its staged bytes. */
  lemma DeliveredArchive(records: seq<EventRecord>, services: Services, fs: Staging, now: CalendarDate)
    ensures var r := Invocation(records, services, fs, now);
      r.Ok? && r.value.Delivered? ==>
        && records != []
        && ProcessRecords(records, services, fs, now).Ok?
        && r.value.bucket == ProjectBucket
        && r.value.key == OutputKey(Last(records).eventTime)
        && r.value.archive.path == StagingArchivePath(Last(records).eventTime)
        && var files, staging := AllFiles(records, services), ProcessRecords(records, services, fs, now).value.staging;
           && |r.value.archive.entries| == |files|
           && forall i :: 0 <= i < |files| ==>
                FileName(files[i]).Some? && files[i] in staging &&
                r.value.archive.entries[i] == Entry(FileName(files[i]).value, staging[files[i]])
  {
    BatchAccumulates(records, services, fs, now);
    var batch := ProcessRecords(records, services, fs, now);
    if records != [] && batch.Ok? {
      CompressContents(batch.value.files, batch.value.staging);
    }
  }

  /** A record whose object is 16-bit audio. */
  predicate CarriesPcm16(record: EventRecord, services: Services) {
    && record.bucket.Some? && record.key.Some?
    && services.getObject(record.bucket.value, record.key.value).Some?
    && services.getObject(record.bucket.value, record.key.value).value.stream.header.Some?
    && services.getObject(record.bucket.value, record.key.value).value.stream.header.value.bitsPerSample == 16
  }

  /** Two 16-bit records whose keys give the same base name (`x/song.wav` and
      `y/song.flac`, or `a.b.wav` and `ba.wav`) stage the same paths, so the
      archive would hold two entries of one name: the invocation fails. */
  lemma SameBaseNameFails(records: seq<EventRecord>, services: Services, fs: Staging, now: CalendarDate, i: nat, j: nat)
    requires i < j < |records|
    requires CarriesPcm16(records[i], services) && CarriesPcm16(records[j], services)
    requires KeyLast(records[i].key.value) == KeyLast(records[j].key.value)
    ensures Invocation(records, services, fs, now).Err?
  {
    BatchAccumulates(records, services, fs, now);
    var batch := ProcessRecords(records, services, fs, now);
    if batch.Ok? {
      var files := batch.value.files;
      var x, y := AllFiles(records[..i], services), AllFiles(records[i + 1..j], services);
      var p := StereoOutput(StagingDir, KeyLast(records[i].key.value));
      var k1, k2 := |x| + 2, |x| + 3 + |y| + 2;
      assert k2 < |files| && files[k1] == p && files[k2] == p by {
        AllFilesAround(records, services, i, j);
        assert RecordFiles(records[i], services) == ObjectFiles(records[i].key.value, services.getObject(records[i].bucket.value, records[i].key.value).value);
        assert RecordFiles(records[j], services) == ObjectFiles(records[j].key.value, services.getObject(records[j].bucket.value, records[j].key.value).value);
      }
      RepeatedPathFails(files, batch.value.staging, k1, k2);
    }
  }

  /** A path listed twice gives two entries of one name: the build fails. */
  lemma RepeatedPathFails(files: seq<Path>, fs: Staging, k1: nat, k2: nat)
    requires k1 < k2 < |files| && files[k1] == files[k2]
    ensures Compress(files, fs).Err?
  {
    CompressedIsArchivable(files, fs);
  }

  /** The file list around two records `i < j`: what comes before `i`, the
      paths of `i`, what lies between, the paths of `j`, and the rest. */
  lemma AllFilesAround(records: seq<EventRecord>, services: Services, i: nat, j: nat)
    requires i < j < |records|
    ensures AllFiles(records, services) ==
      AllFiles(records[..i], services) + RecordFiles(records[i], services) + AllFiles(records[i + 1..j], services)
      + RecordFiles(records[j], services) + AllFiles(records[j + 1..], services)
  {
    var before, middle, after := records[..i], records[i + 1..j], records[j + 1..];
    assert records == before + [records[i]] + middle + [records[j]] + after;
    AllFilesAppend(before + [records[i]] + middle + [records[j]], after, services);
    AllFilesAppend(before + [records[i]] + middle, [records[j]], services);
    AllFilesAppend(before + [records[i]], middle, services);
    AllFilesAppend(before, [records[i]], services);
    assert AllFiles([records[i]], services) == RecordFiles(records[i], services) by {
      assert [records[i]][..0] == [];
    }
    assert AllFiles([records[j]], services) == RecordFiles(records[j], services) by {
      assert [records[j]][..0] == [];
    }
  }
}
