/** The part of Rust's `std::path` (Unix flavour) the source relies on to name
    its outputs: `Path::join`, `Path::with_extension`, `Path::file_name`,
    `Path::file_stem` and `Path::parent`. Paths are strings; `/` separates
    components. */
module StdPath {

  import opened Wrappers
  import opened Text

  type Path = string

  const Separator: char := '/'

  /** A component that names a directory entry: not empty, not `.` and not `..`. */
  predicate IsNormal(name: string) {
    name != "" && name != "." && name != ".."
  }

  /** `file_stem` of a normal component: the text before its last `.`, unless that
      dot is the first character (`.bashrc` has no extension) or there is none. */
  function FileStem(name: string): (r: string)
    requires IsNormal(name)
    ensures 0 < |r| <= |name| && r == name[..|r|]
    ensures Separator !in name ==> Separator !in r
  {
    match LastIndexOf(name, '.')
    case None => name
    case Some(i) => if i == 0 then name else name[..i]
  }

  /** `extension` of a normal component: the text after its last `.`, when that
      dot is not the first character. */
  function Extension(name: string): Option<string>
    requires IsNormal(name)
  {
    match LastIndexOf(name, '.')
    case None => None
    case Some(i) => if i == 0 then None else Some(name[i + 1..])
  }

  /** `Path::new(p).with_extension(ext)` for a path of at most one component:
      a path without a file name (``, `.`, `..`) comes back unchanged; otherwise
      the text after the stem is replaced by `.ext` (by nothing if `ext` is empty). */
  function WithExtension(p: Path, ext: string): Path
    requires Separator !in p
  {
    if !IsNormal(p) then p
    else FileStem(p) + (if ext == "" then "" else "." + ext)
  }

  /** `dir.join(name)`: an absolute `name` replaces `dir`; otherwise a separator is
      put between the two unless `dir` is empty or already ends with one (so
      joining an empty `name` leaves a trailing separator). */
  function Join(dir: Path, name: Path): Path {
    if |name| > 0 && name[0] == Separator then name
    else if dir == "" || dir[|dir| - 1] == Separator then dir + name
    else dir + [Separator] + name
  }

  /** The segments of a path that `components()` reports as names: empty
      segments (repeated or trailing separators) and `.` are dropped. */
  function Entries(segments: seq<string>): (r: seq<string>)
    ensures forall i :: 0 <= i < |r| ==> r[i] != "" && r[i] != "."
    decreases |segments|
  {
    if segments == [] then []
    else
      var last := segments[|segments| - 1];
      Entries(segments[..|segments| - 1]) + (if last == "" || last == "." then [] else [last])
  }

  /** `Path::file_name`: the final component, if it is a normal one. */
  function FileName(p: Path): (r: Option<string>)
    ensures r.Some? ==> IsNormal(r.value) && Separator !in r.value
  {
    var entries := Entries(Split(p, Separator));
    SplitEntriesHaveNoSeparator(p);
    if entries == [] || Last(entries) == ".." then None else Some(Last(entries))
  }

  /** A path a regular file can be written at: its final segment names an
      entry (no trailing separator, not `.` or `..`). */
  predicate IsFilePath(p: Path) {
    IsNormal(Last(Split(p, Separator)))
  }

  /** A path whose every segment is a normal component, except an empty first
      segment for an absolute path. */
  predicate PlainPath(p: Path) {
    var segments := Split(p, Separator);
    forall i :: 0 <= i < |segments| ==>
      IsNormal(segments[i]) || (i == 0 && segments[i] == "" && |segments| > 1)
  }

  /** The final component of a plain path (its `file_name`). */
  function FinalComponent(p: Path): string {
    Last(Split(p, Separator))
  }

  /** `Path::parent` of a plain path: the text before the last separator, `/`
      for a file directly under the root, and the empty path for a bare name. */
  function Parent(p: Path): Path {
    match LastIndexOf(p, Separator)
    case None => ""
    case Some(i) => if i == 0 then "/" else p[..i]
  }

  lemma SplitEntriesHaveNoSeparator(p: Path)
    ensures forall i :: 0 <= i < |Entries(Split(p, Separator))| ==>
      Separator !in Entries(Split(p, Separator))[i]
  {
    EntriesAreSegments(Split(p, Separator));
  }

  lemma {:induction false} EntriesAreSegments(segments: seq<string>)
    ensures forall i :: 0 <= i < |Entries(segments)| ==> Entries(segments)[i] in segments
    decreases |segments|
  {
    if segments != [] {
      var init := segments[..|segments| - 1];
      EntriesAreSegments(init);
      forall i | 0 <= i < |Entries(init)|
        ensures Entries(init)[i] in segments
      {
        assert Entries(init)[i] in init;
      }
    }
  }

  /** The round trip of `with_extension`: the new name keeps the old stem and
      carries exactly the requested extension. */
  lemma WithExtensionRoundTrip(p: Path, ext: string)
    requires Separator !in p && IsNormal(p)
    requires ext != "" && '.' !in ext && Separator !in ext
    ensures IsNormal(WithExtension(p, ext)) && Separator !in WithExtension(p, ext)
    ensures FileStem(WithExtension(p, ext)) == FileStem(p)
    ensures Extension(WithExtension(p, ext)) == Some(ext)
  {
    var stem := FileStem(p);
    var q := WithExtension(p, ext);
    assert q == stem + "." + ext;
    DotBeforeDotlessTail(stem, ext);
    assert q[..|stem|] == stem;
    assert q[|stem| + 1..] == ext;
    assert Separator !in q by {
      assert Separator !in stem by { assert stem == p[..|stem|]; }
    }
  }

  /** In `stem.ext` with a dot-free `ext`, the last dot is the one before `ext`. */
  lemma DotBeforeDotlessTail(stem: string, ext: string)
    requires '.' !in ext
    ensures LastIndexOf(stem + "." + ext, '.') == Some(|stem|)
  {
    var q := stem + "." + ext;
    assert q[|stem|] == '.';
    var r := LastIndexOf(q, '.');
    assert r.Some? && r.value >= |stem|;
  }

  /** A name with no dot just gains `.ext`. */
  lemma WithExtensionOfDotless(p: Path, ext: string)
    requires Separator !in p && '.' !in p && p != ""
    ensures WithExtension(p, ext) == p + (if ext == "" then "" else "." + ext)
  {
  }

  /** `base` has a dot after its first character: the dot `with_extension` cuts at. */
  predicate HasInnerDot(base: string) {
    exists i :: 0 < i < |base| && base[i] == '.'
  }

  /** Appending a dot-free suffix (`-left`, `-right`) before `with_extension`:
      when `base` has an inner dot the suffix is cut off together with the text
      after that dot; otherwise it survives. */
  lemma WithExtensionAfterSuffix(base: string, suffix: string, ext: string)
    requires Separator !in base && Separator !in suffix
    requires suffix != "" && '.' !in suffix && ext != ""
    ensures Separator !in base + suffix
    ensures HasInnerDot(base) ==>
      LastIndexOf(base, '.').Some? &&
      WithExtension(base + suffix, ext) == base[..LastIndexOf(base, '.').value] + "." + ext
    ensures !HasInnerDot(base) ==>
      WithExtension(base + suffix, ext) == base + suffix + "." + ext
  {
    var name := base + suffix;
    assert Separator !in name && IsNormal(name) by {
      assert name[|base|] == suffix[0];
    }
    assert WithExtension(name, ext) == FileStem(name) + "." + ext;
    LastDotIgnoresDotlessSuffix(base, suffix);
    InnerDotIsLastDot(base);
    match LastIndexOf(base, '.')
    case None =>
      assert FileStem(name) == name;
    case Some(k) =>
      if k > 0 {
        assert FileStem(name) == name[..k] == base[..k];
      } else {
        assert FileStem(name) == name;
      }
  }

  /** `HasInnerDot` is exactly "the last dot is not the first character". */
  lemma InnerDotIsLastDot(base: string)
    ensures HasInnerDot(base) <==> LastIndexOf(base, '.').Some? && LastIndexOf(base, '.').value > 0
  {
    if HasInnerDot(base) {
      var i :| 0 < i < |base| && base[i] == '.';
      assert LastIndexOf(base, '.').value >= i;
    }
  }

  lemma LastDotIgnoresDotlessSuffix(base: string, suffix: string)
    requires '.' !in suffix
    ensures LastIndexOf(base + suffix, '.') == LastIndexOf(base, '.')
  {
    var name := base + suffix;
    forall j | |base| <= j < |name| ensures name[j] != '.' {
      assert name[j] == suffix[j - |base|];
    }
    match LastIndexOf(base, '.')
    case None =>
      forall j | 0 <= j < |name| ensures name[j] != '.' {
        if j < |base| { assert name[j] == base[j]; }
      }
    case Some(k) =>
      assert name[k] == '.';
      forall j | k < j < |base| ensures name[j] != '.' {
        assert name[j] == base[j];
      }
  }

  /** Whatever `dir` is, the last segment of `dir.join(name)` is `name`. */
  lemma LastSegmentOfJoin(dir: Path, name: string)
    requires Separator !in name
    ensures Last(Split(Join(dir, name), Separator)) == name
  {
    SplitWithoutSep(name, Separator);
    if dir == "" {
      assert Join(dir, name) == name;
    } else if dir[|dir| - 1] == Separator {
      var init := dir[..|dir| - 1];
      assert Join(dir, name) == init + [Separator] + name;
      SplitAround(init, name, Separator);
    } else {
      SplitAround(dir, name, Separator);
    }
  }

  /** `file_name` of `dir.join(name)` is `name` for a normal `name`, and the
      joined path is a place a file can be written. */
  lemma FileNameOfJoin(dir: Path, name: string)
    requires Separator !in name && IsNormal(name)
    ensures FileName(Join(dir, name)) == Some(name)
    ensures IsFilePath(Join(dir, name))
  {
    LastSegmentOfJoin(dir, name);
    var segments := Split(Join(dir, name), Separator);
    assert segments == segments[..|segments| - 1] + [name];
    assert Entries(segments) == Entries(segments[..|segments| - 1]) + [name];
  }

  /** Joining under the same directory keeps names apart. */
  lemma JoinInjective(dir: Path, a: string, b: string)
    requires Separator !in a && Separator !in b
    ensures Join(dir, a) == Join(dir, b) <==> a == b
  {
    if Join(dir, a) == Join(dir, b) {
      LastSegmentOfJoin(dir, a);
      LastSegmentOfJoin(dir, b);
    }
  }

  /** A plain path is its parent joined with its final component, and that
      component is a normal, separator-free name. */
  lemma {:induction false} PlainPathRoundTrip(p: Path)
    requires PlainPath(p)
    ensures IsNormal(FinalComponent(p)) && Separator !in FinalComponent(p)
    ensures Join(Parent(p), FinalComponent(p)) == p
  {
    var segments := Split(p, Separator);
    assert IsNormal(segments[|segments| - 1]);
    match LastIndexOf(p, Separator)
    case None =>
      SplitWithoutSep(p, Separator);
    case Some(i) =>
      var tail := p[i + 1..];
      assert FinalComponent(p) == tail && Separator !in tail by {
        LastSegmentIsTail(p, i);
      }
      assert i > 0 ==> p[i - 1] != Separator by {
        if i > 0 && p[i - 1] == Separator {
          DoubledSeparatorMakesEmptySegment(p, i - 1);
          assert false;
        }
      }
      ParentJoinsBack(p, i);
  }

  /** The final segment of a path is the text after its last separator. */
  lemma LastSegmentIsTail(p: Path, i: nat)
    requires LastIndexOf(p, Separator) == Some(i)
    ensures Separator !in p[i + 1..] && Last(Split(p, Separator)) == p[i + 1..]
  {
    var tail := p[i + 1..];
    assert Separator !in tail by {
      forall j | 0 <= j < |tail| ensures tail[j] != Separator {
        assert tail[j] == p[i + 1 + j];
      }
    }
    assert p == p[..i] + [Separator] + tail;
    SplitAround(p[..i], tail, Separator);
    SplitWithoutSep(tail, Separator);
  }

  /** Joining the parent and a normal final segment gives the path back when
      the last separator is not doubled. */
  lemma ParentJoinsBack(p: Path, i: nat)
    requires LastIndexOf(p, Separator) == Some(i)
    requires IsNormal(p[i + 1..]) && (i > 0 ==> p[i - 1] != Separator)
    ensures Join(Parent(p), p[i + 1..]) == p
  {
    var tail := p[i + 1..];
    assert tail[0] != Separator;
    if i == 0 {
      assert p == "/" + tail;
    } else {
      assert Parent(p) == p[..i];
      assert p == p[..i] + [Separator] + tail;
    }
  }

  /** Two separators in a row leave an empty segment that is not the first. */
  lemma DoubledSeparatorMakesEmptySegment(p: Path, j: nat)
    requires j + 1 < |p| && p[j] == Separator && p[j + 1] == Separator
    ensures exists k :: 1 <= k < |Split(p, Separator)| && Split(p, Separator)[k] == ""
  {
    var head, tail := p[..j], p[j + 2..];
    assert p == head + [Separator] + ([] + [Separator] + tail);
    SplitAround(head, [] + [Separator] + tail, Separator);
    SplitAround([], tail, Separator);
    var k := |Split(head, Separator)|;
    assert Split(p, Separator)[k] == "";
  }
}
