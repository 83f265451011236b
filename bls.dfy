/** Boot entries in the format of the Boot Loader Specification ("Type #1
    Boot Loader Specification Entries", systemd.io): parsing one entry file
    into a bootable Linux image, and scanning a list of candidate entry files
    for the bootable ones.

    The file system is abstract: `os.Open` succeeds exactly on the paths of
    `FileSystem.files`, an entry file reads as the sequence of lines a
    `bufio.Scanner` yields, and the result of `filepath.Glob` is an input. */
module Bls {
  import opened Wrappers
  import Strings
  import FilePath

  type Path = FilePath.Path

  /** Where entries live, relative to the root of the scanned file system. */
  const BlsEntriesDir: Path := "loader/entries"

  /** What a parsed entry yields (the source's boot.LinuxImage): the opened
      kernel and initrd, identified by the path they were opened at, and the
      kernel command line. */
  datatype LinuxImage = LinuxImage(kernel: Path, initrd: Path, cmdline: string)

  datatype Error =
    | OpenFailed(path: Path)    // os.Open failed on this path
    | MissingKernelOrInitrd
    | EfiUnsupported
    | BadPattern                // filepath.Glob rejected the pattern
  {
    /** The text of the errors the package creates itself. */
    function Message(): string
      requires !OpenFailed? && !BadPattern?
    {
      match this
      case MissingKernelOrInitrd => "malformed BLS config, kernel or initrd missing"
      case EfiUnsupported => "EFI entries are not yet supported"
    }
  }

  /** The files visible to the parser: a path opens exactly when it is a key
      of `files`, and an opened file reads as the lines it maps to. */
  datatype FileSystem = FileSystem(files: map<Path, seq<string>>)

  /** The outcome of `filepath.Glob`: the matching paths in the order Glob
      returns them, or a malformed pattern. */
  datatype Glob = Matches(paths: seq<Path>) | Malformed

  /** How one line of an entry file is read. */
  datatype Directive = Skip | Linux(value: string) | Initrd(value: string) | Options(value: string)

  /** Comment lines, lines that do not split into exactly two fields and lines
      with an unknown key are skipped; the rest name the kernel, the initrd or
      one piece of the command line. */
  function Classify(line: string): Directive {
    if Strings.HasPrefix(line, "#") then Skip
    else
      var fields := Strings.Fields(line);
      if |fields| != 2 then Skip
      else if fields[0] == "linux" then Linux(fields[1])
      else if fields[0] == "initrd" then Initrd(fields[1])
      else if fields[0] == "options" then Options(fields[1])
      else Skip
  }

  /** The state of the parser between lines. */
  datatype Draft = Draft(kernel: Option<Path>, initrd: Option<Path>, options: seq<string>)

  const Start := Draft(None, None, [])

  /** Reading one line: a kernel or initrd path is resolved against `baseDir`
      and opened, which may fail; options are collected in order. */
  function Step(fs: FileSystem, baseDir: Path, d: Draft, line: string): Result<Draft, Error> {
    match Classify(line)
    case Skip => Ok(d)
    case Linux(v) =>
      var p := FilePath.Join(baseDir, v);
      if p in fs.files then Ok(d.(kernel := Some(p))) else Err(OpenFailed(p))
    case Initrd(v) =>
      var p := FilePath.Join(baseDir, v);
      if p in fs.files then Ok(d.(initrd := Some(p))) else Err(OpenFailed(p))
    case Options(v) => Ok(d.(options := d.options + [v]))
  }

  /** Reading the lines in order, stopping at the first error. */
  function ScanLines(fs: FileSystem, baseDir: Path, lines: seq<string>): Result<Draft, Error> {
    if lines == [] then Ok(Start)
    else
      match ScanLines(fs, baseDir, lines[..|lines| - 1])
      case Err(e) => Err(e)
      case Ok(d) => Step(fs, baseDir, d, lines[|lines| - 1])
  }

  /** The check after the last line: kernel and initrd are both required. */
  function Finish(d: Draft): Result<LinuxImage, Error> {
    if d.kernel.None? || d.initrd.None? then Err(MissingKernelOrInitrd)
    else Ok(LinuxImage(d.kernel.value, d.initrd.value, Strings.Join(d.options, " ")))
  }

  /** The outcome of parsing `entry`, a file in `entriesDir`; kernel and initrd
      paths are relative to the parent of `entriesDir`. */
  function ParsedEntry(fs: FileSystem, entry: Path, entriesDir: Path): Result<LinuxImage, Error> {
    if entry !in fs.files then Err(OpenFailed(entry))
    else
      match ScanLines(fs, FilePath.Dir(entriesDir), fs.files[entry])
      case Err(e) => Err(e)
      case Ok(d) => Finish(d)
  }

  /** Parses one entry file, line by line. */
  method ParseBlsEntry(fs: FileSystem, entry: Path, entriesDir: Path) returns (r: Result<LinuxImage, Error>)
    ensures r == ParsedEntry(fs, entry, entriesDir)
  {
    var baseDir := FilePath.Dir(entriesDir);
    if entry !in fs.files {
      return Err(OpenFailed(entry));
    }
    var lines := fs.files[entry];
    var kernel: Option<Path> := None;
    var initrd: Option<Path> := None;
    var options: seq<string> := [];
    var i := 0;
    while i < |lines|
      invariant 0 <= i <= |lines|
      invariant ScanLines(fs, baseDir, lines[..i]) == Ok(Draft(kernel, initrd, options))
    {
      var line := lines[i];
      ScanLinesStep(fs, baseDir, lines, i);
      if !Strings.HasPrefix(line, "#") {
        var fields := Strings.Fields(line);
        if |fields| == 2 {
          var key, val := fields[0], fields[1];
          if key == "linux" {
            var p := FilePath.Join(baseDir, val);
            if p !in fs.files {
              ScanLinesErrorPersists(fs, baseDir, lines, i + 1);
              return Err(OpenFailed(p));
            }
            kernel := Some(p);
          } else if key == "initrd" {
            var p := FilePath.Join(baseDir, val);
            if p !in fs.files {
              ScanLinesErrorPersists(fs, baseDir, lines, i + 1);
              return Err(OpenFailed(p));
            }
            initrd := Some(p);
          } else if key == "options" {
            options := options + [val];
          }
        }
      }
      i := i + 1;
    }
    assert lines[..|lines|] == lines;
    if kernel.None? || initrd.None? {
      return Err(MissingKernelOrInitrd);
    }
    return Ok(LinuxImage(kernel.value, initrd.value, Strings.Join(options, " ")));
  }

  /** `parseEFIEntry`: Type #2 entries (unified kernel images) are not
      supported, so every one is refused. */
  function ParseEfiEntry(entry: Path): (r: Result<LinuxImage, Error>)
    ensures r.Err? && r.error.EfiUnsupported?
    ensures r.error.Message() == "EFI entries are not yet supported"
  {
    Err(EfiUnsupported)
  }

  /** The entries of `files` that parse, in the order of `files`. */
  function Bootable(fs: FileSystem, files: seq<Path>, entriesDir: Path): (entries: seq<LinuxImage>)
    ensures |entries| <= |files|
  {
    if files == [] then []
    else
      Bootable(fs, files[..|files| - 1], entriesDir) +
      match ParsedEntry(fs, files[|files| - 1], entriesDir)
      case Ok(image) => [image]
      case Err(_) => []
  }

  /** Scans `fsRoot` for bootable Type #1 entries; `glob` is what
      `filepath.Glob` returned for the entries directory's "*.conf" files.
      Entries that do not parse are skipped. */
  method ScanBlsEntries(fs: FileSystem, fsRoot: Path, glob: Glob) returns (r: Result<seq<LinuxImage>, Error>)
    ensures glob.Malformed? ==> r == Err(BadPattern)
    ensures glob.Matches? ==> r == Ok(Bootable(fs, glob.paths, FilePath.Join(fsRoot, BlsEntriesDir)))
  {
    var entriesDir := FilePath.Join(fsRoot, BlsEntriesDir);
    if glob.Malformed? {
      return Err(BadPattern);
    }
    var files := glob.paths;
    var result: seq<LinuxImage> := [];
    for i := 0 to |files|
      invariant result == Bootable(fs, files[..i], entriesDir)
    {
      assert files[..i + 1][..i] == files[..i];
      var entry := ParseBlsEntry(fs, files[i], entriesDir);
      if entry.Err? {
        continue;
      }
      result := result + [entry.value];
    }
    assert files[..|files|] == files;
    return Ok(result);
  }

  /** Scans `fsRoot` for Type #2 entries; `glob` is what `filepath.Glob`
      returned for the EFI directory's "*.efi" files. No entry parses, so the
      scan finds nothing. */
  method ScanEfiEntries(fsRoot: Path, glob: Glob) returns (r: Result<seq<LinuxImage>, Error>)
    ensures glob.Malformed? ==> r == Err(BadPattern)
    ensures glob.Matches? ==> r == Ok([])
  {
    if glob.Malformed? {
      return Err(BadPattern);
    }
    var files := glob.paths;
    var result: seq<LinuxImage> := [];
    for i := 0 to |files|
      invariant result == []
    {
      match ParseEfiEntry(files[i]) {
        case Err(_) =>
          continue;
        case Ok(image) =>
          result := result + [image];
      }
    }
    return Ok(result);
  }

  // ---------------------------------------------------------------------
  // Reference descriptions of the parse, independent of the line-by-line
  // state, and the lemmas that connect them to it.

  datatype Role = KernelRole | InitrdRole

  /** The value a line gives for `role`, if it is a kernel or initrd line. */
  function Reference(line: string, role: Role): Option<string> {
    match Classify(line)
    case Linux(v) => if role == KernelRole then Some(v) else None
    case Initrd(v) => if role == InitrdRole then Some(v) else None
    case _ => None
  }

  /** The value of the last line of `lines` that names the kernel (or initrd). */
  function LastReference(lines: seq<string>, role: Role): Option<string> {
    if lines == [] then None
    else
      var r := Reference(lines[|lines| - 1], role);
      if r.Some? then r else LastReference(lines[..|lines| - 1], role)
  }

  /** The values of the options lines, in file order. */
  function OptionValues(lines: seq<string>): seq<string> {
    if lines == [] then []
    else
      var d := Classify(lines[|lines| - 1]);
      OptionValues(lines[..|lines| - 1]) + if d.Options? then [d.value] else []
  }

  /** A kernel or initrd line whose resolved path cannot be opened. */
  predicate BadReference(fs: FileSystem, baseDir: Path, line: string) {
    var d := Classify(line);
    (d.Linux? || d.Initrd?) && FilePath.Join(baseDir, d.value) !in fs.files
  }

  function Resolved(baseDir: Path, value: Option<string>): Option<Path> {
    match value
    case None => None
    case Some(v) => Some(FilePath.Join(baseDir, v))
  }

  /** When every reference opens, the scan succeeds: the last kernel and the
      last initrd line win, and every options value is kept, in order. */
  lemma {:induction false} ScanLinesWithoutBadReference(fs: FileSystem, baseDir: Path, lines: seq<string>)
    requires forall i :: 0 <= i < |lines| ==> !BadReference(fs, baseDir, lines[i])
    ensures ScanLines(fs, baseDir, lines) ==
      Ok(Draft(Resolved(baseDir, LastReference(lines, KernelRole)),
               Resolved(baseDir, LastReference(lines, InitrdRole)),
               OptionValues(lines)))
  {
    if lines != [] {
      var prefix, last := lines[..|lines| - 1], lines[|lines| - 1];
      assert forall i :: 0 <= i < |prefix| ==> prefix[i] == lines[i];
      ScanLinesWithoutBadReference(fs, baseDir, prefix);
      assert !BadReference(fs, baseDir, last);
      if !Classify(last).Options? {
        assert OptionValues(lines) == OptionValues(prefix) + [] == OptionValues(prefix);
      }
    }
  }

  /** Reading one more line of `lines`. */
  lemma ScanLinesStep(fs: FileSystem, baseDir: Path, lines: seq<string>, i: nat)
    requires i < |lines|
    ensures ScanLines(fs, baseDir, lines[..i]).Err? ==> ScanLines(fs, baseDir, lines[..i + 1]) == ScanLines(fs, baseDir, lines[..i])
    ensures ScanLines(fs, baseDir, lines[..i]).Ok? ==>
      ScanLines(fs, baseDir, lines[..i + 1]) == Step(fs, baseDir, ScanLines(fs, baseDir, lines[..i]).value, lines[i])
  {
    assert lines[..i + 1][..i] == lines[..i];
  }

  /** Once the scan of a prefix has failed, later lines change nothing. */
  lemma {:induction false} ScanLinesErrorPersists(fs: FileSystem, baseDir: Path, lines: seq<string>, n: nat)
    requires n <= |lines|
    requires ScanLines(fs, baseDir, lines[..n]).Err?
    ensures ScanLines(fs, baseDir, lines) == ScanLines(fs, baseDir, lines[..n])
    decreases |lines| - n
  {
    if n == |lines| {
      assert lines[..n] == lines;
    } else {
      var prefix := lines[..|lines| - 1];
      assert prefix[..n] == lines[..n];
      ScanLinesErrorPersists(fs, baseDir, prefix, n);
    }
  }

  /** The scan fails with the first kernel or initrd reference that cannot
      be opened. */
  lemma ScanLinesStopsAtFirstBadReference(fs: FileSystem, baseDir: Path, lines: seq<string>, i: nat)
    requires i < |lines| && BadReference(fs, baseDir, lines[i])
    requires forall j :: 0 <= j < i ==> !BadReference(fs, baseDir, lines[j])
    ensures ScanLines(fs, baseDir, lines) == Err(OpenFailed(FilePath.Join(baseDir, Classify(lines[i]).value)))
  {
    ScanLinesWithoutBadReference(fs, baseDir, lines[..i]);
    ScanLinesStep(fs, baseDir, lines, i);
    ScanLinesErrorPersists(fs, baseDir, lines, i + 1);
  }

  /** A comment line, a line without exactly two fields, or a line with an
      unknown key has no effect wherever it stands. */
  lemma SkippedLineHasNoEffect(fs: FileSystem, baseDir: Path, before: seq<string>, line: string, after: seq<string>)
    requires || Strings.HasPrefix(line, "#")
             || |Strings.Fields(line)| != 2
             || Strings.Fields(line)[0] !in {"linux", "initrd", "options"}
    ensures ScanLines(fs, baseDir, before + [line] + after) == ScanLines(fs, baseDir, before + after)
  {
    assert Classify(line) == Skip;
    SkipHasNoEffect(fs, baseDir, before, line, after);
  }

  /** The induction behind `SkippedLineHasNoEffect`, over the lines after the skipped one. */
  lemma {:induction false} SkipHasNoEffect(fs: FileSystem, baseDir: Path, before: seq<string>, line: string, after: seq<string>)
    requires Classify(line) == Skip
    ensures ScanLines(fs, baseDir, before + [line] + after) == ScanLines(fs, baseDir, before + after)
    decreases |after|
  {
    var whole, without := before + [line] + after, before + after;
    if after == [] {
      assert whole[..|whole| - 1] == before && whole[|whole| - 1] == line;
      assert without == before;
    } else {
      var shorter, last := after[..|after| - 1], after[|after| - 1];
      SkipHasNoEffect(fs, baseDir, before, line, shorter);
      assert whole[..|whole| - 1] == before + [line] + shorter && whole[|whole| - 1] == last;
      assert without[..|without| - 1] == before + shorter && without[|without| - 1] == last;
    }
  }

  /** The converse of `TwoFieldLine`: a line that takes effect is its key
      and a single-word value, with white space around and between them. */
  lemma ReadLineShape(line: string) returns (sp1: string, key: string, sp2: string, sp3: string)
    requires Classify(line) != Skip
    ensures Strings.AllSpace(sp1) && Strings.AllSpace(sp2) && Strings.AllSpace(sp3) && sp2 != []
    ensures key == (if Classify(line).Linux? then "linux" else if Classify(line).Initrd? then "initrd" else "options")
    ensures Classify(line).value != [] && Strings.NoSpace(Classify(line).value)
    ensures line == sp1 + key + (sp2 + Classify(line).value + sp3)
  {
    sp1, sp2, sp3 := Strings.TwoFieldsShape(line);
    key := Strings.Fields(line)[0];
  }

  /** A line of two fields is read by its key whatever white space
      surrounds and separates them: `linux  /vmlinuz\t` names a kernel. A
      line that starts with '#' is a comment, and no known key does. */
  lemma TwoFieldLine(sp1: string, key: string, sp2: string, value: string, sp3: string)
    requires Strings.AllSpace(sp1) && Strings.AllSpace(sp2) && Strings.AllSpace(sp3) && sp2 != []
    requires key != [] && Strings.NoSpace(key) && value != [] && Strings.NoSpace(value)
    ensures Strings.Fields(sp1 + key + (sp2 + value + sp3)) == [key, value]
    ensures key == "linux" ==> Classify(sp1 + key + (sp2 + value + sp3)) == Linux(value)
    ensures key == "initrd" ==> Classify(sp1 + key + (sp2 + value + sp3)) == Initrd(value)
    ensures key == "options" ==> Classify(sp1 + key + (sp2 + value + sp3)) == Options(value)
    ensures key !in {"linux", "initrd", "options"} ==> Classify(sp1 + key + (sp2 + value + sp3)) == Skip
  {
    Strings.FieldsOfTwo(sp1, key, sp2, value, sp3);
    if sp1 == [] && key[0] == '#' {
      // A comment line: skipped, and no known key starts with '#'.
      var line := sp1 + key + (sp2 + value + sp3);
      assert line[0] == key[0];
      assert line[..1] == "#";
      assert key !in {"linux", "initrd", "options"};
    } else {
      NotComment(sp1, key, sp2 + value + sp3);
    }
  }

  /** A line that starts with white space, or with a word whose first
      character is not '#', is not a comment. */
  lemma NotComment(sp: string, key: string, rest: string)
    requires Strings.AllSpace(sp) && key != []
    requires sp != [] || key[0] != '#'
    ensures !Strings.HasPrefix(sp + key + rest, "#")
  {
    var line := sp + key + rest;
    if sp != [] {
      assert line[0] == sp[0];
    } else {
      assert line[0] == key[0];
    }
  }

  /** A line made of other than two words is skipped, whatever its key:
      an options line with two values, say, contributes nothing. */
  lemma LineWithoutTwoWordsIsSkipped(words: seq<string>)
    requires |words| != 2
    requires forall i :: 0 <= i < |words| ==> words[i] != [] && Strings.NoSpace(words[i])
    ensures Classify(Strings.Join(words, " ")) == Skip
  {
    Strings.FieldsOfJoin(words);
  }

  /** The outcome of parsing an entry whose kernel and initrd references all
      open: the last kernel and initrd lines win, the command line is the
      options values joined by single spaces, and an entry without a kernel
      or without an initrd is malformed. */
  lemma ParsedEntryWithoutBadReference(fs: FileSystem, entry: Path, entriesDir: Path)
    requires entry in fs.files
    requires forall i :: 0 <= i < |fs.files[entry]| ==> !BadReference(fs, FilePath.Dir(entriesDir), fs.files[entry][i])
    ensures
      var lines, baseDir := fs.files[entry], FilePath.Dir(entriesDir);
      var kernel, initrd := LastReference(lines, KernelRole), LastReference(lines, InitrdRole);
      ParsedEntry(fs, entry, entriesDir) ==
        if kernel.None? || initrd.None? then Err(MissingKernelOrInitrd)
        else Ok(LinuxImage(FilePath.Join(baseDir, kernel.value), FilePath.Join(baseDir, initrd.value),
                           Strings.Join(OptionValues(lines), " ")))
  {
    ScanLinesWithoutBadReference(fs, FilePath.Dir(entriesDir), fs.files[entry]);
  }

  /** Parsing fails with the first kernel or initrd reference that cannot be
      opened. */
  lemma ParsedEntryStopsAtFirstBadReference(fs: FileSystem, entry: Path, entriesDir: Path, i: nat)
    requires entry in fs.files && i < |fs.files[entry]|
    requires BadReference(fs, FilePath.Dir(entriesDir), fs.files[entry][i])
    requires forall j :: 0 <= j < i ==> !BadReference(fs, FilePath.Dir(entriesDir), fs.files[entry][j])
    ensures ParsedEntry(fs, entry, entriesDir) ==
      Err(OpenFailed(FilePath.Join(FilePath.Dir(entriesDir), Classify(fs.files[entry][i]).value)))
  {
    ScanLinesStopsAtFirstBadReference(fs, FilePath.Dir(entriesDir), fs.files[entry], i);
  }

  /** The options values are single fields. */
  lemma {:induction false} OptionValuesAreFields(lines: seq<string>)
    ensures forall i :: 0 <= i < |OptionValues(lines)| ==>
      OptionValues(lines)[i] != [] && Strings.NoSpace(OptionValues(lines)[i])
  {
    if lines != [] {
      OptionValuesAreFields(lines[..|lines| - 1]);
    }
  }

  /** The command line of a parsed entry splits back into exactly the
      options values of the file, in order. */
  lemma CmdlineSplitsIntoOptions(fs: FileSystem, entry: Path, entriesDir: Path)
    requires ParsedEntry(fs, entry, entriesDir).Ok?
    ensures Strings.Fields(ParsedEntry(fs, entry, entriesDir).value.cmdline) == OptionValues(fs.files[entry])
  {
    var lines, baseDir := fs.files[entry], FilePath.Dir(entriesDir);
    if i :| 0 <= i < |lines| && BadReference(fs, baseDir, lines[i]) {
      var first := FirstBadReference(fs, baseDir, lines, i);
      ScanLinesStopsAtFirstBadReference(fs, baseDir, lines, first);
      assert false;
    }
    ParsedEntryWithoutBadReference(fs, entry, entriesDir);
    OptionValuesAreFields(lines);
    Strings.FieldsOfJoin(OptionValues(lines));
  }

  /** The earliest bad reference, given one. */
  lemma {:induction false} FirstBadReference(fs: FileSystem, baseDir: Path, lines: seq<string>, i: nat) returns (first: nat)
    requires i < |lines| && BadReference(fs, baseDir, lines[i])
    ensures first <= i && BadReference(fs, baseDir, lines[first])
    ensures forall j :: 0 <= j < first ==> !BadReference(fs, baseDir, lines[j])
    decreases i
  {
    if j :| 0 <= j < i && BadReference(fs, baseDir, lines[j]) {
      first := FirstBadReference(fs, baseDir, lines, j);
    } else {
      first := i;
    }
  }

  /** A scan keeps exactly the entries that parse, in the order of the file
      list: `origin` maps each kept entry to the position of its file. */
  lemma {:induction false} BootableIsOrderedFilter(fs: FileSystem, files: seq<Path>, entriesDir: Path)
    returns (origin: seq<nat>)
    ensures |origin| == |Bootable(fs, files, entriesDir)|
    ensures forall j :: 0 <= j < |origin| ==>
      origin[j] < |files| && ParsedEntry(fs, files[origin[j]], entriesDir) == Ok(Bootable(fs, files, entriesDir)[j])
    ensures forall j, k :: 0 <= j < k < |origin| ==> origin[j] < origin[k]
    ensures forall i :: 0 <= i < |files| && ParsedEntry(fs, files[i], entriesDir).Ok? ==> i in origin
  {
    if files == [] {
      origin := [];
    } else {
      var n := |files| - 1;
      var prefix := files[..n];
      var earlier := BootableIsOrderedFilter(fs, prefix, entriesDir);
      if ParsedEntry(fs, files[n], entriesDir).Ok? {
        origin := earlier + [n];
      } else {
        origin := earlier;
      }
    }
  }

  /** Scanning two lists of files one after the other gives the entries of
      both, in order: a file that does not parse contributes nothing and does
      not disturb the others. */
  lemma {:induction false} BootableAppend(fs: FileSystem, first: seq<Path>, second: seq<Path>, entriesDir: Path)
    ensures Bootable(fs, first + second, entriesDir) == Bootable(fs, first, entriesDir) + Bootable(fs, second, entriesDir)
    decreases |second|
  {
    if second == [] {
      assert first + second == first;
    } else {
      var shorter := second[..|second| - 1];
      BootableAppend(fs, first, shorter, entriesDir);
      assert (first + second)[..|first + second| - 1] == first + shorter;
    }
  }
}
