/** remove_citations_from_file and remove_citations_from_folder: the files
    of one folder, read as text, cleaned by the citation stripper and
    written to a sibling file with the derived name. The file system is a
    class whose map of files the two operations update in place. */
module Folder {
  import opened Citations
  import opened PathNames

  /** A Path: the folder it lives in and its last component. */
  datatype FilePath = FilePath(parent: string, name: string)

  /** What is found at a path: a file whose content
      open(path, 'r', encoding='utf-8').read() returns, a file that read
      refuses (bytes that are not UTF-8, no read permission), or a
      directory. */
  datatype FileData = Text(content: string) | Unreadable | Directory

  /** One entry of Path.iterdir() and the answer of its is_file(). */
  datatype DirEntry = DirEntry(name: string, isFile: bool)

  /** Which of its three messages remove_citations_from_file prints: the
      output was written, FileNotFoundError, or any other exception. */
  datatype FileOutcome = Written | NotFound | Failed

  /** How remove_citations_from_folder ends: the folder is missing or not a
      directory, it holds no files, or the summary with processed_count. */
  datatype FolderReport = FolderNotFound | NoFiles | Processed(count: nat)

  /** open(output, 'w') succeeds: the folder of output exists, output is not
      a directory and its permissions allow the write. */
  predicate Writable(files: map<FilePath, FileData>, dirs: set<string>,
                     unwritable: set<FilePath>, output: FilePath)
  {
    output.parent in dirs && output !in unwritable &&
    !(output in files && files[output].Directory?)
  }

  /** The file at input is read as text and its cleaned copy can be written
      to output. */
  predicate Cleans(files: map<FilePath, FileData>, dirs: set<string>,
                   unwritable: set<FilePath>, input: FilePath, output: FilePath)
  {
    input in files && files[input].Text? && Writable(files, dirs, unwritable, output)
  }

  /** The files after one call of remove_citations_from_file. */
  function AfterCleaning(files: map<FilePath, FileData>, dirs: set<string>,
                         unwritable: set<FilePath>, input: FilePath, output: FilePath)
    : (r: map<FilePath, FileData>)
    ensures forall p :: p != output ==> (p in r <==> p in files)
    ensures forall p :: p != output && p in files ==> r[p] == files[p]
    ensures Cleans(files, dirs, unwritable, input, output) ==>
      output in r && r[output] == Text(Strip(files[input].content))
    ensures !Cleans(files, dirs, unwritable, input, output) ==> r == files
  {
    if Cleans(files, dirs, unwritable, input, output)
    then files[output := Text(Strip(files[input].content))]
    else files
  }

  /** The positions at or after i of the listing that are files, in order. */
  function FileIndicesFrom(entries: seq<DirEntry>, i: nat): (ix: seq<nat>)
    requires i <= |entries|
    ensures Increasing(ix)
    ensures forall k :: 0 <= k < |ix| ==> i <= ix[k] < |entries|
    ensures forall j :: i <= j < |entries| ==> (j in ix <==> entries[j].isFile)
    decreases |entries| - i
  {
    if i == |entries| then []
    else if entries[i].isFile then [i] + FileIndicesFrom(entries, i + 1)
    else FileIndicesFrom(entries, i + 1)
  }

  function FileNamesFrom(entries: seq<DirEntry>, i: nat): (names: seq<string>)
    requires i <= |entries|
    ensures |names| == |FileIndicesFrom(entries, i)|
    ensures forall k :: 0 <= k < |names| ==> names[k] == entries[FileIndicesFrom(entries, i)[k]].name
    decreases |entries| - i
  {
    if i == |entries| then []
    else (if entries[i].isFile then [entries[i].name] else []) + FileNamesFrom(entries, i + 1)
  }

  /** [f.name for f in entries if f.is_file()]: the names of the file
      entries, in the order of the listing and with their repetitions. */
  function FileNames(entries: seq<DirEntry>): (names: seq<string>)
    ensures |names| == |FileIndicesFrom(entries, 0)|
    ensures forall k :: 0 <= k < |names| ==> names[k] == entries[FileIndicesFrom(entries, 0)[k]].name
    ensures forall n :: n in names <==> exists e :: e in entries && e.isFile && e.name == n
  {
    var names, ix := FileNamesFrom(entries, 0), FileIndicesFrom(entries, 0);
    assert forall n :: n in names ==> exists e :: e in entries && e.isFile && e.name == n by {
      forall n | n in names ensures exists e :: e in entries && e.isFile && e.name == n {
        var k :| 0 <= k < |names| && names[k] == n;
        assert ix[k] in ix;
        assert entries[ix[k]] in entries;
      }
    }
    assert forall e :: e in entries && e.isFile ==> e.name in names by {
      forall e | e in entries && e.isFile ensures e.name in names {
        var j :| 0 <= j < |entries| && entries[j] == e;
        assert j in ix;
        var k :| 0 <= k < |ix| && ix[k] == j;
        assert names[k] == e.name;
      }
    }
    names
  }

  /** The number of names the loop does not skip. */
  function ProcessedCount(names: seq<string>): (r: nat)
    ensures r <= |names|
    ensures r == 0 <==> forall k :: 0 <= k < |names| ==> IsSkipped(names[k])
  {
    if names == [] then 0
    else
      var init := names[..|names| - 1];
      assert forall k :: 0 <= k < |init| ==> init[k] == names[k];
      ProcessedCount(init) + (if IsSkipped(names[|names| - 1]) then 0 else 1)
  }

  /** The output path of a file the loop does not skip: the derived name in
      the file's own folder. */
  function OutputPath(folder: string, name: string): FilePath {
    FilePath(folder, CleanedName(name))
  }

  /** The files after the loop has visited the given names, in order. */
  function FolderEffect(files: map<FilePath, FileData>, dirs: set<string>,
                        unwritable: set<FilePath>, folder: string, names: seq<string>)
    : map<FilePath, FileData>
  {
    if names == [] then files
    else
      var before := FolderEffect(files, dirs, unwritable, folder, names[..|names| - 1]);
      var name := names[|names| - 1];
      if IsSkipped(name) then before
      else AfterCleaning(before, dirs, unwritable, FilePath(folder, name), OutputPath(folder, name))
  }

  class FileSystem {
    var files: map<FilePath, FileData>
    /** The directories that exist. */
    const dirs: set<string>
    /** The paths whose permissions refuse open(path, 'w'). */
    const unwritable: set<FilePath>

    constructor (files: map<FilePath, FileData>, dirs: set<string>, unwritable: set<FilePath>)
      ensures this.files == files && this.dirs == dirs && this.unwritable == unwritable
    {
      this.files := files;
      this.dirs := dirs;
      this.unwritable := unwritable;
    }

    /** Reads input, strips its citations and writes the result to output;
        every failure is reported, none escapes. A missing input, and a
        missing folder for the output, raise FileNotFoundError. */
    method RemoveCitationsFromFile(input: FilePath, output: FilePath) returns (outcome: FileOutcome)
      modifies this`files
      ensures outcome == NotFound <==>
        input !in old(files) || (old(files)[input].Text? && output.parent !in dirs)
      ensures outcome == Written <==> Cleans(old(files), dirs, unwritable, input, output)
      ensures files == AfterCleaning(old(files), dirs, unwritable, input, output)
    {
      if input !in files {
        return NotFound;
      }
      match files[input]
      case Unreadable =>
        return Failed;
      case Directory =>
        return Failed;
      case Text(content) =>
        var cleaned := Strip(content);
        if output.parent !in dirs {
          return NotFound;
        }
        if output in unwritable || (output in files && files[output].Directory?) {
          return Failed;
        }
        files := files[output := Text(cleaned)];
        return Written;
    }

    /** Cleans every file directly in folder whose stem does not carry the
        marker, in the order of the listing, and counts them. */
    method RemoveCitationsFromFolder(folder: string, entries: seq<DirEntry>)
      returns (report: FolderReport)
      modifies this`files
      ensures folder !in dirs ==> report == FolderNotFound && files == old(files)
      ensures folder in dirs && FileNames(entries) == [] ==> report == NoFiles && files == old(files)
      ensures folder in dirs && FileNames(entries) != [] ==>
        && report == Processed(ProcessedCount(FileNames(entries)))
        && files == FolderEffect(old(files), dirs, unwritable, folder, FileNames(entries))
    {
      if folder !in dirs {
        return FolderNotFound;
      }
      var names := FileNames(entries);
      if names == [] {
        return NoFiles;
      }
      var count := 0;
      for i := 0 to |names|
        invariant count == ProcessedCount(names[..i])
        invariant files == FolderEffect(old(files), dirs, unwritable, folder, names[..i])
      {
        var name := names[i];
        LoopStep(old(files), dirs, unwritable, folder, names, i);
        if IsSkipped(name) {
          continue;
        }
        var outcome := RemoveCitationsFromFile(FilePath(folder, name), OutputPath(folder, name));
        count := count + 1;
      }
      assert names[..|names|] == names;
      return Processed(count);
    }
  }

  /** One more name visited by the loop. */
  lemma LoopStep(files: map<FilePath, FileData>, dirs: set<string>, unwritable: set<FilePath>,
                 folder: string, names: seq<string>, i: nat)
    requires i < |names|
    ensures ProcessedCount(names[..i + 1]) ==
      ProcessedCount(names[..i]) + (if IsSkipped(names[i]) then 0 else 1)
    ensures FolderEffect(files, dirs, unwritable, folder, names[..i + 1]) ==
      if IsSkipped(names[i]) then FolderEffect(files, dirs, unwritable, folder, names[..i])
      else AfterCleaning(FolderEffect(files, dirs, unwritable, folder, names[..i]), dirs, unwritable,
                         FilePath(folder, names[i]), OutputPath(folder, names[i]))
  {
    assert names[..i + 1][..i] == names[..i];
  }

  // ---------------------------------------------------------------------
  // What a run over a folder does to the files

  /** A path that is not the output of a processed name keeps what it had:
      in particular every input file, and everything outside the folder. */
  lemma {:induction false} FolderEffectFrame(files: map<FilePath, FileData>, dirs: set<string>,
                                             unwritable: set<FilePath>, folder: string,
                                             names: seq<string>, p: FilePath)
    requires forall k :: 0 <= k < |names| && !IsSkipped(names[k]) ==> p != OutputPath(folder, names[k])
    ensures p in FolderEffect(files, dirs, unwritable, folder, names) <==> p in files
    ensures p in files ==> FolderEffect(files, dirs, unwritable, folder, names)[p] == files[p]
  {
    if names != [] {
      var init := names[..|names| - 1];
      assert forall k :: 0 <= k < |init| ==> init[k] == names[k];
      FolderEffectFrame(files, dirs, unwritable, folder, init, p);
    }
  }

  /** The run writes only text: every directory afterwards was one before. */
  lemma {:induction false} FolderEffectNoNewDirectories(files: map<FilePath, FileData>, dirs: set<string>,
                                                        unwritable: set<FilePath>, folder: string,
                                                        names: seq<string>, p: FilePath)
    requires p in FolderEffect(files, dirs, unwritable, folder, names)
    requires FolderEffect(files, dirs, unwritable, folder, names)[p].Directory?
    ensures p in files && files[p].Directory?
  {
    if names != [] {
      FolderEffectNoNewDirectories(files, dirs, unwritable, folder, names[..|names| - 1], p);
    }
  }

  /** After the run, the output of a processed name holds the stripped text
      of that file as it was before the run, provided no earlier output
      replaced the file and the name does not recur later in the listing
      (distinct names derive distinct outputs, by CleanedNameInjective). */
  lemma {:induction false} FolderEffectCleans(files: map<FilePath, FileData>, dirs: set<string>,
                                              unwritable: set<FilePath>, folder: string,
                                              names: seq<string>, k: nat)
    requires k < |names| && !IsSkipped(names[k])
    requires forall j :: 0 <= j < k && !IsSkipped(names[j]) ==>
      OutputPath(folder, names[j]) != FilePath(folder, names[k])
    requires forall j :: k < j < |names| ==> names[j] != names[k]
    requires Cleans(files, dirs, unwritable, FilePath(folder, names[k]), OutputPath(folder, names[k]))
    ensures OutputPath(folder, names[k]) in FolderEffect(files, dirs, unwritable, folder, names)
    ensures FolderEffect(files, dirs, unwritable, folder, names)[OutputPath(folder, names[k])]
      == Text(Strip(files[FilePath(folder, names[k])].content))
  {
    var init := names[..|names| - 1];
    assert forall j :: 0 <= j < |init| ==> init[j] == names[j];
    if k < |names| - 1 {
      FolderEffectCleans(files, dirs, unwritable, folder, init, k);
      if !IsSkipped(names[|names| - 1]) {
        CleanedNameInjective(names[|names| - 1], names[k]);
      }
    } else {
      var output := OutputPath(folder, names[k]);
      FolderEffectFrame(files, dirs, unwritable, folder, init, FilePath(folder, names[k]));
      var before := FolderEffect(files, dirs, unwritable, folder, init);
      if output in before && before[output].Directory? {
        FolderEffectNoNewDirectories(files, dirs, unwritable, folder, init, output);
      }
    }
  }

  /** Run again over nothing but the cleaned copies of a first run, the loop
      skips them all and reports a count of 0, as long as no original name
      ends in a '.' after another character. */
  lemma RerunProcessesNothing(names: seq<string>)
    requires forall k :: 0 <= k < |names| ==> !IsSkipped(names[k])
    requires forall k :: 0 <= k < |names| ==> !(|names[k]| >= 2 && names[k][|names[k]| - 1] == '.')
    ensures ProcessedCount(seq(|names|, k requires 0 <= k < |names| => CleanedName(names[k]))) == 0
  {
    var derived := seq(|names|, k requires 0 <= k < |names| => CleanedName(names[k]));
    forall k | 0 <= k < |derived| ensures IsSkipped(derived[k]) {
      SecondRunSkips(names[k]);
    }
  }
}
