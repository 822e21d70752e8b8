# Citation remover, modelled in Dafny

The script `remove_citations.py` cleans exported text documents of footnote
markers: in every file directly inside a folder it deletes each `1` that sits
between a `.` and whitespace (`"See note.1 here"` becomes `"See note. here"`),
and writes the result next to the original under a name with `_cleaned`
inserted before the extension. Files whose stem already contains `_cleaned`
are skipped, and the number of files handed to the cleaner is reported.

The model has three modules:

- `Citations` (`Citations.dfy`): the substitution
  `re.sub(r'(?<![\d])(?<=\.)1(?=\s)', '', content)` as a left-to-right scan
  `SubFrom` over the text, parameterised by the pattern so that the script's
  pattern can be compared with the same pattern without its negative
  lookbehind. `Strip` is the script's substitution. `KeptPositions` and
  `CitationPositions` list the positions that survive and that are deleted, and serve as the
  independent description the scan is proved against.
- `PathNames` (`PathNames.dfy`): pathlib's `stem` and `suffix` (the last `.`
  starts a suffix only when it is neither the first nor the last character),
  the skip test `"_cleaned" in stem` and the derived name
  `stem + "_cleaned" + suffix`.
- `Folder` (`Folder.dfy`): the file system as a class `FileSystem` whose map
  of files the two operations update in place. `RemoveCitationsFromFile`
  reads, strips and writes one file and reports which of its three messages
  it prints. `RemoveCitationsFromFolder` is the loop over the listing; its
  result is proved equal to `FolderEffect` (the files after visiting the
  names in order) and its count to `ProcessedCount`.

What is proved, in the script's terms: only `1`s between `.` and whitespace
are deleted and every other character is kept in order; the negative
lookbehind never changes the result, because it looks at the same character
as the dot lookbehind (so `"1.1 "` does lose its second `1`, although the
comment at remove_citations.py:14 says the lookbehind inspects the character
before the dot); stripping is idempotent; a derived name is skipped by a
second run exactly when the original name does not end in a `.` after some
other character (`"foo."` becomes `"foo._cleaned"`, whose stem is `"foo"`);
the count is the number of non-skipped files, whether or not reading or
writing them failed; and the cleaned copy of a file holds the stripped text
of the file, unless an earlier output of the same run overwrote the input;
two distinct names never derive the same output.

Only the digit is deleted: the period and the space stay
(`Citations.ExampleCitation`).

## Model

| member | source | states |
|---|---|---|
| `Citations.MatchAt` | remove_citations.py:19 | the pattern tried at one position, lookaround by lookaround; what it accepts is stated by `CitationAtMeans` and `LookbehindRedundant` |
| `Citations.Strip` | remove_citations.py:25 | the substitution with the empty string as a left-to-right scan; its result is characterised by `StripIsKept` and `StripRemovesCitations` |
| `Citations.CitationAtMeans` | remove_citations.py:13-19 | a position is deleted exactly when it holds `1`, has `.` just before it and whitespace just after it; so a `1` at the start, at the end or before a non-whitespace character is kept |
| `Citations.LookbehindRedundant` | remove_citations.py:14-19 | the substitution with `(?<![\d])(?<=\.)1(?=\s)` gives the same text as with `(?<=\.)1(?=\s)`, for every input |
| `Citations.StripIsKept` | remove_citations.py:19-25 | the cleaned text is exactly the characters at the non-citation positions, in their original order |
| `Citations.StripRemovesCitations` | remove_citations.py:19-25 | the cleaned text is shorter by the number of citation positions, and each deleted character is a `1` between `.` and whitespace |
| `Citations.KeptFrom` | remove_citations.py:25 | the surviving positions are increasing, in range, and are exactly the positions that are not citations |
| `Citations.CitationsFrom` | remove_citations.py:25 | the deleted positions are increasing, in range, and are exactly the citation positions |
| `Citations.SubFromCopies` | remove_citations.py:25 | the scan copies unchanged every stretch of text without a citation position |
| `Citations.NoCitationsUnchanged` | remove_citations.py:25 | a text without citation positions is returned unchanged |
| `Citations.NoOneUnchanged` | remove_citations.py:25 | a text containing no `1` is returned unchanged |
| `Citations.KeptNeighbours` | remove_citations.py:19-25 | the characters on both sides of a surviving `1` survive as well, so they are its neighbours in the cleaned text |
| `Citations.StripLeavesNoCitations` | remove_citations.py:19-25 | the cleaned text contains no `.`, `1`, whitespace triple |
| `Citations.StripIdempotent` | remove_citations.py:19-25 | cleaning the cleaned text again changes nothing |
| `Citations.ExampleCitation` | remove_citations.py:13-19 | `"See note.1 here"` becomes `"See note. here"`: the period and the space stay |
| `Citations.ExampleVersion` | remove_citations.py:18-19 | `"Version 1.1. released"` is unchanged |
| `Citations.ExampleVersionBeforeSpace` | remove_citations.py:14-19 | `"1.1 "` becomes `"1. "`, against the comment on the lookbehind |
| `PathNames.LastDot` | remove_citations.py:60-64 | the index found is a `.` with no `.` after it, or -1 when the name has no `.` |
| `PathNames.Suffix` | remove_citations.py:64 | `file_path.suffix`: from the last `.` when it is neither the first nor the last character, else empty; its shape is stated by `StemSuffixSplit` |
| `PathNames.Stem` | remove_citations.py:60 | `file_path.stem`: the name without its suffix, as stated by `StemSuffixSplit` |
| `PathNames.IsSkipped` | remove_citations.py:60-61 | `"_cleaned" in file_path.stem`; which derived names it holds for is stated by `SecondRunSkips` |
| `PathNames.StemSuffixSplit` | remove_citations.py:60-64 | stem followed by suffix is the name; a non-empty suffix is a `.`, at least one more character and no further `.`, after a non-empty stem |
| `PathNames.CleanedName` | remove_citations.py:63-64 | the derived name is the marker's length longer than the name, so never the name itself |
| `PathNames.CleanedNameKeepsSuffix` | remove_citations.py:63-64 | with a suffix, the derived name keeps that suffix and its stem is the old stem followed by `_cleaned` |
| `PathNames.SecondRunSkips` | remove_citations.py:59-64 | for a name that is not skipped, its derived name is skipped exactly when the name does not end in `.` after at least one other character |
| `PathNames.MixedSuffixesDiffer` | remove_citations.py:59-64 | a name with a suffix and a name without one, neither skipped, derive different names |
| `PathNames.CleanedNameInjective` | remove_citations.py:59-64 | two distinct names that are not skipped derive distinct names, so no two files of a folder share an output |
| `PathNames.ExampleTrailingDot` | remove_citations.py:59-64 | `"foo."` becomes `"foo._cleaned"`, and neither name is skipped |
| `Folder.AfterCleaning` | remove_citations.py:21-28 | one cleaning writes the stripped text of a readable input to an output that can be opened for writing and changes no other path; otherwise nothing changes |
| `Folder.FileSystem.RemoveCitationsFromFile` | remove_citations.py:5-35 | reports not-found exactly when the input is missing or, the input being text, the output's folder is missing; written exactly when the input is text and the output can be opened for writing; the generic error otherwise (an unreadable input, a directory as input or output, a refused write); the files become `AfterCleaning` of the old files |
| `Folder.FileIndicesFrom` | remove_citations.py:48 | the positions of the listing that are files: increasing, in range, and exactly those whose entry is a file |
| `Folder.FileNames` | remove_citations.py:48 | the names of the file entries, one per file entry, in the order of the listing; so a name is kept exactly when some file entry has it |
| `Folder.OutputPath` | remove_citations.py:64-65 | the derived name in the folder of the input, `file_path.parent / output_name` |
| `Folder.FolderEffect` | remove_citations.py:57-69 | the files after the loop: the cleanings of the non-skipped names applied in listing order; stated by `FolderEffectFrame` and `FolderEffectCleans` |
| `Folder.ProcessedCount` | remove_citations.py:54-69 | the count is at most the number of names, and 0 exactly when every name is skipped |
| `Folder.FileSystem.RemoveCitationsFromFolder` | remove_citations.py:37-75 | a folder that is not an existing directory, or a listing without files, changes nothing; otherwise the count is the number of non-skipped names, failures included, and the files become `FolderEffect` of the old files over the listing in order |
| `Folder.LoopStep` | remove_citations.py:57-69 | visiting one more name adds one to the count and one cleaning to the files exactly when the name is not skipped |
| `Folder.FolderEffectFrame` | remove_citations.py:57-69 | a path that is no processed name's output, in particular every path outside the folder, keeps its contents |
| `Folder.FolderEffectNoNewDirectories` | remove_citations.py:57-69 | the run writes only text: every directory afterwards was a directory before |
| `Folder.FolderEffectCleans` | remove_citations.py:57-69 | a processed file's output holds the stripped text of the file as it was before the run, unless an earlier output replaced the file or the same name recurs later in the listing |
| `Folder.RerunProcessesNothing` | remove_citations.py:59-69 | over only the derived names of a run, none of whose names ends in `.` after another character, a second run counts 0 |

## Left out

- Printing (remove_citations.py:30, 33, 35, 44, 51, 72, 74-75) is left out; `FileOutcome` and `FolderReport` record which message would be printed, and the count.
- The checks `exists` and `is_dir` (remove_citations.py:43) are membership of the folder in the file system's set of directories; `iterdir` and `is_file` (remove_citations.py:48) are a parameter of `RemoveCitationsFromFolder`, the listing with a flag per entry, in the order the operating system gives it, which is not tied to the map of files.
- File contents are the text after decoding and Python's universal-newline translation on reading; the translation itself (`\r\n` and `\r` read as `\n`) is not modelled.
- Folder.FileSystem.RemoveCitationsFromFile: a write that fails after the output was opened, and so leaves it truncated, is not modelled; an output path either accepts the whole text or refuses to be opened. The set of directories is not tied to the map of files, so a path whose parent is not in that set is reported as `NotFound`, for the input and for the output, even where the parent is in fact a regular file and the script gets `NotADirectoryError` and prints the generic error (remove_citations.py:34-35); the loop never builds such a path, since its input and output share the folder it checked.
- `\d` is modelled as the ASCII digits; the only fact used about it is that `.` is not a digit, which holds for Python's Unicode definition as well. `\s` is modelled as the characters for which `str.isspace()` holds.
- The stem and suffix rule is the one where a final `.` never starts a suffix; pathlib versions that treat a trailing `.` differently are not modelled.
- The outer `except Exception` of the loop (remove_citations.py:71-72) is unreachable in the model: nothing in the loop body raises, since `remove_citations_from_file` catches every exception itself (a failing print inside its handlers is not modelled).
- Symbolic links, and files or directories changing underneath the loop, are not modelled; the set of directories is fixed for a run.
- The `__main__` block with its hard-coded folder (remove_citations.py:77-81) is left out.
- `_site/src/index.js` is a browser carousel set-up and is not part of this model.
