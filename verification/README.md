# MakeFile_Generator core in Dafny

`create_make.py` scans a directory of C and C++ files and writes a
Makefile for them. This project models the part of it that has logic.

- **The file table of `Source_Files` and its classifier `add_file`.** Every
  regular file is split on `.`. A two-part name goes into a bucket when
  `'.' + strip(ext)` is one of the five keys (`.c .cpp .ps .s .h`); any
  other name is skipped. Each bucket holds a list, a
  space-terminated string and a count. A `.c` or `.cpp` file is searched for
  `int main(`. Without the marker it contributes `stem.o` to the object
  bucket; with it, it becomes the single main file. A second marker file
  raises `MultipleMainError`.
- **The include scanner `find_includes`.** For each known header, in
  discovery order, it finds the first raw occurrence in the source's bytes.
  It walks back to the nearest `#`, at most 100 bytes back, and accepts the
  header when the 8 bytes from that `#` spell `#include`.
- **The dependency writer `create_depend`.** It emits one `X.o: headers`
  line per object file. The headers come from `stem.c` if that file is
  listed, else from `stem.cpp`.
- **The text emitters.** These are `create_var`, `create_header`,
  `create_ender`, `o_rule`, `a_rule` and `create_target`.

Each module in the model matches a part of the program:

- `Faults`: the exceptions, as values.
- `Text`: Python's `find`, `split`, `strip`, `encode('utf-8')` and the
  `acc += item + ' '` idiom.
- `Classifier`: `Source_Files`, `add_file`, `get_files`, `get_full_main`, and
  the `scan_files` loop.
- `IncludeScanner`: `find_includes`.
- `Resolver`: `create_depend`.
- `Emitters`: the text emitters. `create_var`, `create_header`, `o_rule`,
  `a_rule` and `create_target` each have a reader that takes their text
  apart again. `create_ender` and the box edge have no reader: they are
  related to `create_header` instead.

Modelling choices:

- A directory is a list of `Entry(name, content)` in listing order, one
  per regular file: `scan_files` passes only entries for which `is_file()`
  holds to `add_file` (create_make.py:288).
- File contents are byte sequences.
- The exceptions the program raises are `Failure` values:
  - `MultipleMain`: `MultipleMainError`.
  - `EmptyMap`: `mmap` of an empty file raises `ValueError`.
  - `WalkFault`: the backward walk leaves the window.
  - `UnboundIncludes`: `create_depend` reads an unbound variable.
  - `NotFound`: `open` of a listed name that is not a file of the directory.

Three behaviours of the code matter to a reader of the model:

- **An object with no listed source reuses `includes`.** The variable
  keeps its value from the previous iteration. Before the first iteration
  it is unbound, and the read is an `UnboundLocalError`
  (create_make.py:456-460). `DependStale` and `DependUnbound` state both
  cases. `ScanResolvable` shows that neither case arises after a scan of
  names without whitespace.
- **The backward walk has no stopping condition of its own.** The loop at
  create_make.py:436 keeps decrementing while the byte is not `#` or the
  distance exceeds 100. So once it passes 100 bytes without a `#`, it runs
  until the index leaves the buffer. The model returns `WalkFault` for a
  walk that leaves the window or passes index 0.
- **No main file is not an error.** Nothing checks that a main file was
  found, and `create_target` runs with main `('', '')`. `TargetRoundTrip`
  covers that case: the empty main gets the C++ toolchain.

## Model

| member | source | states |
|---|---|---|
| Text.Find | create_make.py:431 | `find` returns -1 exactly when the needle occurs nowhere; otherwise it returns an occurrence with no earlier one |
| Text.JoinSplit | create_make.py:158 | `split('.')` loses nothing: joining the pieces with `.` gives the name back |
| Text.SplitJoin | create_make.py:158 | splitting a join of a non-empty list of separator-free pieces gives the pieces back |
| Text.StripSpec | create_make.py:163 | `strip()` returns the middle of the string between a whitespace prefix and a whitespace suffix; it starts and ends with a non-space, and an unpadded string is its own strip |
| Text.StripSpaceFree | create_make.py:163 | a string without whitespace is its own `strip()` |
| Text.SpacedSplit | create_make.py:165-166 | a space-terminated list of space-free items splits on spaces into the items plus one trailing empty piece |
| Text.Encode | create_make.py:431 | `encode('utf-8')` of an ASCII name is its character codes, one byte each |
| Text.EncodeAppend | create_make.py:431 | `encode('utf-8')` works character by character: the encoding of a concatenation is the concatenation of the encodings |
| Text.DecodeEncode | create_make.py:438 | `decode('utf-8')` of the encoding of any string gives the string back |
| Text.DecodeSound | create_make.py:438 | every byte string the decoder accepts is the encoding of the text it returns |
| Text.EncodeInjective | create_make.py:431 | two header names with the same bytes are the same name, so the search at :431 looks for one name only |
| Classifier.KeyName | create_make.py:141-147 | the five table keys are `.c .cpp .ps .s .h` |
| Classifier.Initial | create_make.py:141-150 | the fresh table is consistent, has no main file, and has empty buckets and a zero total |
| Classifier.Append | create_make.py:165-167 | appending to a bucket extends the list by the item and keeps list, joined string and count in step |
| Classifier.FileUnder | create_make.py:164-168 | filing a name changes only the bucket of its key and raises the total by one, keeping the table consistent |
| Classifier.KindOfWordIsKeyLookup | create_make.py:163-164 | the character test on the extension agrees with the dictionary lookup of `'.' + strip(ext)` in both directions |
| Classifier.ParseSpec | create_make.py:158-163 | `Parse` accepts a name exactly when it holds one dot; the stem is the text before the dot, and the word is the text after it, stripped |
| Classifier.AddFile | create_make.py:152-180 | `add_file` keeps the table consistent; a name that is not C or C++ never fails and leaves `obj` and `main` alone; every failure comes from a C or C++ file |
| Classifier.AddFileRejects | create_make.py:158-164 | a name without exactly two parts, or whose extension is not a key (`.C`, `.S`, `a.b.c`), leaves the whole table unchanged |
| Classifier.AddFileFiles | create_make.py:164-168 | an accepted name is stored in full under its key and no other, and `total_files` grows by one |
| Classifier.AddFileSource | create_make.py:169-180 | a C or C++ file is refused when empty; without the marker it adds `stem.o` and keeps main; with the marker it becomes main and keeps `obj`, or raises `MultipleMainError(previous, current)` if a main is already registered |
| Classifier.GetFiles | create_make.py:182-193 | `get_files` returns the joined string of the bucket named by `strip(ext)`, or the object bucket's for `.o`, and nothing for any other extension |
| Classifier.HasMainIffRegistered | create_make.py:177-180 | `get_full_main() != ''` holds exactly when a main file is registered, and in a valid table exactly when the main file is C or C++ |
| Classifier.MainNameRoundTrip | create_make.py:195-201 | `get_full_main` returns the name of the registered file, for a name without whitespace |
| Classifier.Scan | create_make.py:286-289 | the scan keeps the table consistent |
| Classifier.NamesWithKindMembers | create_make.py:164-168 | a name is filed under a key exactly when some entry has that name and that kind |
| Classifier.ObjectNamesOrigin | create_make.py:169-176 | every derived object name comes from a C or C++ entry without the marker |
| Classifier.FirstMain | create_make.py:178-180 | a first marker file exists exactly when the entries hold a marker file |
| Classifier.ScanFiles | create_make.py:164-168 | a successful scan appends exactly the accepted names of each kind to that bucket, in listing order |
| Classifier.NamesWithKindDistinct | create_make.py:164-168 | when the listing repeats no name, no bucket lists a name twice |
| Classifier.ScanHeadersDistinct | create_make.py:164-168 | after a scan of a listing that repeats no name, the `.h` bucket has no repeats |
| Classifier.ScanObjects | create_make.py:173-176 | a successful scan appends exactly the derived object names to `obj`, in listing order |
| Classifier.ScanAtMostOneMain | create_make.py:177-180 | over a successful scan there is at most one main file, and the main afterwards is the one already registered or else the first marker file |
| Classifier.AddFileSucceeds | create_make.py:169-180 | `add_file` fails only on an empty source file or on a second main file |
| Classifier.ScanFaults | create_make.py:169-180 | a scan fails exactly when an empty source file, or a marker file while a main is registered, comes first, and it fails with that fault |
| IncludeScanner.WalkBack | create_make.py:435-437 | the walk stops at the nearest `#` within 100 bytes before the match; when there is none, it faults |
| IncludeScanner.ScanHeader | create_make.py:431-439 | a header that does not occur is no dependency; an accepted header occurs in the file; the only fault is the walk's |
| IncludeScanner.ScanHeaderNearest | create_make.py:435-438 | a header that occurs, with a nearest `#` in the window, is accepted exactly when the 8 bytes from that `#` are `#include` |
| IncludeScanner.ScanHeaderFault | create_make.py:436-437 | a header that occurs faults exactly when no `#` lies within 100 bytes before its first occurrence |
| IncludeScanner.SubstringAfterInclude | create_make.py:431-439 | for a header that does not start with `#`: a header whose first occurrence follows a `#include` within 100 bytes, with no other `#` in between, is accepted, even inside a longer name such as `data.h` for `a.h` |
| IncludeScanner.CollectSucceeds | create_make.py:430-439 | the header loop fails exactly when some header's verdict is a fault |
| IncludeScanner.CollectMembers | create_make.py:430-439 | a header is appended exactly when its verdict accepts it |
| IncludeScanner.CollectOrder | create_make.py:430-439 | appended headers keep the order of the known headers |
| IncludeScanner.CollectFirstFault | create_make.py:430-439 | the loop stops with the fault of the first header whose verdict is a fault |
| IncludeScanner.CollectNoDuplicates | create_make.py:430-439 | with distinct known headers, no header is appended twice |
| IncludeScanner.IncludedHeadersFaults | create_make.py:430-439 | over one file, the loop fails exactly when some header's scan faults, and then with the first such fault |
| IncludeScanner.IncludedHeadersReported | create_make.py:430-439 | over one file, a header is reported exactly when it is known and its scan accepts it; reports keep discovery order; with distinct known headers, no report repeats |
| IncludeScanner.FindIncludes | create_make.py:417-440 | `find_includes` returns the accepted headers, each followed by one space, or the loop's fault; an empty file is refused by `mmap` |
| IncludeScanner.IncludesLists | create_make.py:430-440 | for header names without spaces, `Includes`, the text `find_includes` returns, split on spaces, is the accepted headers in discovery order followed by one empty piece |
| IncludeScanner.DirectiveIsEncoded | create_make.py:438 | the 8 bytes the model compares with are the UTF-8 encoding of `'#include'` |
| IncludeScanner.DecodedSliceAgrees | create_make.py:438 | whenever the slice `m[p:p+8]` decodes, comparing its text with `'#include'` gives the same verdict as comparing its bytes with the directive |
| Resolver.ContentOf | create_make.py:427-428 | opening a name finds a file of the directory with that name exactly when one exists |
| Resolver.StemOfObject | create_make.py:454-455 | `filename[:-2]` is the name without its last two characters |
| Resolver.StemOfObjectRoundTrip | create_make.py:454-455 | dropping two characters from `stem + '.o'` gives the stem back |
| Resolver.SourceOf | create_make.py:454-459 | the source is `stem.c` exactly when the `.c` bucket lists it, else `stem.cpp` exactly when the `.cpp` bucket lists it, else none |
| Resolver.CFileShadowsCpp | create_make.py:456-459 | when `stem.c` is listed, the object is resolved against it even if `stem.cpp` is listed too |
| Resolver.NextIncludes | create_make.py:454-459 | one iteration scans a listed source that is a file of the directory, whatever `includes` held; with no listed source it keeps the previous value, which is unbound before the first scan; a listed source missing from the directory faults |
| Resolver.IncludesForIgnoresPrevious | create_make.py:454-459 | once the object's source is listed, the previous `includes` plays no part in the iteration |
| Resolver.CreateDepend | create_make.py:443-461 | `create_depend` returns one `object: headers` line per object in `obj` order, or the first fault |
| Resolver.DependResolved | create_make.py:452-460 | `DependLines`, the output of `create_depend`: when every object resolves, each line lists the headers of the object's own source, whatever came before |
| Resolver.DependUnbound | create_make.py:456-460 | an unresolvable first object faults on the unbound `includes` |
| Resolver.DependStale | create_make.py:456-460 | an unresolvable later object repeats the previous line's headers |
| Resolver.ScanResolvable | create_make.py:164-180 | `DependLines` after a successful scan of unpadded names: every object resolves to a file of the directory, so no line reuses stale headers |
| Resolver.SpaceFreeUnpadded | create_make.py:163 | a name without whitespace is unchanged by the `strip` of its extension, so `ScanResolvable` applies to it |
| Resolver.ReportsNeverRepeat | create_make.py:430-439 | in a directory whose listing repeats no name, `find_includes` reports no header twice |
| Resolver.ObjectResolves | create_make.py:173-176 | after a scan of unpadded names, where each bucket lists exactly the entries' names of its kind, each derived object's `stem.c` or `stem.cpp` is listed and present in the directory |
| Emitters.CreateVar | create_make.py:218-227 | a definition line starts with the name and ends in a newline |
| Emitters.VarRoundTrip | create_make.py:227 | reading a definition back gives the name and value, for any name without a tab |
| Emitters.VarParseSound | create_make.py:227 | every line the reader accepts is the definition of what it reads |
| Emitters.Border | create_make.py:305-307 | a box edge, as built for the top and bottom of the header here and again for the ender at create_make.py:318, is `# `, then exactly `len(msg)` `#` characters, then ` #` |
| Emitters.CreateHeader | create_make.py:296-308 | the header starts with the top edge of a box as wide as the message |
| Emitters.HeaderIsBox | create_make.py:305-307 | for a one-line message, the header's lines form a box: equal edges as wide as the middle line, which is `# msg #`, then a blank line |
| Emitters.HeaderRoundTrip | create_make.py:296-308 | the message can be read back out of its header |
| Emitters.CreateEnder | create_make.py:310-318 | the ender is a box edge for the message's length followed by a blank line |
| Emitters.EnderMatchesHeader | create_make.py:304-318 | the ender depends only on the message's length and repeats the header's top edge |
| Emitters.CompilerSuffix | create_make.py:343-344 | `.cpp`, `.C` and `.s` compile with `COMPILE.cc`; any other suffix keeps its own name; `a_rule` repeats the same remap at create_make.py:357-358 |
| Emitters.RulesUseDefinedCompilers | create_make.py:374-382 | checks the hand-copied variable list of create_make.py:378-382 against the rule suffixes of create_make.py:374-376: each rule's compile variable is in the list |
| Emitters.ORuleRoundTrip | create_make.py:334-345 | `ORule`, the model of `o_rule`: the target names the suffix as written, and the recipe runs the compile command of the remapped suffix |
| Emitters.ARuleRoundTrip | create_make.py:348-362 | `ARule`, the model of `a_rule`: the target names the suffix as written, and the recipe starts with the compile command of the remapped suffix |
| Emitters.ToolchainFor | create_make.py:402-409 | the C toolchain is chosen exactly for main extension `.c`, and the C++ one for every other extension, the empty one included |
| Emitters.TargetRoundTrip | create_make.py:398-414 | `CreateTarget`, the model of `create_target`: the target names the main file's stem as the program and lists its own object before `$(OBJFILES)`; its recipe reads back as the seven words compiler, flags, `-o`, program, own object, `$(OBJFILES)`, libraries, where compiler, flags and libraries are `$(CC) $(CFLAGS) $(CLIBFLAGS)` exactly when the main file is `.c` and `$(CXX) $(CXXFLAGS) $(CCLIBFLAGS)` otherwise |

## Left out

- Path handling in `Source_Files.__init__` (create_make.py:131-139) and the directory listing of `scan_files` are left out. Both are filesystem I/O. The directory is a given list of entries for its regular files, and `Scan` models the loop over them.
- `open`, `mmap`, `output_Makefile` and `read_header` are file I/O. Contents are given as bytes, and a missing file is the `NotFound` fault.
- `get_curr_time` reads the clock.
- IncludeScanner.WalkBack: the negative-index read, where Python's `mmap[-1]` reads the last byte for a match in the first 100 bytes, is not modelled. Neither is the exact exception raised once the walk leaves the window. Both are the single `WalkFault`.
- IncludeScanner.ScanHeader: the `UnicodeDecodeError` is not modelled. At create_make.py:438, `decode('utf-8')` raises it when the slice of up to 8 bytes after the `#` is not valid UTF-8. That happens for any invalid byte, including a multi-byte character cut at the slice's end. Where Python raises, the model returns the byte comparison's verdict. `DecodedSliceAgrees` shows that whenever the slice decodes, the two verdicts are the same.
- `create_definitions`, `gather_files`, `create_misc`, `s_rule` and the assembly in `__main__` are left out. They concatenate fixed text and have no logic worth proving. `RulesUseDefinedCompilers` checks the variable list of create_make.py:378-382 against the rule suffixes of create_make.py:374-376. It copies both by hand.
- Emitters.CreateHeader, Emitters.HeaderRoundTrip: for a message containing a newline, the box is not a three-line box. The properties are stated for one-line messages only.
- Emitters.TargetRoundTrip: stated for a main stem without a newline, tab or space. A stem containing them would make the target's text ambiguous to read back.
- Resolver.ScanResolvable: stated for unpadded names, where the stem plus the key is the name itself. `SpaceFreeUnpadded` shows that every name without whitespace is one. A name with whitespace around its extension, such as `a. c`, is filed under `.c`. Its object `a.o` then looks for `a.c`, which is not listed.
- IncludeScanner.IncludedHeadersReported: the no-repeat clause needs distinct known headers. `ReportsNeverRepeat` shows that a scan provides them whenever the directory listing repeats no name, as a real listing never does.
- The `print` in `MultipleMainError.__init__` (create_make.py:102) writes both file names to standard output whenever the exception is built. That is output I/O; the `MultipleMain` fault carries the same two names.
- `encode('utf-8')` at create_make.py:431 raises for a header name holding a lone surrogate. A Dafny `char` is a Unicode scalar value and cannot hold a surrogate, so such a name cannot be expressed and that error is not modelled.
- Concurrency, floating point and Windows path separators do not arise in the modelled core.
