/** The file table of `Source_Files` and its classifier `add_file`: the
    five extension buckets, the derived object-file bucket, the single main
    file and the running file count, as an immutable state that `AddFile`
    maps to a new state or to a fault. */
module Classifier {
  import opened Text
  import opened Faults

  /** A regular file of the scanned directory: its name and raw contents. */
  datatype Entry = Entry(name: string, content: Bytes)

  /** One `[list, joined string, count]` triple of the file table. */
  datatype Bucket = Bucket(list: seq<string>, joined: string, count: int)

  /** The `main` pair: stem and extension of the file holding the entry
      point; `("", "")` while none is registered. */
  datatype StemExt = StemExt(stem: string, ext: string)

  /** The five keys of the file table. */
  datatype Kind = C | Cpp | Ps | S | H

  /** The dictionary from the five keys to their buckets. */
  datatype Table = Table(c: Bucket, cpp: Bucket, ps: Bucket, s: Bucket, h: Bucket)
  {
    function Get(k: Kind): Bucket
    {
      match k
      case C => c
      case Cpp => cpp
      case Ps => ps
      case S => s
      case H => h
    }

    function Set(k: Kind, b: Bucket): (r: Table)
      ensures r.Get(k) == b
      ensures forall k' :: k' != k ==> r.Get(k') == Get(k')
    {
      match k
      case C => this.(c := b)
      case Cpp => this.(cpp := b)
      case Ps => this.(ps := b)
      case S => this.(s := b)
      case H => this.(h := b)
    }
  }

  datatype State = State(files: Table, obj: Bucket, main: StemExt, total: int)

  const NoMain := StemExt("", "")

  const ObjSuffix := ".o"

  /** The entry-point marker `int main(`, as bytes. */
  const MainMarker: Bytes := [105, 110, 116, 32, 109, 97, 105, 110, 40]

  /** The key string of each bucket. */
  function KeyName(k: Kind): (r: string)
    ensures r == ".c" || r == ".cpp" || r == ".ps" || r == ".s" || r == ".h"
  {
    match k
    case C => ".c"
    case Cpp => ".cpp"
    case Ps => ".ps"
    case S => ".s"
    case H => ".h"
  }

  // ------------------------------------------------------- the table

  /** The list, the joined string (each item followed by one space) and the
      count of a bucket agree. */
  predicate Consistent(b: Bucket)
  {
    b.joined == Spaced(b.list) && b.count == |b.list|
  }

  function TotalCount(t: Table): int
  {
    t.c.count + t.cpp.count + t.ps.count + t.s.count + t.h.count
  }

  /** What the table keeps true between calls: every bucket consistent,
      `total_files` the sum of the five counts, and a main file, when there
      is one, with a C or C++ extension. */
  predicate Valid(st: State)
  {
    && (forall k :: Consistent(st.files.Get(k)))
    && Consistent(st.obj)
    && st.total == TotalCount(st.files)
    && (st.main == NoMain || st.main.ext == KeyName(C) || st.main.ext == KeyName(Cpp))
  }

  /** `get_full_main`. */
  function FullMain(m: StemExt): string
  {
    m.stem + m.ext
  }

  predicate HasMain(st: State)
  {
    FullMain(st.main) != ""
  }

  /** The table as `Source_Files.__init__` sets it up. */
  function Initial(): (st: State)
    ensures Valid(st) && !HasMain(st)
    ensures st.obj.list == [] && st.total == 0
    ensures forall k :: st.files.Get(k).list == []
  {
    var empty := Bucket([], "", 0);
    State(Table(empty, empty, empty, empty, empty), empty, NoMain, 0)
  }

  /** A bucket after `list.append(x); joined += x + ' '; count += 1`. */
  function Append(b: Bucket, x: string): (r: Bucket)
    ensures r.list == b.list + [x]
    ensures Consistent(b) ==> Consistent(r)
  {
    var r := Bucket(b.list + [x], b.joined + x + " ", b.count + 1);
    assert r.list[..|r.list| - 1] == b.list;
    r
  }

  /** The table after filing `name` under key `k` and counting it. */
  function FileUnder(st: State, k: Kind, name: string): (r: State)
    ensures r.files.Get(k).list == st.files.Get(k).list + [name]
    ensures forall k' :: k' != k ==> r.files.Get(k') == st.files.Get(k')
    ensures r.obj == st.obj && r.main == st.main && r.total == st.total + 1
    ensures Valid(st) ==> Valid(r)
  {
    st.(files := st.files.Set(k, Append(st.files.Get(k), name)), total := st.total + 1)
  }

  // --------------------------------------------------- reading a name

  /** A name that splits on `'.'` into exactly two parts: the stem, and the
      extension without its dot, stripped of surrounding whitespace. */
  datatype Parsed = Parsed(stem: string, word: string)

  function Parse(name: string): Option<Parsed>
  {
    var parts := Split(name, '.');
    if |parts| != 2 then None else Some(Parsed(parts[0], Strip(parts[1])))
  }

  /** A name parses exactly when it holds one dot; the stem is then the
      text before that dot and the word the stripped text after it. */
  lemma ParseSpec(name: string)
    ensures Parse(name).Some? <==> Count(name, '.') == 1
    ensures Parse(name).Some? ==>
      var stem := Parse(name).value.stem;
      && '.' !in stem
      && |stem| < |name| && name[..|stem|] == stem && name[|stem|] == '.'
      && Parse(name).value.word == Strip(name[|stem| + 1..])
  {
    var parts := Split(name, '.');
    if |parts| == 2 {
      JoinSplit(name, '.');
      assert parts[1..] == [parts[1]];
      assert name == parts[0] + ['.'] + parts[1];
      assert name[|parts[0]| + 1..] == parts[1];
    }
  }

  /** `'.' + word in self.files`, compared character by character. */
  function KindOfWord(word: string): Option<Kind>
  {
    if |word| == 1 && word[0] == 'c' then Some(C)
    else if |word| == 3 && word[0] == 'c' && word[1] == 'p' && word[2] == 'p' then Some(Cpp)
    else if |word| == 2 && word[0] == 'p' && word[1] == 's' then Some(Ps)
    else if |word| == 1 && word[0] == 's' then Some(S)
    else if |word| == 1 && word[0] == 'h' then Some(H)
    else None
  }

  /** The extension `'.' + word` is a key of the table exactly when
      `KindOfWord` names that key. */
  lemma KindOfWordIsKeyLookup(word: string, k: Kind)
    ensures KindOfWord(word) == Some(k) <==> "." + word == KeyName(k)
  {
    if "." + word == KeyName(k) {
      assert word == ("." + word)[1..];
    }
  }

  /** The bucket a file name belongs to, if any. */
  function KindOfName(name: string): Option<Kind>
  {
    match Parse(name)
    case None => None
    case Some(p) => KindOfWord(p.word)
  }

  /** The name lands in one of the five buckets. */
  predicate IsAccepted(name: string)
  {
    KindOfName(name).Some?
  }

  /** A C or C++ source file: the only kind `add_file` opens. */
  predicate IsSource(e: Entry)
  {
    KindOfName(e.name) == Some(C) || KindOfName(e.name) == Some(Cpp)
  }

  predicate HasMarker(e: Entry)
  {
    Find(e.content, MainMarker) != -1
  }

  /** A source file that contains the entry-point marker. */
  predicate IsMainEntry(e: Entry)
  {
    IsSource(e) && HasMarker(e)
  }

  /** A source file that `mmap` refuses. */
  predicate IsEmptySource(e: Entry)
  {
    IsSource(e) && |e.content| == 0
  }

  /** The `[name, ext]` pair an accepted file registers as main. */
  function MainOf(e: Entry): (m: StemExt)
    requires IsAccepted(e.name)
    ensures FullMain(m) != ""
  {
    StemExt(Parse(e.name).value.stem, KeyName(KindOfName(e.name).value))
  }

  /** `get_full_main() != ''`, the test at create_make.py:178, holds
      exactly when a main file is registered, and in a valid table that is
      a C or C++ file. */
  lemma HasMainIffRegistered(st: State)
    requires Valid(st)
    ensures HasMain(st) <==> st.main != NoMain
    ensures HasMain(st) <==> st.main.ext == KeyName(C) || st.main.ext == KeyName(Cpp)
  {
    if HasMain(st) {
      assert |st.main.stem + st.main.ext| > 0;
    }
  }

  /** `get_full_main` gives back the name of the registered file when that
      name has no whitespace for `strip` to remove. */
  lemma MainNameRoundTrip(e: Entry)
    requires IsAccepted(e.name)
    requires forall i :: 0 <= i < |e.name| ==> !IsSpace(e.name[i])
    ensures FullMain(MainOf(e)) == e.name
  {
    var name := e.name;
    var k := KindOfName(name).value;
    var stem, word := Parse(name).value.stem, Parse(name).value.word;
    assert |stem| < |name| && name[..|stem|] == stem && name[|stem|] == '.' && word == Strip(name[|stem| + 1..]) by {
      ParseSpec(name);
    }
    var w := name[|stem| + 1..];
    assert name == stem + "." + w;
    assert word == w by {
      StripSpaceFree(w);
    }
    assert KeyName(k) == "." + word by {
      KindOfWordIsKeyLookup(word, k);
    }
    assert MainOf(e) == StemExt(stem, KeyName(k));
    AppendAssoc(stem, ".", w);
  }

  /** The object file `name + '.o'` derived from an accepted file. */
  function ObjectOf(e: Entry): string
    requires IsAccepted(e.name)
  {
    Parse(e.name).value.stem + ObjSuffix
  }

  // ---------------------------------------------------------- add_file

  /** `Source_Files.add_file`: file the entry under its extension, and for a
      C or C++ file either derive its object file or register it as the
      main file. */
  function AddFile(st: State, e: Entry): (r: Result<State>)
    ensures Valid(st) && r.Success? ==> Valid(r.value)
    // only C and C++ files are opened: nothing else can fail or touch `obj` and `main`
    ensures !IsSource(e) ==> r.Success? && r.value.obj == st.obj && r.value.main == st.main
    ensures r.Failure? ==> IsSource(e)
  {
    match Parse(e.name)
    case None => Success(st)
    case Some(p) => AddParsed(st, e, KindOfWord(p.word), p.stem)
  }

  /** The body of `add_file` once the name is split into `stem` and the
      bucket `kind` its extension names, if any. */
  function AddParsed(st: State, e: Entry, kind: Option<Kind>, stem: string): (r: Result<State>)
    ensures Valid(st) && r.Success? ==> Valid(r.value)
    ensures kind != Some(C) && kind != Some(Cpp) ==> r.Success? && r.value.obj == st.obj && r.value.main == st.main
    ensures r.Failure? ==> kind == Some(C) || kind == Some(Cpp)
  {
    var st1 := if kind.Some? then FileUnder(st, kind.value, e.name) else st;
    if kind != Some(C) && kind != Some(Cpp) then Success(st1)
    else if |e.content| == 0 then Failure(EmptyMap(e.name))
    else if !HasMarker(e) then Success(st1.(obj := Append(st1.obj, stem + ObjSuffix)))
    else if HasMain(st1) then Failure(MultipleMain(FullMain(st1.main), e.name))
    else Success(st1.(main := StemExt(stem, KeyName(kind.value))))
  }

  /** A name that does not split into two parts, or whose extension is not
      a key of the table (`.C`, `.S`, `a.b.c`), changes nothing. */
  lemma AddFileRejects(st: State, e: Entry)
    requires !IsAccepted(e.name)
    ensures AddFile(st, e) == Success(st)
  {
  }

  /** An accepted name is appended in full, not as its stem, to the bucket
      of its extension, and to no other bucket; `total_files` grows by one. */
  lemma AddFileFiles(st: State, e: Entry)
    requires Valid(st) && IsAccepted(e.name) && AddFile(st, e).Success?
    ensures var k := KindOfName(e.name).value;
      && AddFile(st, e).value.files.Get(k).list == st.files.Get(k).list + [e.name]
      && (forall k' :: k' != k ==> AddFile(st, e).value.files.Get(k') == st.files.Get(k'))
      && AddFile(st, e).value.total == st.total + 1
  {
    var st1 := FileUnder(st, KindOfName(e.name).value, e.name);
    assert AddFile(st, e).value.files == st1.files && AddFile(st, e).value.total == st1.total;
  }

  /** A C or C++ file: an empty one is refused by `mmap`; without the
      marker its object file `stem.o` is derived and the main file kept;
      with the marker it becomes the main file and `obj` is kept, unless a
      main file is already registered, which raises `MultipleMainError`
      naming both. */
  lemma AddFileSource(st: State, e: Entry)
    requires Valid(st) && IsSource(e)
    ensures |e.content| == 0 ==> AddFile(st, e) == Failure(EmptyMap(e.name))
    ensures |e.content| > 0 && !HasMarker(e) ==>
      && AddFile(st, e).Success?
      && AddFile(st, e).value.obj.list == st.obj.list + [ObjectOf(e)]
      && AddFile(st, e).value.main == st.main
    ensures HasMarker(e) && !HasMain(st) ==>
      && AddFile(st, e).Success?
      && AddFile(st, e).value.main == MainOf(e)
      && AddFile(st, e).value.obj == st.obj
    ensures HasMarker(e) && HasMain(st) ==>
      AddFile(st, e) == Failure(MultipleMain(FullMain(st.main), e.name))
  {
  }

  /** `get_files`: the joined string of the bucket named by `strip(ext)`,
      the object bucket for `.o`, nothing otherwise. */
  function GetFiles(st: State, ext: string): (r: Option<string>)
    ensures Valid(st) ==> (r.Some? <==> (exists k :: Strip(ext) == KeyName(k)) || Strip(ext) == ObjSuffix)
    ensures Valid(st) ==> forall k :: Strip(ext) == KeyName(k) ==> r == Some(Spaced(st.files.Get(k).list))
    ensures Valid(st) && Strip(ext) == ObjSuffix ==> r == Some(Spaced(st.obj.list))
  {
    GetByKey(st, Strip(ext))
  }

  function GetByKey(st: State, key: string): (r: Option<string>)
    ensures Valid(st) ==> (r.Some? <==> (exists k :: key == KeyName(k)) || key == ObjSuffix)
    ensures Valid(st) ==> forall k :: key == KeyName(k) ==> r == Some(Spaced(st.files.Get(k).list))
    ensures Valid(st) && key == ObjSuffix ==> r == Some(Spaced(st.obj.list))
  {
    if key == KeyName(C) then Some(st.files.c.joined)
    else if key == KeyName(Cpp) then Some(st.files.cpp.joined)
    else if key == KeyName(Ps) then Some(st.files.ps.joined)
    else if key == KeyName(S) then Some(st.files.s.joined)
    else if key == KeyName(H) then Some(st.files.h.joined)
    else if key == ObjSuffix then Some(st.obj.joined)
    else None
  }

  // ----------------------------------------------------------- the scan

  /** `add_file` over the directory's regular files in listing order,
      aborting at the first fault. */
  function Scan(st: State, es: seq<Entry>): (r: Result<State>)
    ensures Valid(st) && r.Success? ==> Valid(r.value)
    decreases |es|
  {
    if es == [] then Success(st)
    else
      match AddFile(st, es[0])
      case Failure(f) => Failure(f)
      case Success(st1) => Scan(st1, es[1..])
  }

  /** The names a scan files under key `k`, in order. */
  function NamesWithKind(es: seq<Entry>, k: Kind): seq<string>
  {
    if es == [] then []
    else (if KindOfName(es[0].name) == Some(k) then [es[0].name] else []) + NamesWithKind(es[1..], k)
  }

  /** The object files a scan derives, in order. */
  function ObjectNames(es: seq<Entry>): seq<string>
  {
    if es == [] then []
    else (if IsSource(es[0]) && !HasMarker(es[0]) then [ObjectOf(es[0])] else []) + ObjectNames(es[1..])
  }

  /** The names filed under `k` are exactly the names of the entries of
      that kind. */
  lemma {:induction false} NamesWithKindMembers(es: seq<Entry>, k: Kind, x: string)
    ensures x in NamesWithKind(es, k) <==> exists i :: 0 <= i < |es| && es[i].name == x && KindOfName(x) == Some(k)
    decreases |es|
  {
    if es != [] {
      NamesWithKindMembers(es[1..], k, x);
      assert forall i :: 0 <= i < |es| - 1 ==> es[1..][i] == es[i + 1];
      if x in NamesWithKind(es[1..], k) {
        var i :| 0 <= i < |es| - 1 && es[1..][i].name == x && KindOfName(x) == Some(k);
        assert es[i + 1].name == x;
      }
    }
  }

  /** Every derived object file comes from a source file without the
      marker. */
  lemma {:induction false} ObjectNamesOrigin(es: seq<Entry>, m: nat)
    requires m < |ObjectNames(es)|
    ensures exists i :: 0 <= i < |es| && IsSource(es[i]) && !HasMarker(es[i]) && ObjectOf(es[i]) == ObjectNames(es)[m]
    decreases |es|
  {
    var head := if IsSource(es[0]) && !HasMarker(es[0]) then [ObjectOf(es[0])] else [];
    assert ObjectNames(es) == head + ObjectNames(es[1..]);
    if m >= |head| {
      ObjectNamesOrigin(es[1..], m - |head|);
      var i :| 0 <= i < |es| - 1 && IsSource(es[1..][i]) && !HasMarker(es[1..][i])
        && ObjectOf(es[1..][i]) == ObjectNames(es[1..])[m - |head|];
      assert es[1..][i] == es[i + 1];
    }
  }

  /** The number of entries that carry the entry-point marker. */
  function CountMains(es: seq<Entry>): nat
  {
    if es == [] then 0 else (if IsMainEntry(es[0]) then 1 else 0) + CountMains(es[1..])
  }

  /** The `main` pair of the first entry that carries the marker. */
  function FirstMain(es: seq<Entry>): (r: Option<StemExt>)
    ensures r.None? <==> CountMains(es) == 0
  {
    if es == [] then None
    else if IsMainEntry(es[0]) then Some(MainOf(es[0]))
    else FirstMain(es[1..])
  }

  /** One step of a successful scan files the entry as `NamesWithKind`
      says. */
  lemma StepFiles(st: State, e: Entry)
    requires Valid(st) && AddFile(st, e).Success?
    ensures forall k ::
      AddFile(st, e).value.files.Get(k).list == st.files.Get(k).list + NamesWithKind([e], k)
  {
    if IsAccepted(e.name) {
      AddFileFiles(st, e);
    } else {
      AddFileRejects(st, e);
    }
    assert [e][1..] == [];
  }

  /** One step of a successful scan derives the object files `ObjectNames`
      says. */
  lemma StepObjects(st: State, e: Entry)
    requires Valid(st) && AddFile(st, e).Success?
    ensures AddFile(st, e).value.obj.list == st.obj.list + ObjectNames([e])
  {
    if IsSource(e) {
      AddFileSource(st, e);
    }
    assert [e][1..] == [];
  }

  /** One step of a successful scan registers the entry as main exactly
      when it carries the marker, and only while no main is registered. */
  lemma StepMain(st: State, e: Entry)
    requires Valid(st) && AddFile(st, e).Success?
    ensures AddFile(st, e).value.main == (if IsMainEntry(e) then MainOf(e) else st.main)
    ensures IsMainEntry(e) ==> !HasMain(st)
  {
    if IsSource(e) {
      AddFileSource(st, e);
    }
  }

  /** A successful scan took a successful first step. */
  lemma ScanStep(st: State, es: seq<Entry>)
    requires es != [] && Scan(st, es).Success?
    ensures AddFile(st, es[0]).Success?
    ensures Scan(st, es) == Scan(AddFile(st, es[0]).value, es[1..])
  {
  }

  /** A successful scan appends exactly the accepted names to their buckets,
      in directory order. */
  lemma {:induction false} ScanFiles(st: State, es: seq<Entry>, k: Kind)
    requires Valid(st) && Scan(st, es).Success?
    ensures Scan(st, es).value.files.Get(k).list == st.files.Get(k).list + NamesWithKind(es, k)
    decreases |es|
  {
    if es != [] {
      ScanStep(st, es);
      var st1 := AddFile(st, es[0]).value;
      var first, rest := NamesWithKind([es[0]], k), NamesWithKind(es[1..], k);
      assert st1.files.Get(k).list == st.files.Get(k).list + first by {
        StepFiles(st, es[0]);
      }
      assert Scan(st, es).value.files.Get(k).list == st1.files.Get(k).list + rest by {
        ScanFiles(st1, es[1..], k);
      }
      NamesWithKindCons(es, k);
      AppendAssoc(st.files.Get(k).list, first, rest);
    }
  }

  /** A directory listing never repeats a name. */
  predicate DistinctNames(es: seq<Entry>)
  {
    forall i, j :: 0 <= i < j < |es| ==> es[i].name != es[j].name
  }

  /** Distinct entry names give each bucket distinct names. */
  lemma {:induction false} NamesWithKindDistinct(es: seq<Entry>, k: Kind)
    requires DistinctNames(es)
    ensures NoDuplicates(NamesWithKind(es, k))
    decreases |es|
  {
    if es != [] {
      var rest := NamesWithKind(es[1..], k);
      assert DistinctNames(es[1..]) by {
        assert forall i :: 0 <= i < |es| - 1 ==> es[1..][i] == es[i + 1];
      }
      NamesWithKindDistinct(es[1..], k);
      NamesWithKindMembers(es[1..], k, es[0].name);
      assert es[0].name !in rest by {
        assert forall i :: 0 <= i < |es| - 1 ==> es[1..][i] == es[i + 1];
      }
    }
  }

  /** A successful scan from the fresh table files exactly the accepted
      names of each kind, in listing order. */
  lemma ScanFromInitial(es: seq<Entry>, k: Kind)
    requires Scan(Initial(), es).Success?
    ensures Scan(Initial(), es).value.files.Get(k).list == NamesWithKind(es, k)
  {
    ScanFiles(Initial(), es, k);
    assert [] + NamesWithKind(es, k) == NamesWithKind(es, k);
  }

  /** A scan of a directory lists each header once: the header list
      `find_includes` walks has no repeats. */
  lemma ScanHeadersDistinct(es: seq<Entry>)
    requires DistinctNames(es) && Scan(Initial(), es).Success?
    ensures NoDuplicates(Scan(Initial(), es).value.files.h.list)
  {
    var st := Scan(Initial(), es).value;
    assert NoDuplicates(NamesWithKind(es, H)) by {
      NamesWithKindDistinct(es, H);
    }
    assert st.files.Get(H).list == NamesWithKind(es, H) by {
      ScanFromInitial(es, H);
    }
  }

  lemma NamesWithKindCons(es: seq<Entry>, k: Kind)
    requires es != []
    ensures NamesWithKind(es, k) == NamesWithKind([es[0]], k) + NamesWithKind(es[1..], k)
  {
    assert [es[0]][1..] == [];
  }

  /** A successful scan appends exactly the derived object files to `obj`,
      in directory order. */
  lemma {:induction false} ScanObjects(st: State, es: seq<Entry>)
    requires Valid(st) && Scan(st, es).Success?
    ensures Scan(st, es).value.obj.list == st.obj.list + ObjectNames(es)
    decreases |es|
  {
    if es != [] {
      ScanStep(st, es);
      var st1 := AddFile(st, es[0]).value;
      var first, rest := ObjectNames([es[0]]), ObjectNames(es[1..]);
      assert st1.obj.list == st.obj.list + first by {
        StepObjects(st, es[0]);
      }
      assert Scan(st, es).value.obj.list == st1.obj.list + rest by {
        ScanObjects(st1, es[1..]);
      }
      ObjectNamesCons(es);
      AppendAssoc(st.obj.list, first, rest);
    }
  }

  lemma ObjectNamesCons(es: seq<Entry>)
    requires es != []
    ensures ObjectNames(es) == ObjectNames([es[0]]) + ObjectNames(es[1..])
  {
    assert [es[0]][1..] == [];
  }

  /** Over a successful scan there is at most one main file, counting one
      already registered; the main file afterwards is the registered one or
      else the first marker file of the scan. */
  lemma {:induction false} ScanAtMostOneMain(st: State, es: seq<Entry>)
    requires Valid(st) && Scan(st, es).Success?
    ensures (if HasMain(st) then 1 else 0) + CountMains(es) <= 1
    ensures Scan(st, es).value.main == (if FirstMain(es).Some? then FirstMain(es).value else st.main)
    decreases |es|
  {
    if es != [] {
      var st1 := AddFile(st, es[0]).value;
      StepMain(st, es[0]);
      ScanAtMostOneMain(st1, es[1..]);
      if IsMainEntry(es[0]) {
        assert HasMain(st1);
      }
    }
  }

  /** The only faults of `add_file`: an empty source file, and a second
      main file. */
  lemma AddFileSucceeds(st: State, e: Entry)
    requires Valid(st) && !IsEmptySource(e)
    requires IsMainEntry(e) ==> !HasMain(st)
    ensures AddFile(st, e).Success?
  {
    if IsSource(e) {
      AddFileSource(st, e);
    }
  }

  /** The fault a scan meets first, computed from the entries alone: the
      first empty source file, or the first marker file met while a main
      file is registered, whichever comes first. */
  function FirstFault(main: StemExt, es: seq<Entry>): Option<Fault>
    decreases |es|
  {
    if es == [] then None
    else if IsEmptySource(es[0]) then Some(EmptyMap(es[0].name))
    else if IsMainEntry(es[0]) && main != NoMain then Some(MultipleMain(FullMain(main), es[0].name))
    else FirstFault(if IsMainEntry(es[0]) then MainOf(es[0]) else main, es[1..])
  }

  /** A scan fails exactly when `FirstFault` finds a fault, and with that
      fault: in particular a second marker file aborts the scan with
      `MultipleMainError` naming the first and the second. */
  lemma {:induction false} ScanFaults(st: State, es: seq<Entry>)
    requires Valid(st)
    ensures Scan(st, es).Failure? <==> FirstFault(st.main, es).Some?
    ensures Scan(st, es).Failure? ==> Scan(st, es).error == FirstFault(st.main, es).value
    decreases |es|
  {
    if es != [] {
      var e := es[0];
      assert HasMain(st) <==> st.main != NoMain;
      if IsSource(e) {
        AddFileSource(st, e);
      }
      if AddFile(st, e).Success? {
        var st1 := AddFile(st, e).value;
        assert st1.main == (if IsMainEntry(e) then MainOf(e) else st.main) by {
          StepMain(st, e);
        }
        assert Scan(st, es) == Scan(st1, es[1..]);
        ScanFaults(st1, es[1..]);
      }
    }
  }
}
