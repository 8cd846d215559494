/** `create_depend`: one `object: headers` line per derived object file,
    the headers found by scanning the object's source file. */
module Resolver {
  import opened Text
  import opened Faults
  import opened Classifier
  import opened IncludeScanner

  /** The contents of the first file of the directory with that name. */
  function ContentOf(dir: seq<Entry>, name: string): (r: Option<Bytes>)
    ensures r.Some? <==> exists i :: 0 <= i < |dir| && dir[i].name == name
    ensures r.Some? ==> exists i :: 0 <= i < |dir| && dir[i].name == name && dir[i].content == r.value
  {
    if dir == [] then None
    else if dir[0].name == name then Some(dir[0].content)
    else
      var r := ContentOf(dir[1..], name);
      assert forall i :: 0 <= i < |dir| - 1 ==> dir[1..][i] == dir[i + 1];
      r
  }

  /** `filename[:-2]`: the object name without its last two characters,
      the empty string for a shorter name. */
  function StemOfObject(o: string): (r: string)
    ensures |o| >= 2 ==> o == r + o[|o| - 2..]
    ensures |o| < 2 ==> r == ""
  {
    if |o| >= 2 then o[..|o| - 2] else ""
  }

  /** Dropping the last two characters undoes the `.o` suffix. */
  lemma StemOfObjectRoundTrip(stem: string)
    ensures StemOfObject(stem + ObjSuffix) == stem
  {
    assert (stem + ObjSuffix)[..|stem|] == stem;
  }

  /** The source file an object's dependencies are read from: `stem.c` if
      the `.c` bucket lists it, else `stem.cpp` if the `.cpp` bucket lists
      it, else none. */
  function SourceOf(st: State, o: string): (r: Option<string>)
    ensures var c, cpp := StemOfObject(o) + KeyName(C), StemOfObject(o) + KeyName(Cpp);
      && (r == Some(c) <==> c in st.files.c.list)
      && (r == Some(cpp) <==> c !in st.files.c.list && cpp in st.files.cpp.list)
      && (r.None? <==> c !in st.files.c.list && cpp !in st.files.cpp.list)
  {
    var c, cpp := StemOfObject(o) + KeyName(C), StemOfObject(o) + KeyName(Cpp);
    assert c != cpp by {
      assert c[|c| - 1] == 'c' && cpp[|cpp| - 1] == 'p';
    }
    if c in st.files.c.list then Some(c)
    else if cpp in st.files.cpp.list then Some(cpp)
    else None
  }

  /** A `.c` file shadows the `.cpp` file of the same stem. */
  lemma CFileShadowsCpp(st: State, stem: string)
    requires stem + KeyName(C) in st.files.c.list
    ensures SourceOf(st, stem + ObjSuffix) == Some(stem + KeyName(C))
  {
    StemOfObjectRoundTrip(stem);
  }

  /** The `includes` value one iteration of `create_depend` uses: the scan of
      the object's source, or, when neither source is listed, the value
      left over from the previous iteration, unbound before the first. */
  function IncludesFor(st: State, dir: seq<Entry>, o: string, prev: Option<string>): Result<string>
  {
    match SourceOf(st, o)
    case None => if prev.None? then Failure(UnboundIncludes(o)) else Success(prev.value)
    case Some(name) =>
      match ContentOf(dir, name)
      case None => Failure(NotFound(name))
      case Some(content) => Includes(st.files.h.list, name, content)
  }

  /** The text `create_depend` appends for the objects `objs`, entering the
      loop with `prev` as the value of `includes`. */
  function DependLines(st: State, dir: seq<Entry>, objs: seq<string>, prev: Option<string>): Result<string>
    decreases |objs|
  {
    if objs == [] then Success("")
    else
      match IncludesFor(st, dir, objs[0], prev)
      case Failure(f) => Failure(f)
      case Success(inc) =>
        match DependLines(st, dir, objs[1..], Some(inc))
        case Failure(f) => Failure(f)
        case Success(rest) => Success(objs[0] + ": " + inc + "\n" + rest)
  }

  /** `d` put in front of a successful result. */
  function Prepend(d: string, r: Result<string>): Result<string>
  {
    match r
    case Success(s) => Success(d + s)
    case Failure(f) => Failure(f)
  }

  lemma PrependEmpty(r: Result<string>)
    ensures Prepend("", r) == r
  {
    if r.Success? {
      assert "" + r.value == r.value;
    }
  }

  lemma PrependTwice(d: string, line: string, r: Result<string>)
    ensures Prepend(d, Prepend(line, r)) == Prepend(d + line, r)
  {
    if r.Success? {
      AppendAssoc(d, line, r.value);
    }
  }

  /** One successful iteration of the loop: its line, then the rest. */
  lemma DependStep(st: State, dir: seq<Entry>, objs: seq<string>, includes: Option<string>, next: string)
    requires objs != [] && IncludesFor(st, dir, objs[0], includes) == Success(next)
    ensures DependLines(st, dir, objs, includes)
      == Prepend(objs[0] + ": " + next + "\n", DependLines(st, dir, objs[1..], Some(next)))
  {
  }

  /** Once the object's source is listed, the value `includes` held
      before the iteration plays no part. */
  lemma IncludesForIgnoresPrevious(st: State, dir: seq<Entry>, o: string, p: Option<string>, q: Option<string>)
    requires SourceOf(st, o).Some?
    ensures IncludesFor(st, dir, o, p) == IncludesFor(st, dir, o, q)
  {
  }

  /** One iteration's choice of `includes`. A listed source that is a file
      of the directory is scanned, whatever `includes` held before; an
      object with no listed source keeps the previous value, which is
      unbound before the first scan; a listed source missing from the
      directory cannot be opened. */
  method NextIncludes(st: State, dir: seq<Entry>, o: string, includes: Option<string>) returns (r: Result<string>)
    ensures SourceOf(st, o).None? && includes.None? ==> r == Failure(UnboundIncludes(o))
    ensures SourceOf(st, o).None? && includes.Some? ==> r == Success(includes.value)
    ensures SourceOf(st, o).Some? && ContentOf(dir, SourceOf(st, o).value).None?
      ==> r == Failure(NotFound(SourceOf(st, o).value))
    ensures SourceOf(st, o).Some? && ContentOf(dir, SourceOf(st, o).value).Some?
      ==> r == Includes(st.files.h.list, SourceOf(st, o).value, ContentOf(dir, SourceOf(st, o).value).value)
  {
    var source := SourceOf(st, o);
    if source.None? {
      if includes.None? {
        return Failure(UnboundIncludes(o));
      }
      return Success(includes.value);
    }
    var content := ContentOf(dir, source.value);
    if content.None? {
      return Failure(NotFound(source.value));
    }
    r := FindIncludes(st.files.h.list, source.value, content.value);
  }

  /** The loop of `create_depend` after a successful iteration: the line
      of `objs[i]` has moved from the rest into the text built so far. */
  lemma DependAdvance(st: State, dir: seq<Entry>, objs: seq<string>, i: nat,
                      depends: string, includes: Option<string>, next: string)
    requires i < |objs| && IncludesFor(st, dir, objs[i], includes) == Success(next)
    requires DependLines(st, dir, objs, None) == Prepend(depends, DependLines(st, dir, objs[i..], includes))
    ensures DependLines(st, dir, objs, None)
      == Prepend(depends + (objs[i] + ": " + next + "\n"), DependLines(st, dir, objs[i + 1..], Some(next)))
  {
    assert objs[i..][0] == objs[i] && objs[i..][1..] == objs[i + 1..];
    DependStep(st, dir, objs[i..], includes, next);
    PrependTwice(depends, objs[i] + ": " + next + "\n", DependLines(st, dir, objs[i + 1..], Some(next)));
  }

  /** The loop of `create_depend` after a failed iteration: the whole call
      fails the same way. */
  lemma DependAbort(st: State, dir: seq<Entry>, objs: seq<string>, i: nat,
                    depends: string, includes: Option<string>, f: Fault)
    requires i < |objs| && IncludesFor(st, dir, objs[i], includes) == Failure(f)
    requires DependLines(st, dir, objs, None) == Prepend(depends, DependLines(st, dir, objs[i..], includes))
    ensures DependLines(st, dir, objs, None) == Failure(f)
  {
    assert objs[i..][0] == objs[i];
  }

  /** `create_depend`. */
  method CreateDepend(st: State, dir: seq<Entry>) returns (r: Result<string>)
    ensures r == DependLines(st, dir, st.obj.list, None)
  {
    var objs := st.obj.list;
    var depends := "";
    var includes: Option<string> := None;
    var i := 0;
    assert objs[0..] == objs;
    PrependEmpty(DependLines(st, dir, objs, None));
    while i < |objs|
      invariant 0 <= i <= |objs|
      invariant DependLines(st, dir, objs, None) == Prepend(depends, DependLines(st, dir, objs[i..], includes))
    {
      var filename := objs[i];
      var next := NextIncludes(st, dir, filename, includes);
      if next.Failure? {
        DependAbort(st, dir, objs, i, depends, includes, next.error);
        return Failure(next.error);
      }
      DependAdvance(st, dir, objs, i, depends, includes, next.value);
      depends := depends + (filename + ": " + next.value + "\n");
      includes := Some(next.value);
      i := i + 1;
    }
    assert objs[i..] == [];
    assert depends + "" == depends;
    return Success(depends);
  }

  // ---------------------------------------------------- what the lines mean

  /** Every object names a listed source file that is a file of `dir`. */
  predicate AllResolve(st: State, dir: seq<Entry>, objs: seq<string>)
  {
    forall i :: 0 <= i < |objs| ==> SourceOf(st, objs[i]).Some? && ContentOf(dir, SourceOf(st, objs[i]).value).Some?
  }

  /** The line of one resolvable object: its name and the headers its own
      source includes. */
  function OwnLine(st: State, dir: seq<Entry>, o: string): Result<string>
    requires SourceOf(st, o).Some? && ContentOf(dir, SourceOf(st, o).value).Some?
  {
    var name := SourceOf(st, o).value;
    match Includes(st.files.h.list, name, ContentOf(dir, name).value)
    case Success(inc) => Success(o + ": " + inc + "\n")
    case Failure(f) => Failure(f)
  }

  /** The lines of resolvable objects, in order, stopping at the first
      fault. */
  function OwnLines(st: State, dir: seq<Entry>, objs: seq<string>): Result<string>
    requires AllResolve(st, dir, objs)
    decreases |objs|
  {
    if objs == [] then Success("")
    else
      assert forall i :: 0 <= i < |objs| - 1 ==> objs[1..][i] == objs[i + 1];
      match OwnLine(st, dir, objs[0])
      case Failure(f) => Failure(f)
      case Success(line) =>
        match OwnLines(st, dir, objs[1..])
        case Failure(f) => Failure(f)
        case Success(rest) => Success(line + rest)
  }

  /** When every object resolves, the left-over `includes` never matters:
      each line lists the headers of the object's own source file. */
  lemma {:induction false} DependResolved(st: State, dir: seq<Entry>, objs: seq<string>, prev: Option<string>)
    requires AllResolve(st, dir, objs)
    ensures DependLines(st, dir, objs, prev) == OwnLines(st, dir, objs)
    decreases |objs|
  {
    if objs != [] {
      assert forall i :: 0 <= i < |objs| - 1 ==> objs[1..][i] == objs[i + 1];
      assert SourceOf(st, objs[0]).Some?;
      match IncludesFor(st, dir, objs[0], prev)
      case Failure(f) =>
      case Success(inc) =>
        DependResolved(st, dir, objs[1..], Some(inc));
        match DependLines(st, dir, objs[1..], Some(inc))
        case Failure(f) =>
        case Success(rest) =>
          AppendAssoc(objs[0] + ": " + inc, "\n", rest);
          assert objs[0] + ": " + inc + "\n" + rest == (objs[0] + ": " + inc + "\n") + rest;
    }
  }

  /** An object whose stem names neither a listed `.c` nor a listed `.cpp`
      file, met before any scan assigned `includes`, aborts with the
      unbound-variable fault. */
  lemma DependUnbound(st: State, dir: seq<Entry>, objs: seq<string>)
    requires objs != [] && SourceOf(st, objs[0]).None?
    ensures DependLines(st, dir, objs, None) == Failure(UnboundIncludes(objs[0]))
  {
  }

  /** An object whose stem names neither source file repeats the headers of
      the line before it. */
  lemma DependStale(st: State, dir: seq<Entry>, objs: seq<string>, prev: string)
    requires objs != [] && SourceOf(st, objs[0]).None?
    ensures DependLines(st, dir, objs, Some(prev))
      == Prepend(objs[0] + ": " + prev + "\n", DependLines(st, dir, objs[1..], Some(prev)))
  {
  }

  // ------------------------------------------------- after a directory scan

  /** The name is its stem followed by the key it is filed under: no
      whitespace around the extension. */
  predicate Unpadded(e: Entry)
  {
    IsAccepted(e.name) ==> e.name == Parse(e.name).value.stem + KeyName(KindOfName(e.name).value)
  }

  /** A name without whitespace is unpadded: `strip` finds nothing to
      remove from its extension. */
  lemma SpaceFreeUnpadded(e: Entry)
    requires forall i :: 0 <= i < |e.name| ==> !IsSpace(e.name[i])
    ensures Unpadded(e)
  {
    if IsAccepted(e.name) {
      MainNameRoundTrip(e);
    }
  }

  /** In a scanned directory, `find_includes` reports no header twice:
      the scan lists each header once. */
  lemma ReportsNeverRepeat(es: seq<Entry>, content: Bytes)
    requires DistinctNames(es) && Scan(Initial(), es).Success?
    requires |content| > 0 && IncludedHeaders(Scan(Initial(), es).value.files.h.list, content).Success?
    ensures NoDuplicates(IncludedHeaders(Scan(Initial(), es).value.files.h.list, content).value)
  {
    ScanHeadersDistinct(es);
    IncludedHeadersReported(Scan(Initial(), es).value.files.h.list, content, []);
  }

  /** After a successful scan of a directory whose names carry no
      whitespace around the extension, every object file resolves to a
      listed source file of the directory, so `create_depend` never reuses
      a stale `includes`: each line lists its own source's headers. */
  lemma ScanResolvable(es: seq<Entry>)
    requires Scan(Initial(), es).Success?
    requires forall i :: 0 <= i < |es| ==> Unpadded(es[i])
    ensures AllResolve(Scan(Initial(), es).value, es, Scan(Initial(), es).value.obj.list)
    ensures DependLines(Scan(Initial(), es).value, es, Scan(Initial(), es).value.obj.list, None)
      == OwnLines(Scan(Initial(), es).value, es, Scan(Initial(), es).value.obj.list)
  {
    var st := Scan(Initial(), es).value;
    ScanObjects(Initial(), es);
    forall k
      ensures st.files.Get(k).list == NamesWithKind(es, k)
    {
      ScanFromInitial(es, k);
    }
    assert st.obj.list == ObjectNames(es);
    forall m | 0 <= m < |st.obj.list|
      ensures SourceOf(st, st.obj.list[m]).Some? && ContentOf(es, SourceOf(st, st.obj.list[m]).value).Some?
    {
      ObjectResolves(es, st, m);
    }
    DependResolved(st, es, st.obj.list, None);
  }

  lemma ObjectResolves(es: seq<Entry>, st: State, m: nat)
    requires forall i :: 0 <= i < |es| ==> Unpadded(es[i])
    requires forall k :: st.files.Get(k).list == NamesWithKind(es, k)
    requires m < |ObjectNames(es)|
    ensures SourceOf(st, ObjectNames(es)[m]).Some?
    ensures ContentOf(es, SourceOf(st, ObjectNames(es)[m]).value).Some?
  {
    ObjectNamesOrigin(es, m);
    var i :| 0 <= i < |es| && IsSource(es[i]) && !HasMarker(es[i]) && ObjectOf(es[i]) == ObjectNames(es)[m];
    var e := es[i];
    var stem := Parse(e.name).value.stem;
    var k := KindOfName(e.name).value;
    assert e.name == stem + KeyName(k);
    StemOfObjectRoundTrip(stem);
    NamesWithKindMembers(es, k, e.name);
    assert e.name in st.files.Get(k).list;
    var name := SourceOf(st, ObjectNames(es)[m]).value;
    if name in st.files.c.list {
      NamesWithKindMembers(es, C, name);
    } else {
      assert name in st.files.cpp.list;
      NamesWithKindMembers(es, Cpp, name);
    }
  }
}
