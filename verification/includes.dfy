/** `find_includes`: which of the known headers a source file includes.
    The scan is a raw byte search: a header counts when its first
    occurrence in the file is preceded, within 100 bytes, by a `'#'` whose
    8 bytes spell `#include`. */
module IncludeScanner {
  import opened Text
  import opened Faults

  /** The byte `'#'`. */
  const Hash: Byte := 35

  /** The 8 bytes `#include` the slice after the `'#'` must equal. */
  const IncludeDirective: Bytes := [35, 105, 110, 99, 108, 117, 100, 101]

  /** The directive's bytes are the UTF-8 encoding of `'#include'`. */
  lemma DirectiveIsEncoded()
    ensures IncludeDirective == Encode("#include")
  {
    var d := "#include";
    assert d[0] == '#' && d[1] == 'i' && d[2] == 'n' && d[3] == 'c' && d[4] == 'l' && d[5] == 'u' && d[6] == 'd' && d[7] == 'e';
    assert IsAscii(d);
    var e := Encode(d);
    assert |e| == 8 && forall i :: 0 <= i < 8 ==> e[i] == d[i] as int;
    assert e[0] == 35 && e[1] == 105 && e[2] == 110 && e[3] == 99 && e[4] == 108 && e[5] == 117 && e[6] == 100 && e[7] == 101;
  }

  /** The slice `m[p:p + 8]`, cut short at the end of the file. */
  function SliceAfter(content: Bytes, p: nat): Bytes
    requires p <= |content|
  {
    content[p..if p + 8 <= |content| then p + 8 else |content|]
  }

  /** The source decodes the slice after the `'#'` and compares the text
      with `'#include'`; the model compares the bytes. Whenever the slice
      decodes, both give the same verdict. */
  lemma DecodedSliceAgrees(content: Bytes, p: nat)
    requires p <= |content| && Decode(SliceAfter(content, p)).Some?
    ensures Decode(SliceAfter(content, p)).value == "#include" <==> OccursAt(content, IncludeDirective, p)
  {
    var sl := SliceAfter(content, p);
    assert IncludeDirective == Encode("#include") by {
      DirectiveIsEncoded();
    }
    if Decode(sl).value == "#include" {
      assert sl == IncludeDirective by {
        DecodeSound(sl);
      }
      assert p + 8 <= |content| && content[p..p + 8] == sl;
    }
    if OccursAt(content, IncludeDirective, p) {
      assert sl == IncludeDirective;
      assert Decode(sl) == Some("#include") by {
        DecodeEncode("#include");
      }
    }
  }

  /** How far back from the match the `'#'` may lie. */
  const Window := 100

  /** `p` is the `'#'` nearest before (or at) `found`, at most `Window`
      bytes back. */
  predicate IsNearestHash(content: Bytes, found: int, p: int)
  {
    && 0 <= p <= found < |content|
    && found - p <= Window
    && content[p] == Hash
    && (forall q :: p < q <= found ==> content[q] != Hash)
  }

  /** No `'#'` lies in the window that ends at `found`. */
  predicate NoHashInWindow(content: Bytes, found: int)
    requires found < |content|
  {
    forall q :: 0 <= q <= found && found - q <= Window ==> content[q] != Hash
  }

  /** The backward walk `while m[p] != '#' or found - p > 100: p -= 1`,
      started at `p`, having already passed over `(p, found]`. It stops at
      the first `'#'` inside the window; stepping out of the window or
      below index 0 is the walk's fault. */
  function WalkBack(content: Bytes, found: nat, p: int): (r: Option<nat>)
    requires found < |content| && -1 <= p <= found
    requires forall q :: p < q <= found ==> content[q] != Hash
    ensures r.Some? ==> IsNearestHash(content, found, r.value)
    ensures r.None? ==> NoHashInWindow(content, found)
    decreases p + 1
  {
    if p < 0 || found - p > Window then None
    else if content[p] == Hash then Some(p)
    else WalkBack(content, found, p - 1)
  }

  /** The body of the header loop for one header: not found, found inside
      an include directive, found elsewhere, or the walk's fault. `mmap`
      has refused an empty file before the loop starts. */
  function ScanHeader(header: string, content: Bytes): (r: Result<bool>)
    requires |content| > 0
    // a header that does not occur is never a dependency
    ensures Find(content, Encode(header)) == -1 ==> r == Success(false)
    ensures r == Success(true) ==> exists i :: OccursAt(content, Encode(header), i)
    ensures r.Failure? ==> r.error == WalkFault(header)
  {
    var found := Find(content, Encode(header));
    if found == -1 then Success(false)
    else
      assert found < |content| by {
        assert OccursAt(content, Encode(header), found);
      }
      match WalkBack(content, found, found)
      case None => Failure(WalkFault(header))
      case Some(p) => Success(OccursAt(content, IncludeDirective, p))
  }

  /** The verdict for a header that occurs: it is a dependency exactly when
      the nearest `'#'` before its first occurrence starts the 8 bytes
      `#include`. Later occurrences are never looked at. */
  lemma ScanHeaderNearest(header: string, content: Bytes, p: int)
    requires |content| > 0 && Find(content, Encode(header)) != -1
    requires IsNearestHash(content, Find(content, Encode(header)), p)
    ensures ScanHeader(header, content) == Success(OccursAt(content, IncludeDirective, p))
  {
    var found := Find(content, Encode(header));
    var w := WalkBack(content, found, found);
    assert !NoHashInWindow(content, found);
    NearestHashUnique(content, found, p, w.value);
  }

  /** A header that occurs makes the scan fault exactly when there is no
      `'#'` within 100 bytes before its first occurrence. */
  lemma ScanHeaderFault(header: string, content: Bytes)
    requires |content| > 0 && Find(content, Encode(header)) != -1
    ensures NoHashInWindow(content, Find(content, Encode(header)))
      <==> ScanHeader(header, content) == Failure(WalkFault(header))
  {
    var found := Find(content, Encode(header));
    assert OccursAt(content, Encode(header), found);
    var w := WalkBack(content, found, found);
    if w.Some? {
      assert !NoHashInWindow(content, found);
    }
  }

  /** There is only one nearest `'#'`. */
  lemma NearestHashUnique(content: Bytes, found: int, p: int, p': int)
    requires IsNearestHash(content, found, p) && IsNearestHash(content, found, p')
    ensures p == p'
  {
  }

  /** The raw-substring rule: a header whose first occurrence follows a
      `#include` with no other `'#'` in between, within 100 bytes, is a
      dependency whatever else lies in between (a longer name such as
      `data.h` for the header `a.h`, quotes, a comment). */
  lemma SubstringAfterInclude(pre: Bytes, mid: Bytes, header: string, post: Bytes)
    requires Hash !in mid && header != [] && header[0] != '#'
    requires |IncludeDirective| + |mid| <= Window
    requires forall i :: 0 <= i < |pre| + |IncludeDirective| + |mid| ==>
      !OccursAt(pre + IncludeDirective + mid + Encode(header) + post, Encode(header), i)
    ensures |pre + IncludeDirective + mid + Encode(header) + post| > 0
    ensures ScanHeader(header, pre + IncludeDirective + mid + Encode(header) + post) == Success(true)
  {
    var e := Encode(header);
    assert e[0] != Hash by {
      assert e[0] == EncodeChar(header[0])[0];
    }
    var content := pre + IncludeDirective + mid + e + post;
    var found := |pre| + |IncludeDirective| + |mid|;
    DirectiveBeforeName(pre, mid, e, post);
    assert Find(content, e) == found;
    ScanHeaderNearest(header, content, |pre|);
  }

  /** In `pre + "#include" + mid + name + post`, with no `'#'` in `mid` or
      at the start of `name`, the `'#'` of the directive is the one nearest
      before the name. */
  lemma DirectiveBeforeName(pre: Bytes, mid: Bytes, name: Bytes, post: Bytes)
    requires Hash !in mid && |name| > 0 && name[0] != Hash
    requires |IncludeDirective| + |mid| <= Window
    ensures var content := pre + IncludeDirective + mid + name + post;
      && OccursAt(content, name, |pre| + |IncludeDirective| + |mid|)
      && OccursAt(content, IncludeDirective, |pre|)
      && IsNearestHash(content, |pre| + |IncludeDirective| + |mid|, |pre|)
  {
    var head := pre + IncludeDirective;
    var a := head + mid;
    var content := a + name + post;
    var found := |a|;
    var p := |pre|;
    assert content[found..found + |name|] == name;
    assert content[p..p + |IncludeDirective|] == head[p..] == IncludeDirective;
    assert content[found] == name[0];
    forall q | p < q < found
      ensures content[q] != Hash
    {
      assert content[q] == a[q];
      if q < |head| {
        assert a[q] == head[q] == IncludeDirective[q - p];
      } else {
        assert a[q] == mid[q - |head|];
      }
    }
  }

  // ------------------------------------------------------- the header loop

  /** The loop over the known headers, given each header's verdict: the
      headers it appends, in order, or the first fault. */
  function Collect(headers: seq<string>, verdicts: seq<Result<bool>>): Result<seq<string>>
    requires |verdicts| == |headers|
    decreases |headers|
  {
    if headers == [] then Success([])
    else
      var n := |headers| - 1;
      match Collect(headers[..n], verdicts[..n])
      case Failure(f) => Failure(f)
      case Success(acc) =>
        match verdicts[n]
        case Failure(f) => Failure(f)
        case Success(b) => Success(if b then acc + [headers[n]] else acc)
  }

  /** The loop fails exactly when some verdict is a fault. */
  lemma {:induction false} CollectSucceeds(headers: seq<string>, verdicts: seq<Result<bool>>)
    requires |verdicts| == |headers|
    ensures Collect(headers, verdicts).Success? <==> forall i :: 0 <= i < |verdicts| ==> verdicts[i].Success?
    decreases |headers|
  {
    if headers != [] {
      var n := |headers| - 1;
      CollectSucceeds(headers[..n], verdicts[..n]);
      assert forall i :: 0 <= i < n ==> verdicts[..n][i] == verdicts[i];
    }
  }

  /** A header is appended exactly when its verdict accepts it. */
  lemma {:induction false} CollectMembers(headers: seq<string>, verdicts: seq<Result<bool>>, h: string)
    requires |verdicts| == |headers| && Collect(headers, verdicts).Success?
    ensures h in Collect(headers, verdicts).value
      <==> exists i :: 0 <= i < |headers| && headers[i] == h && verdicts[i] == Success(true)
    decreases |headers|
  {
    if headers != [] {
      var n := |headers| - 1;
      var hs, vs := headers[..n], verdicts[..n];
      CollectMembers(hs, vs, h);
      if exists i :: 0 <= i < n && hs[i] == h && vs[i] == Success(true) {
        var i :| 0 <= i < n && hs[i] == h && vs[i] == Success(true);
        assert headers[i] == h && verdicts[i] == Success(true);
      }
      if exists i :: 0 <= i < |headers| && headers[i] == h && verdicts[i] == Success(true) {
        var i :| 0 <= i < |headers| && headers[i] == h && verdicts[i] == Success(true);
        if i < n {
          assert hs[i] == h && vs[i] == Success(true);
        }
      }
    }
  }

  /** Appended headers keep the order of the known headers. */
  lemma {:induction false} CollectOrder(headers: seq<string>, verdicts: seq<Result<bool>>)
    requires |verdicts| == |headers| && Collect(headers, verdicts).Success?
    ensures IsSubsequence(Collect(headers, verdicts).value, headers)
    decreases |headers|
  {
    if headers != [] {
      var n := |headers| - 1;
      CollectOrder(headers[..n], verdicts[..n]);
      assert headers == headers[..n] + [headers[n]];
      SubsequenceSnoc(Collect(headers[..n], verdicts[..n]).value, headers[..n], headers[n], verdicts[n] == Success(true));
    }
  }

  /** The loop stops at the first fault, with that fault. */
  lemma {:induction false} CollectFirstFault(headers: seq<string>, verdicts: seq<Result<bool>>)
    requires |verdicts| == |headers| && Collect(headers, verdicts).Failure?
    ensures exists i :: (0 <= i < |verdicts|
      && verdicts[i] == Failure(Collect(headers, verdicts).error)
      && forall j :: 0 <= j < i ==> verdicts[j].Success?)
    decreases |headers|
  {
    var n := |headers| - 1;
    var hs, vs := headers[..n], verdicts[..n];
    var f := Collect(headers, verdicts).error;
    if Collect(hs, vs).Failure? {
      CollectFirstFault(hs, vs);
      var i :| 0 <= i < n && vs[i] == Failure(f) && forall j :: 0 <= j < i ==> vs[j].Success?;
      assert forall j :: 0 <= j <= i ==> vs[j] == verdicts[j];
    } else {
      CollectSucceeds(hs, vs);
      assert forall j :: 0 <= j < n ==> vs[j] == verdicts[j];
    }
  }

  /** Once the loop faults on a prefix, the whole loop faults the same way. */
  lemma {:induction false} CollectPrefixFails(headers: seq<string>, verdicts: seq<Result<bool>>, m: nat)
    requires |verdicts| == |headers| && m <= |headers|
    requires Collect(headers[..m], verdicts[..m]).Failure?
    ensures Collect(headers, verdicts) == Collect(headers[..m], verdicts[..m])
    decreases |headers|
  {
    var n := |headers| - 1;
    if m <= n {
      assert headers[..n][..m] == headers[..m] && verdicts[..n][..m] == verdicts[..m];
      CollectPrefixFails(headers[..n], verdicts[..n], m);
    } else {
      assert headers[..m] == headers && verdicts[..m] == verdicts;
    }
  }

  /** `xs` is `ys` with some elements dropped. */
  predicate IsSubsequence<T(==)>(xs: seq<T>, ys: seq<T>)
    decreases |ys|
  {
    if ys == [] then xs == []
    else
      || IsSubsequence(xs, ys[..|ys| - 1])
      || (xs != [] && xs[|xs| - 1] == ys[|ys| - 1] && IsSubsequence(xs[..|xs| - 1], ys[..|ys| - 1]))
  }

  lemma SubsequenceSnoc<T>(xs: seq<T>, ys: seq<T>, y: T, keep: bool)
    requires IsSubsequence(xs, ys)
    ensures IsSubsequence(if keep then xs + [y] else xs, ys + [y])
  {
    var ys' := ys + [y];
    assert ys'[..|ys'| - 1] == ys;
    if keep {
      assert (xs + [y])[..|xs|] == xs;
    }
  }

  /** Each known header is appended at most once. */
  lemma {:induction false} CollectNoDuplicates(headers: seq<string>, verdicts: seq<Result<bool>>)
    requires |verdicts| == |headers| && NoDuplicates(headers)
    requires Collect(headers, verdicts).Success?
    ensures NoDuplicates(Collect(headers, verdicts).value)
    decreases |headers|
  {
    if headers != [] {
      var n := |headers| - 1;
      var hs, vs := headers[..n], verdicts[..n];
      CollectNoDuplicates(hs, vs);
      CollectMembers(hs, vs, headers[n]);
      assert headers[n] !in Collect(hs, vs).value;
    }
  }

  /** Each header's verdict, in the order of the known headers. */
  function Verdicts(headers: seq<string>, content: Bytes): (r: seq<Result<bool>>)
    requires |content| > 0
    ensures |r| == |headers|
    ensures forall i :: 0 <= i < |headers| ==> r[i] == ScanHeader(headers[i], content)
  {
    seq(|headers|, i requires 0 <= i < |headers| => ScanHeader(headers[i], content))
  }

  /** The headers the loop of `find_includes` appends, in the order they
      are tried, or the loop's first fault. */
  function IncludedHeaders(headers: seq<string>, content: Bytes): Result<seq<string>>
    requires |content| > 0
  {
    Collect(headers, Verdicts(headers, content))
  }

  /** The loop fails exactly when some header's scan faults, and then with
      the fault of the first such header. */
  lemma IncludedHeadersFaults(headers: seq<string>, content: Bytes)
    requires |content| > 0
    ensures IncludedHeaders(headers, content).Success?
      <==> forall i :: 0 <= i < |headers| ==> ScanHeader(headers[i], content).Success?
    ensures IncludedHeaders(headers, content).Failure? ==> exists i :: (0 <= i < |headers|
      && ScanHeader(headers[i], content) == Failure(IncludedHeaders(headers, content).error)
      && forall j :: 0 <= j < i ==> ScanHeader(headers[j], content).Success?)
  {
    var vs := Verdicts(headers, content);
    CollectSucceeds(headers, vs);
    if IncludedHeaders(headers, content).Failure? {
      CollectFirstFault(headers, vs);
    }
  }

  /** A header is reported exactly when it is known and its scan accepts
      it; reported headers keep the order of the known headers, and none
      is reported twice. */
  lemma IncludedHeadersReported(headers: seq<string>, content: Bytes, h: string)
    requires |content| > 0 && IncludedHeaders(headers, content).Success?
    ensures h in IncludedHeaders(headers, content).value <==> h in headers && ScanHeader(h, content) == Success(true)
    ensures IsSubsequence(IncludedHeaders(headers, content).value, headers)
    ensures NoDuplicates(headers) ==> NoDuplicates(IncludedHeaders(headers, content).value)
  {
    var vs := Verdicts(headers, content);
    CollectMembers(headers, vs, h);
    CollectOrder(headers, vs);
    if NoDuplicates(headers) {
      CollectNoDuplicates(headers, vs);
    }
  }

  /** What `find_includes` returns for one source file, or its fault. */
  function Includes(headers: seq<string>, filename: string, content: Bytes): Result<string>
  {
    if |content| == 0 then Failure(EmptyMap(filename))
    else
      match IncludedHeaders(headers, content)
      case Success(hs) => Success(Spaced(hs))
      case Failure(f) => Failure(f)
  }

  /** The text `find_includes` returns, split on spaces, is the list of
      known headers whose scan accepts them, followed by the empty piece
      after the last space. */
  lemma IncludesLists(headers: seq<string>, filename: string, content: Bytes)
    requires Includes(headers, filename, content).Success?
    requires forall i :: 0 <= i < |headers| ==> ' ' !in headers[i]
    ensures |content| > 0
    ensures Split(Includes(headers, filename, content).value, ' ') == IncludedHeaders(headers, content).value + [[]]
  {
    var hs := IncludedHeaders(headers, content).value;
    forall i | 0 <= i < |hs|
      ensures ' ' !in hs[i]
    {
      IncludedHeadersReported(headers, content, hs[i]);
    }
    SpacedSplit(hs);
  }

  /** `find_includes` on one source file: the headers it includes, each
      followed by one space. `mmap` refuses an empty file, whatever the
      header list. */
  method FindIncludes(headers: seq<string>, filename: string, content: Bytes) returns (r: Result<string>)
    ensures |content| == 0 ==> r == Failure(EmptyMap(filename))
    ensures |content| > 0 ==> match IncludedHeaders(headers, content)
      case Success(hs) => r == Success(Spaced(hs))
      case Failure(f) => r == Failure(f)
  {
    if |content| == 0 {
      return Failure(EmptyMap(filename));
    }
    ghost var vs := Verdicts(headers, content);
    var includes := "";
    var i := 0;
    while i < |headers|
      invariant 0 <= i <= |headers|
      invariant Collect(headers[..i], vs[..i]).Success?
      invariant includes == Spaced(Collect(headers[..i], vs[..i]).value)
    {
      assert headers[..i + 1][..i] == headers[..i] && vs[..i + 1][..i] == vs[..i];
      var header := headers[i];
      var found := ScanHeader(header, content);
      if found.Failure? {
        assert Collect(headers[..i + 1], vs[..i + 1]) == Failure(found.error);
        CollectPrefixFails(headers, vs, i + 1);
        return Failure(found.error);
      }
      if found.value {
        includes := includes + header + " ";
      }
      i := i + 1;
    }
    assert headers[..i] == headers && vs[..i] == vs;
    return Success(includes);
  }
}
