/** Sequence and string operations the generator borrows from Python:
    `find`, `split`, `strip`, the space-terminated lists it builds with
    `acc += item + ' '`, and the UTF-8 encoding of names. */
module Text {

  import opened Faults

  /** One byte of a file's raw contents. */
  type Byte = b: int | 0 <= b < 256

  type Bytes = seq<Byte>

  // ---------------------------------------------------------------- find

  /** `needle` occurs in `hay` starting at index `i`. */
  predicate OccursAt<T(==)>(hay: seq<T>, needle: seq<T>, i: int)
  {
    0 <= i && i + |needle| <= |hay| && hay[i..i + |needle|] == needle
  }

  /** Python's `find` (on `str` and on `mmap`): the index of the first
      occurrence of `needle` in `hay`, or -1 when there is none. */
  function Find<T(==)>(hay: seq<T>, needle: seq<T>): (r: int)
    ensures r == -1 || OccursAt(hay, needle, r)
    ensures r == -1 <==> forall i :: !OccursAt(hay, needle, i)
    ensures forall i :: 0 <= i < r ==> !OccursAt(hay, needle, i)
  {
    FindFrom(hay, needle, 0)
  }

  function FindFrom<T(==)>(hay: seq<T>, needle: seq<T>, k: nat): (r: int)
    ensures r == -1 || (k <= r && OccursAt(hay, needle, r))
    ensures r == -1 <==> forall i :: k <= i ==> !OccursAt(hay, needle, i)
    ensures forall i :: k <= i < r ==> !OccursAt(hay, needle, i)
    decreases |hay| - k
  {
    if k + |needle| > |hay| then -1
    else if hay[k..k + |needle|] == needle then k
    else FindFrom(hay, needle, k + 1)
  }

  /** Concatenation is associative: the emitters' texts are built by
      appending piece after piece, and their readers regroup the pieces. */
  lemma AppendAssoc<T>(a: seq<T>, b: seq<T>, c: seq<T>)
    ensures a + b + c == a + (b + c)
  {
  }

  /** No element occurs twice. */
  predicate NoDuplicates<T(==)>(xs: seq<T>)
  {
    forall i, j :: 0 <= i < j < |xs| ==> xs[i] != xs[j]
  }

  // --------------------------------------------------------- split / join

  /** Number of occurrences of `c` in `s`. */
  function Count(s: string, c: char): nat
  {
    if s == [] then 0 else (if s[0] == c then 1 else 0) + Count(s[1..], c)
  }

  /** Python's `s.split(sep)` for a one-character separator: the pieces
      between separators, empty pieces included. */
  function Split(s: string, sep: char): (parts: seq<string>)
    ensures |parts| == Count(s, sep) + 1
    ensures forall i :: 0 <= i < |parts| ==> sep !in parts[i]
  {
    if s == [] then [[]]
    else
      var rest := Split(s[1..], sep);
      if s[0] == sep then [[]] + rest
      else [[s[0]] + rest[0]] + rest[1..]
  }

  /** Python's `sep.join(parts)`. */
  function Join(parts: seq<string>, sep: char): string
  {
    if |parts| == 0 then []
    else if |parts| == 1 then parts[0]
    else parts[0] + [sep] + Join(parts[1..], sep)
  }

  /** A character that is not the separator and occurs in no piece does
      not occur in the join. */
  lemma {:induction false} JoinExcludes(parts: seq<string>, sep: char, c: char)
    requires c != sep
    requires forall i :: 0 <= i < |parts| ==> c !in parts[i]
    ensures c !in Join(parts, sep)
  {
    if |parts| > 1 {
      JoinExcludes(parts[1..], sep, c);
    }
  }

  /** Joining the pieces of a split gives back the original string. */
  lemma {:induction false} JoinSplit(s: string, sep: char)
    ensures Join(Split(s, sep), sep) == s
  {
    if s != [] {
      var rest := Split(s[1..], sep);
      JoinSplit(s[1..], sep);
      if s[0] == sep {
        assert ([[]] + rest)[1..] == rest;
      } else if |rest| > 1 {
        var parts := [[s[0]] + rest[0]] + rest[1..];
        assert parts[1..] == rest[1..];
        assert Join(rest, sep) == rest[0] + [sep] + Join(rest[1..], sep);
      }
    }
  }

  lemma {:induction false} SplitNoSep(a: string, sep: char)
    requires sep !in a
    ensures Split(a, sep) == [a]
  {
    if a != [] {
      SplitNoSep(a[1..], sep);
      assert [a[0]] + a[1..] == a;
    }
  }

  lemma {:induction false} SplitCons(a: string, b: string, sep: char)
    requires sep !in a
    ensures Split(a + [sep] + b, sep) == [a] + Split(b, sep)
  {
    var s := a + [sep] + b;
    if a == [] {
      assert s[1..] == b;
    } else {
      assert s[1..] == a[1..] + [sep] + b;
      SplitCons(a[1..], b, sep);
      assert [a[0]] + a[1..] == a;
    }
  }

  /** A string with exactly one separator splits into the two sides. */
  lemma TwoPieces(a: string, b: string, sep: char)
    requires sep !in a && sep !in b
    ensures Split(a + [sep] + b, sep) == [a, b]
  {
    SplitCons(a, b, sep);
    SplitNoSep(b, sep);
  }

  /** Splitting a join of separator-free pieces gives back the pieces. */
  lemma {:induction false} SplitJoin(parts: seq<string>, sep: char)
    requires |parts| > 0
    requires forall i :: 0 <= i < |parts| ==> sep !in parts[i]
    ensures Split(Join(parts, sep), sep) == parts
  {
    if |parts| == 1 {
      SplitNoSep(parts[0], sep);
    } else {
      SplitJoin(parts[1..], sep);
      SplitCons(parts[0], Join(parts[1..], sep), sep);
      assert [parts[0]] + parts[1..] == parts;
    }
  }

  // ---------------------------------------------------------------- strip

  /** The characters Python's `str.strip()` removes (`str.isspace`). */
  predicate IsSpace(c: char)
  {
    || ('\t' <= c <= '\r')
    || ('\U{1C}' <= c <= '\U{1F}')
    || c == ' '
    || c == '\U{85}'
    || c == '\U{A0}'
    || c == '\U{1680}'
    || ('\U{2000}' <= c <= '\U{200A}')
    || c == '\U{2028}'
    || c == '\U{2029}'
    || c == '\U{202F}'
    || c == '\U{205F}'
    || c == '\U{3000}'
  }

  predicate AllSpace(s: string)
  {
    forall i :: 0 <= i < |s| ==> IsSpace(s[i])
  }

  /** `s` without its leading whitespace. */
  function TrimStart(s: string): string
  {
    if |s| > 0 && IsSpace(s[0]) then TrimStart(s[1..]) else s
  }

  /** `s` without its trailing whitespace. */
  function TrimEnd(s: string): string
  {
    if |s| > 0 && IsSpace(s[|s| - 1]) then TrimEnd(s[..|s| - 1]) else s
  }

  /** Python's `s.strip()`. */
  function Strip(s: string): string
  {
    TrimEnd(TrimStart(s))
  }

  /** `TrimStart` removes a whitespace prefix and nothing more. */
  lemma {:induction false} TrimStartSpec(s: string)
    ensures |TrimStart(s)| <= |s| && TrimStart(s) == s[|s| - |TrimStart(s)|..]
    ensures AllSpace(s[..|s| - |TrimStart(s)|])
    ensures |TrimStart(s)| > 0 ==> !IsSpace(TrimStart(s)[0])
  {
    if |s| > 0 && IsSpace(s[0]) {
      TrimStartSpec(s[1..]);
      var r := TrimStart(s);
      assert s[..|s| - |r|] == [s[0]] + s[1..][..|s| - 1 - |r|];
    }
  }

  /** `TrimEnd` removes a whitespace suffix and nothing more. */
  lemma {:induction false} TrimEndSpec(s: string)
    ensures |TrimEnd(s)| <= |s| && TrimEnd(s) == s[..|TrimEnd(s)|]
    ensures AllSpace(s[|TrimEnd(s)|..])
    ensures |TrimEnd(s)| > 0 ==> !IsSpace(TrimEnd(s)[|TrimEnd(s)| - 1])
  {
    if |s| > 0 && IsSpace(s[|s| - 1]) {
      var t := s[..|s| - 1];
      TrimEndSpec(t);
      var r := TrimEnd(s);
      assert s[|r|..] == t[|r|..] + [s[|s| - 1]];
    }
  }

  /** `Strip(s)` is the part of `s` between a whitespace prefix and a
      whitespace suffix, and starts and ends with a non-space; so a string
      that neither starts nor ends with whitespace is its own strip. */
  lemma StripSpec(s: string)
    ensures exists i :: OccursAt(s, Strip(s), i) && AllSpace(s[..i]) && AllSpace(s[i + |Strip(s)|..])
    ensures |Strip(s)| > 0 ==> !IsSpace(Strip(s)[0]) && !IsSpace(Strip(s)[|Strip(s)| - 1])
    ensures |s| == 0 || (!IsSpace(s[0]) && !IsSpace(s[|s| - 1])) ==> Strip(s) == s
  {
    var t := TrimStart(s);
    var r := TrimEnd(t);
    assert Strip(s) == r;
    TrimStartSpec(s);
    TrimEndSpec(t);
    var i := |s| - |t|;
    assert OccursAt(s, r, i) && AllSpace(s[..i]) && AllSpace(s[i + |r|..]) by {
      StripWitness(s, t, r);
    }
    if |r| > 0 {
      assert r[0] == t[0];
    }
    if |s| == 0 || (!IsSpace(s[0]) && !IsSpace(s[|s| - 1])) {
      assert t == s;
    }
  }

  /** A string without whitespace is its own strip. */
  lemma StripSpaceFree(s: string)
    requires forall i :: 0 <= i < |s| ==> !IsSpace(s[i])
    ensures Strip(s) == s
  {
    StripSpec(s);
  }

  lemma StripWitness(s: string, t: string, r: string)
    requires |t| <= |s| && t == s[|s| - |t|..] && AllSpace(s[..|s| - |t|])
    requires |r| <= |t| && r == t[..|r|] && AllSpace(t[|r|..])
    ensures OccursAt(s, r, |s| - |t|)
    ensures AllSpace(s[..|s| - |t|]) && AllSpace(s[|s| - |t| + |r|..])
  {
    var i := |s| - |t|;
    assert s[i + |r|..] == t[|r|..];
  }

  // ------------------------------------------------ space-terminated lists

  /** The string the generator accumulates with `acc += item + ' '`:
      every item followed by one space. */
  function Spaced(items: seq<string>): string
  {
    if items == [] then []
    else Spaced(items[..|items| - 1]) + items[|items| - 1] + " "
  }

  lemma {:induction false} SpacedCons(x: string, items: seq<string>)
    ensures Spaced([x] + items) == x + " " + Spaced(items)
    decreases |items|
  {
    if items == [] {
      assert ([x] + items)[..0] == [];
    } else {
      var init := items[..|items| - 1];
      assert ([x] + items)[..|items|] == [x] + init;
      SpacedCons(x, init);
    }
  }

  /** A space-terminated list is the space-join of the items followed by
      one empty item. */
  lemma {:induction false} SpacedIsJoin(items: seq<string>)
    ensures Spaced(items) == Join(items + [[]], ' ')
  {
    if items != [] {
      SpacedIsJoin(items[1..]);
      SpacedCons(items[0], items[1..]);
      assert [items[0]] + items[1..] == items;
      assert (items + [[]])[1..] == items[1..] + [[]];
    }
  }

  /** When no item contains a space, splitting the list on spaces gives the
      items back, followed by the empty piece after the final space. */
  lemma SpacedSplit(items: seq<string>)
    requires forall i :: 0 <= i < |items| ==> ' ' !in items[i]
    ensures Split(Spaced(items), ' ') == items + [[]]
  {
    SpacedIsJoin(items);
    SplitJoin(items + [[]], ' ');
  }

  // ---------------------------------------------------------------- lines

  /** Text made of the given lines, each terminated by a newline. */
  function Unlines(lines: seq<string>): string
  {
    if lines == [] then [] else lines[0] + "\n" + Unlines(lines[1..])
  }

  /** Splitting such text at newlines gives the lines back, followed by the
      empty piece after the final newline. */
  lemma {:induction false} UnlinesSplit(lines: seq<string>)
    requires forall i :: 0 <= i < |lines| ==> '\n' !in lines[i]
    ensures Split(Unlines(lines), '\n') == lines + [[]]
  {
    if lines != [] {
      UnlinesSplit(lines[1..]);
      SplitCons(lines[0], Unlines(lines[1..]), '\n');
      assert [lines[0]] + lines[1..] == lines;
    }
  }

  // --------------------------------------------------------------- repeat

  /** Python's `n * c` for a one-character string. */
  function Repeat(c: char, n: nat): (r: string)
    ensures |r| == n
    ensures forall i :: 0 <= i < n ==> r[i] == c
  {
    if n == 0 then [] else [c] + Repeat(c, n - 1)
  }

  // ---------------------------------------------------------------- UTF-8

  predicate IsAscii(s: string)
  {
    forall i :: 0 <= i < |s| ==> s[i] as int < 0x80
  }

  /** The byte at `i`, or 0 past the end. */
  function At(bs: Bytes, i: nat): int
  {
    if i < |bs| then bs[i] as int else 0
  }

  /** A continuation byte `10xxxxxx` of a multi-byte form. */
  predicate IsCont(b: int)
  {
    0x80 <= b < 0xC0
  }

  /** The UTF-8 encoding of one Unicode scalar value. */
  function EncodeChar(c: char): (r: Bytes)
    ensures 1 <= |r| <= 4
    ensures |r| == 1 <==> c as int < 0x80
    ensures |r| == 1 ==> r[0] == c as int
    // a lead byte of a longer form is never an ASCII code
    ensures |r| > 1 ==> r[0] >= 0xC0
    ensures forall i :: 1 <= i < |r| ==> IsCont(r[i])
  {
    var n := c as int;
    if n < 0x80 then [n]
    else if n < 0x800 then [0xC0 + n / 0x40, 0x80 + n % 0x40]
    else if n < 0x1_0000 then [0xE0 + n / 0x1000, 0x80 + (n / 0x40) % 0x40, 0x80 + n % 0x40]
    else [0xF0 + n / 0x4_0000, 0x80 + (n / 0x1000) % 0x40, 0x80 + (n / 0x40) % 0x40, 0x80 + n % 0x40]
  }

  /** Python's `s.encode('utf-8')`. An ASCII string encodes to its
      character codes, one byte each. */
  function Encode(s: string): (r: Bytes)
    ensures |r| >= |s|
    ensures IsAscii(s) ==> |r| == |s| && forall i :: 0 <= i < |s| ==> r[i] == s[i] as int
    ensures |s| > 0 ==> r[0] == EncodeChar(s[0])[0]
  {
    if s == [] then [] else EncodeChar(s[0]) + Encode(s[1..])
  }

  /** Encoding works character by character. */
  lemma {:induction false} EncodeAppend(a: string, b: string)
    ensures Encode(a + b) == Encode(a) + Encode(b)
    decreases |a|
  {
    if a != [] {
      assert (a + b)[0] == a[0] && (a + b)[1..] == a[1..] + b;
      EncodeAppend(a[1..], b);
      AppendAssoc(EncodeChar(a[0]), Encode(a[1..]), Encode(b));
    } else {
      assert a + b == b;
    }
  }

  /** The code point `n` decoded from a form of `len` bytes, refused when
      the form is longer than needed (below `low`), a surrogate, or past
      U+10FFFF, as Python's strict decoder refuses them. */
  function Scalar(n: int, low: int, len: nat): (r: Option<(char, nat)>)
    ensures r.Some? ==> r.value.1 == len && r.value.0 as int == n
  {
    if 0 <= low <= n < 0x11_0000 && !(0xD800 <= n < 0xE000) then Some((n as char, len)) else None
  }

  /** The first character of `bs` and the number of bytes it takes, or
      `None` when `bs` does not start with a well-formed UTF-8 form. */
  function DecodeChar(bs: Bytes): (r: Option<(char, nat)>)
    requires bs != []
    ensures r.Some? ==> 1 <= r.value.1 <= |bs|
  {
    var b0, b1, b2, b3 := bs[0] as int, At(bs, 1), At(bs, 2), At(bs, 3);
    if b0 < 0x80 then Some((b0 as char, 1))
    else if 0xC0 <= b0 < 0xE0 && |bs| >= 2 && IsCont(b1) then
      Scalar((b0 - 0xC0) * 0x40 + (b1 - 0x80), 0x80, 2)
    else if 0xE0 <= b0 < 0xF0 && |bs| >= 3 && IsCont(b1) && IsCont(b2) then
      Scalar((b0 - 0xE0) * 0x1000 + (b1 - 0x80) * 0x40 + (b2 - 0x80), 0x800, 3)
    else if 0xF0 <= b0 < 0xF8 && |bs| >= 4 && IsCont(b1) && IsCont(b2) && IsCont(b3) then
      Scalar((b0 - 0xF0) * 0x4_0000 + (b1 - 0x80) * 0x1000 + (b2 - 0x80) * 0x40 + (b3 - 0x80),
             0x1_0000, 4)
    else None
  }

  /** Python's `bs.decode('utf-8')`: the decoded text, or `None` where
      Python raises `UnicodeDecodeError`. */
  function Decode(bs: Bytes): Option<string>
    decreases |bs|
  {
    if bs == [] then Some([])
    else
      match DecodeChar(bs)
      case None => None
      case Some((c, k)) =>
        match Decode(bs[k..])
        case None => None
        case Some(rest) => Some([c] + rest)
  }

  /** The decoder reads a two-byte form back. */
  lemma DecodeTwo(n: int, rest: Bytes)
    requires 0x80 <= n < 0x800
    ensures DecodeChar([0xC0 + n / 0x40, 0x80 + n % 0x40] + rest) == Some((n as char, 2))
  {
    assert (n / 0x40) * 0x40 + n % 0x40 == n;
  }

  /** The decoder reads a three-byte form back. */
  lemma DecodeThree(n: int, rest: Bytes)
    requires 0x800 <= n < 0x1_0000 && !(0xD800 <= n < 0xE000)
    ensures DecodeChar([0xE0 + n / 0x1000, 0x80 + (n / 0x40) % 0x40, 0x80 + n % 0x40] + rest)
      == Some((n as char, 3))
  {
    DivDiv(n);
    assert n / 0x40 == (n / 0x1000) * 0x40 + (n / 0x40) % 0x40;
    assert (n / 0x1000) * 0x1000 + ((n / 0x40) % 0x40) * 0x40 + n % 0x40 == n;
  }

  /** The decoder reads a four-byte form back. */
  lemma DecodeFour(n: int, rest: Bytes)
    requires 0x1_0000 <= n < 0x11_0000
    ensures DecodeChar([0xF0 + n / 0x4_0000, 0x80 + (n / 0x1000) % 0x40, 0x80 + (n / 0x40) % 0x40, 0x80 + n % 0x40] + rest)
      == Some((n as char, 4))
  {
    DivDiv(n);
    assert n / 0x1000 == (n / 0x4_0000) * 0x40 + (n / 0x1000) % 0x40;
    assert n / 0x40 == (n / 0x1000) * 0x40 + (n / 0x40) % 0x40;
    assert (n / 0x4_0000) * 0x4_0000 + ((n / 0x1000) % 0x40) * 0x1000
      + ((n / 0x40) % 0x40) * 0x40 + n % 0x40 == n;
  }

  /** The decoder reads one encoded character back, whatever follows it. */
  lemma DecodeEncodeChar(c: char, rest: Bytes)
    ensures DecodeChar(EncodeChar(c) + rest) == Some((c, |EncodeChar(c)|))
  {
    var n := c as int;
    if n < 0x80 {
    } else if n < 0x800 {
      DecodeTwo(n, rest);
    } else if n < 0x1_0000 {
      DecodeThree(n, rest);
    } else {
      DecodeFour(n, rest);
    }
  }

  /** `decode('utf-8')` undoes `encode('utf-8')` for every string. */
  lemma {:induction false} DecodeEncode(s: string)
    ensures Decode(Encode(s)) == Some(s)
    decreases |s|
  {
    if s != [] {
      var head, tail := EncodeChar(s[0]), Encode(s[1..]);
      DecodeEncodeChar(s[0], tail);
      assert (head + tail)[|head|..] == tail;
      DecodeEncode(s[1..]);
      assert [s[0]] + s[1..] == s;
    }
  }

  /** A base-64 digit pair: `hi * 64 + lo` splits back into `hi` and `lo`. */
  lemma Digits(hi: int, lo: int)
    requires 0 <= hi && 0 <= lo < 0x40
    ensures (hi * 0x40 + lo) / 0x40 == hi && (hi * 0x40 + lo) % 0x40 == lo
  {
  }

  lemma DivDiv(n: int)
    requires 0 <= n
    ensures n / 0x1000 == (n / 0x40) / 0x40
    ensures n / 0x4_0000 == (n / 0x1000) / 0x40
  {
  }

  /** A two-byte form is the encoding of the code point it spells. */
  lemma EncodeTwo(b0: int, b1: int)
    requires 0xC0 <= b0 < 0xE0 && IsCont(b1)
    requires 0x80 <= (b0 - 0xC0) * 0x40 + (b1 - 0x80)
    ensures var r := EncodeChar(((b0 - 0xC0) * 0x40 + (b1 - 0x80)) as char);
      |r| == 2 && r[0] == b0 && r[1] == b1
  {
    Digits(b0 - 0xC0, b1 - 0x80);
  }

  /** A three-byte form is the encoding of the code point it spells. */
  lemma EncodeThree(b0: int, b1: int, b2: int)
    requires 0xE0 <= b0 < 0xF0 && IsCont(b1) && IsCont(b2)
    requires var n := (b0 - 0xE0) * 0x1000 + (b1 - 0x80) * 0x40 + (b2 - 0x80);
      0x800 <= n && !(0xD800 <= n < 0xE000)
    ensures var r := EncodeChar(((b0 - 0xE0) * 0x1000 + (b1 - 0x80) * 0x40 + (b2 - 0x80)) as char);
      |r| == 3 && r[0] == b0 && r[1] == b1 && r[2] == b2
  {
    var n := (b0 - 0xE0) * 0x1000 + (b1 - 0x80) * 0x40 + (b2 - 0x80);
    var h := (b0 - 0xE0) * 0x40 + (b1 - 0x80);
    assert n == h * 0x40 + (b2 - 0x80);
    Digits(h, b2 - 0x80);
    Digits(b0 - 0xE0, b1 - 0x80);
    DivDiv(n);
  }

  /** A four-byte form is the encoding of the code point it spells. */
  lemma EncodeFour(b0: int, b1: int, b2: int, b3: int)
    requires 0xF0 <= b0 < 0xF8 && IsCont(b1) && IsCont(b2) && IsCont(b3)
    requires var n := (b0 - 0xF0) * 0x4_0000 + (b1 - 0x80) * 0x1000 + (b2 - 0x80) * 0x40 + (b3 - 0x80);
      0x1_0000 <= n < 0x11_0000
    ensures var r := EncodeChar(((b0 - 0xF0) * 0x4_0000 + (b1 - 0x80) * 0x1000 + (b2 - 0x80) * 0x40 + (b3 - 0x80)) as char);
      |r| == 4 && r[0] == b0 && r[1] == b1 && r[2] == b2 && r[3] == b3
  {
    var n := (b0 - 0xF0) * 0x4_0000 + (b1 - 0x80) * 0x1000 + (b2 - 0x80) * 0x40 + (b3 - 0x80);
    var h1 := (b0 - 0xF0) * 0x40 + (b1 - 0x80);
    var h2 := h1 * 0x40 + (b2 - 0x80);
    assert n == h2 * 0x40 + (b3 - 0x80);
    Digits(h2, b3 - 0x80);
    Digits(h1, b2 - 0x80);
    Digits(b0 - 0xF0, b1 - 0x80);
    DivDiv(n);
  }

  /** Whatever the decoder reads as one character is that character's
      encoding. */
  lemma DecodeCharSound(bs: Bytes)
    requires bs != [] && DecodeChar(bs).Some?
    ensures EncodeChar(DecodeChar(bs).value.0) == bs[..DecodeChar(bs).value.1]
  {
    var b0, b1, b2, b3 := bs[0] as int, At(bs, 1), At(bs, 2), At(bs, 3);
    if b0 < 0x80 {
    } else if 0xC0 <= b0 < 0xE0 && |bs| >= 2 && IsCont(b1) {
      EncodeTwo(b0, b1);
    } else if 0xE0 <= b0 < 0xF0 && |bs| >= 3 && IsCont(b1) && IsCont(b2) {
      EncodeThree(b0, b1, b2);
    } else {
      EncodeFour(b0, b1, b2, b3);
    }
  }

  /** A successful decode reads one character `c` of width `k` and then
      decodes the rest; the `k` bytes read are the encoding of `c`. */
  lemma DecodeStep(bs: Bytes) returns (c: char, k: nat)
    requires bs != [] && Decode(bs).Some?
    ensures 1 <= k <= |bs| && EncodeChar(c) == bs[..k]
    ensures Decode(bs[k..]).Some? && Decode(bs).value == [c] + Decode(bs[k..]).value
  {
    c, k := DecodeChar(bs).value.0, DecodeChar(bs).value.1;
    DecodeCharSound(bs);
  }

  /** Every byte string the decoder accepts is the encoding of the text it
      returns: `Decode` and `Encode` are inverse on the decoder's domain. */
  lemma {:induction false} DecodeSound(bs: Bytes)
    requires Decode(bs).Some?
    ensures Encode(Decode(bs).value) == bs
    decreases |bs|
  {
    if bs != [] {
      var c, k := DecodeStep(bs);
      var rest := bs[k..];
      var s := Decode(bs).value;
      DecodeSound(rest);
      assert s[0] == c && s[1..] == Decode(rest).value;
      assert Encode(s) == EncodeChar(c) + Encode(Decode(rest).value);
      assert bs == bs[..k] + rest;
    }
  }

  /** Two names with the same encoding are the same name. */
  lemma EncodeInjective(a: string, b: string)
    requires Encode(a) == Encode(b)
    ensures a == b
  {
    DecodeEncode(a);
    DecodeEncode(b);
  }
}
