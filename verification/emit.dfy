/** The pieces of Makefile text the generator emits: variable definitions,
    comment boxes, the suffix rules and the link target. Definitions,
    headers, rules and targets come with a reader that takes the text apart
    again; the ender is related to the header instead. */
module Emitters {

  import opened Text
  import opened Faults
  import Classifier

  // Make variables and tokens the generated text refers to.
  const CompileMacro := "$(COMPILE"
  const CcMacro := "$(CC)"
  const CxxMacro := "$(CXX)"
  const CFlagsMacro := "$(CFLAGS)"
  const CxxFlagsMacro := "$(CXXFLAGS)"
  const CLibFlagsMacro := "$(CLIBFLAGS)"
  const CxxLibFlagsMacro := "$(CCLIBFLAGS)"
  const ObjFilesMacro := "$(OBJFILES)"
  const ArMacro := "$(AR)"
  const ArFlagsMacro := "$(ARFLAGS)"
  const RmMacro := "$(RM)"
  const OutputFlag := "-o"
  const FirstPrereq := "$<"
  const TargetName := "$@"
  const StemWildcard := "$%"
  const LibSuffix := ".a"

  // ------------------------------------------------------------ variables

  /** A Make variable definition `name =<TAB>value`. */
  datatype VarDef = VarDef(name: string, value: string)

  /** `create_var`: one definition line. */
  function CreateVar(name: string, value: string): (r: string)
    ensures |r| == |name| + |value| + 4
    ensures r[..|name|] == name && r[|r| - 1] == '\n'
  {
    name + " =\t" + value + "\n"
  }

  /** Reads a definition line back: the name ends two characters before the
      first tab, which must be preceded by ` =`, and the line ends in a
      newline. */
  function ParseVar(line: string): (r: Option<VarDef>)
    ensures r.Some? ==> |r.value.name| + 2 < |line|
    ensures r.Some? ==> '\t' !in r.value.name
  {
    var i := Find(line, "\t");
    if 2 <= i && line[i - 2..i] == " =" && line[|line| - 1] == '\n' then
      NoEarlierTab(line, i);
      Some(VarDef(line[..i - 2], line[i + 1..|line| - 1]))
    else None
  }

  lemma NoEarlierTab(line: string, i: int)
    requires 0 <= i && OccursAt(line, "\t", i)
    requires forall j :: 0 <= j < i ==> !OccursAt(line, "\t", j)
    ensures i < |line| && line[i] == '\t'
    ensures forall j :: 0 <= j < i ==> line[j] != '\t'
  {
    forall j | 0 <= j < i
      ensures line[j] != '\t'
    {
      if line[j] == '\t' {
        assert line[j..j + 1] == "\t";
        assert OccursAt(line, "\t", j);
      }
    }
  }

  /** Every name without a tab survives a write and a read. */
  lemma VarRoundTrip(name: string, value: string)
    requires '\t' !in name
    ensures ParseVar(CreateVar(name, value)) == Some(VarDef(name, value))
  {
    var line := CreateVar(name, value);
    var n := |name|;
    assert line[n + 2..n + 3] == "\t";
    assert OccursAt(line, "\t", n + 2);
    forall j | 0 <= j < n + 2
      ensures !OccursAt(line, "\t", j)
    {
      assert line[j] != '\t' by {
        if j < n {
          assert line[j] == name[j];
        }
      }
    }
    assert Find(line, "\t") == n + 2;
    assert line[..n] == name;
    assert line[n + 3..|line| - 1] == value;
  }

  /** Everything the reader accepts is a line the writer produces. */
  lemma VarParseSound(line: string)
    requires ParseVar(line).Some?
    ensures CreateVar(ParseVar(line).value.name, ParseVar(line).value.value) == line
  {
    var i := Find(line, "\t");
    var d := ParseVar(line).value;
    assert d.name == line[..i - 2] && d.value == line[i + 1..|line| - 1];
    assert line[i..i + 1] == "\t" by {
      assert OccursAt(line, "\t", i);
    }
    assert line[|line| - 1..] == "\n";
    assert CreateVar(d.name, d.value) == line by {
      SplitAt5(line, i - 2, i, i + 1, |line| - 1);
    }
  }

  /** A sequence is the concatenation of its pieces between four cuts. */
  lemma SplitAt5<T>(s: seq<T>, a: nat, b: nat, c: nat, d: nat)
    requires a <= b <= c <= d <= |s|
    ensures s == s[..a] + s[a..b] + s[b..c] + s[c..d] + s[d..]
  {
  }

  // ------------------------------------------------------------- comments

  /** `"# " + n * '#' + " #"`: the top and bottom edge of a comment box. */
  function Border(n: nat): (r: string)
    ensures |r| == n + 4
    ensures r[..2] == "# " && r[n + 2..] == " #"
    ensures forall i :: 2 <= i < n + 2 ==> r[i] == '#'
  {
    var r := "# " + Repeat('#', n) + " #";
    assert r[2..n + 2] == Repeat('#', n);
    r
  }

  /** `create_header`: a three-line comment box around `msg` followed by a
      blank line. */
  function CreateHeader(msg: string): (r: string)
    ensures |r| > |msg| + 5 && r[..|msg| + 5] == Border(|msg|) + "\n"
  {
    var b := Border(|msg|);
    var lines := [b, "# " + msg + " #", b, ""];
    assert Unlines(lines) == b + "\n" + Unlines(lines[1..]);
    Unlines(lines)
  }

  /** A comment box: both edges are the border of the framed line's
      width, and the framed line starts with `# ` and ends with ` #`. */
  predicate IsBox(lines: seq<string>)
  {
    && |lines| == 5
    && |lines[1]| >= 4
    && lines[1][..2] == "# " && lines[1][|lines[1]| - 2..] == " #"
    && lines[0] == lines[2] == Border(|lines[1]| - 4)
    && lines[3] == lines[4] == ""
  }

  /** For a one-line message, the header's lines form a box whose middle
      line frames the message. */
  lemma HeaderIsBox(msg: string)
    requires '\n' !in msg
    ensures IsBox(Split(CreateHeader(msg), '\n'))
    ensures Split(CreateHeader(msg), '\n')[1] == "# " + msg + " #"
  {
    var b := Border(|msg|);
    var m := "# " + msg + " #";
    assert '\n' !in b;
    assert '\n' !in m;
    UnlinesSplit([b, m, b, ""]);
    assert Split(CreateHeader(msg), '\n') == [b, m, b, "", ""];
    assert m[..2] == "# " && m[|m| - 2..] == " #";
  }

  /** Reads the message back out of a comment box. */
  function ParseHeader(text: string): (r: Option<string>)
    ensures r.Some? ==> IsBox(Split(text, '\n')) && |r.value| == |Split(text, '\n')[0]| - 4
  {
    var lines := Split(text, '\n');
    if IsBox(lines) then Some(lines[1][2..|lines[1]| - 2]) else None
  }

  lemma HeaderRoundTrip(msg: string)
    requires '\n' !in msg
    ensures ParseHeader(CreateHeader(msg)) == Some(msg)
  {
    HeaderIsBox(msg);
    var m := "# " + msg + " #";
    assert m[2..|m| - 2] == msg;
  }

  /** `create_ender`: the closing edge of a box for a message of this
      length, followed by a blank line. */
  function CreateEnder(msg: string): (r: string)
    ensures |r| == |msg| + 6
    ensures r[..|msg| + 4] == Border(|msg|) && r[|msg| + 4..] == "\n\n"
  {
    "# " + Repeat('#', |msg|) + " #\n\n"
  }

  /** The ender repeats the header's top edge, and depends only on the
      length of the message. */
  lemma EnderMatchesHeader(msg: string, other: string)
    requires |other| == |msg|
    ensures CreateEnder(other) == CreateEnder(msg)
    ensures CreateEnder(msg)[..|msg| + 4] == CreateHeader(other)[..|msg| + 4]
  {
    var e1 := CreateEnder(msg);
    var e2 := CreateEnder(other);
    assert e1 == e1[..|msg| + 4] + e1[|msg| + 4..];
    assert e2 == e2[..|msg| + 4] + e2[|msg| + 4..];
    assert CreateHeader(other)[..|msg| + 4] == (CreateHeader(other)[..|msg| + 5])[..|msg| + 4];
  }

  // -------------------------------------------------------- suffix rules

  /** The `COMPILE` variable a suffix rule invokes: the C++ spellings and
      lower-case assembly use `COMPILE.cc`, every other suffix its own. */
  function CompilerSuffix(suffix: string): (r: string)
    ensures r == ".cc" <==> suffix in {".cpp", ".C", ".s", ".cc"}
    ensures r != ".cc" ==> r == suffix
  {
    if suffix == ".cpp" || suffix == ".C" || suffix == ".s" then ".cc" else suffix
  }

  /** The variables the generated Makefile defines with `create_var`. */
  const DefinedVariables: set<string> :=
    {"CC", "CXX", "RM", "AR", "LINK.c", "LINK.cc", "COMPILE.c", "COMPILE.cc", "CPP"}

  /** The suffixes the generated Makefile writes `.o` and `.a` rules for. */
  const RuleSuffixes: seq<string> := [".c", ".C", ".cpp", ".s"]

  /** Every compile command of a generated rule names a variable that the
      same Makefile defines. */
  lemma RulesUseDefinedCompilers()
    ensures forall i :: 0 <= i < |RuleSuffixes| ==>
      "COMPILE" + CompilerSuffix(RuleSuffixes[i]) in DefinedVariables
  {
    forall i | 0 <= i < |RuleSuffixes|
      ensures "COMPILE" + CompilerSuffix(RuleSuffixes[i]) in DefinedVariables
    {
      var s := RuleSuffixes[i];
      assert s == ".c" || s == ".C" || s == ".cpp" || s == ".s";
      if s == ".c" {
        assert "COMPILE" + CompilerSuffix(s) == "COMPILE.c";
      } else {
        assert "COMPILE" + CompilerSuffix(s) == "COMPILE.cc";
      }
    }
  }

  /** The command that compiles a file with this suffix. */
  function CompileCommand(suffix: string): string
  {
    CompileMacro + CompilerSuffix(suffix) + ")"
  }

  /** A recipe line that runs the compile command of `suffix` with the
      given arguments. */
  function CompileLine(suffix: string, args: string): string
  {
    "\t" + CompileCommand(suffix) + " " + args
  }

  /** The lines of `o_rule`: the target names the suffix as written, the
      recipe compiles with the remapped one. */
  function ORuleLines(suffix: string): seq<string>
  {
    [suffix + Classifier.ObjSuffix + ":", CompileLine(suffix, FirstPrereq)]
  }

  /** `o_rule`: the suffix rule that compiles a source into an object. */
  function ORule(suffix: string): string
  {
    Unlines(ORuleLines(suffix))
  }

  /** The lines of `a_rule`: compile to the member's object, archive it
      into the library, remove it. */
  function ARuleLines(suffix: string): seq<string>
  {
    [ suffix + LibSuffix + ":",
      CompileLine(suffix, OutputFlag + " " + StemWildcard + " " + FirstPrereq),
      "\t" + ArMacro + " " + ArFlagsMacro + " " + TargetName + " " + StemWildcard,
      "\t" + RmMacro + " " + StemWildcard ]
  }

  /** `a_rule`: the suffix rule that compiles a source into a library
      member. */
  function ARule(suffix: string): string
  {
    Unlines(ARuleLines(suffix))
  }

  /** What a reader recovers from a suffix rule: the suffix of its target
      and the command of its first recipe line. */
  datatype RuleInfo = RuleInfo(suffix: string, command: string)

  /** Reads a rule whose target ends in `goal` (`.o` or `.a`). */
  function ParseRule(text: string, goal: string): (r: Option<RuleInfo>)
    ensures r.Some? ==> |Split(text, '\n')| >= 3
  {
    var lines := Split(text, '\n');
    if |lines| >= 3 && |lines[0]| >= |goal| + 1 && lines[0][|lines[0]| - |goal| - 1..] == goal + ":"
       && |lines[1]| >= 1 && lines[1][0] == '\t'
    then
      var cmd := Split(lines[1][1..], ' ')[0];
      Some(RuleInfo(lines[0][..|lines[0]| - |goal| - 1], cmd))
    else None
  }

  /** The first space-separated word of `w + " " + rest` is `w`. */
  lemma FirstWord(w: string, rest: string)
    requires ' ' !in w
    ensures Split(w + [' '] + rest, ' ')[0] == w
  {
    SplitCons(w, rest, ' ');
  }

  /** The reader takes apart any rule text laid out as the writers lay it
      out. */
  lemma ParseRuleOf(text: string, suffix: string, goal: string, cmd: string)
    requires |Split(text, '\n')| >= 3
    requires Split(text, '\n')[0] == suffix + (goal + ":")
    requires |Split(text, '\n')[1]| >= 1 && Split(text, '\n')[1][0] == '\t'
    requires Split(Split(text, '\n')[1][1..], ' ')[0] == cmd
    ensures ParseRule(text, goal) == Some(RuleInfo(suffix, cmd))
  {
    var l0 := Split(text, '\n')[0];
    assert l0[|l0| - |goal| - 1..] == goal + ":";
    assert l0[..|suffix|] == suffix;
  }

  /** The lines of rule text, with the command word of its recipe line. */
  lemma RuleSplit(lines: seq<string>, cmd: string, rest: string)
    requires |lines| >= 2
    requires forall i :: 0 <= i < |lines| ==> '\n' !in lines[i]
    requires lines[1] == ['\t'] + (cmd + [' '] + rest) && ' ' !in cmd
    ensures |Split(Unlines(lines), '\n')| >= 3
    ensures Split(Unlines(lines), '\n')[0] == lines[0]
    ensures Split(Unlines(lines), '\n')[1] == lines[1]
    ensures Split(lines[1][1..], ' ')[0] == cmd
  {
    UnlinesSplit(lines);
    FirstWord(cmd, rest);
  }

  /** A suffix rule line as the writers lay it out. */
  lemma RuleLineShape(suffix: string, goal: string, cmd: string, rest: string)
    ensures suffix + goal + ":" == suffix + (goal + ":")
    ensures "\t" + cmd + " " + rest == ['\t'] + (cmd + [' '] + rest)
  {
    AppendAssoc(suffix, goal, ":");
    AppendAssoc("\t", cmd, " ");
    AppendAssoc("\t", cmd + " ", rest);
  }

  lemma RuleLinesHaveNoNewline(suffix: string)
    requires '\n' !in suffix
    ensures forall i :: 0 <= i < |ORuleLines(suffix)| ==> '\n' !in ORuleLines(suffix)[i]
    ensures forall i :: 0 <= i < |ARuleLines(suffix)| ==> '\n' !in ARuleLines(suffix)[i]
  {
    assert '\n' !in CompilerSuffix(suffix);
  }

  /** Reading an `.o` rule gives back the suffix it was written for and the
      compile command of the remapped suffix. */
  lemma ORuleRoundTrip(suffix: string)
    requires '\n' !in suffix && ' ' !in suffix
    ensures ParseRule(ORule(suffix), Classifier.ObjSuffix) == Some(RuleInfo(suffix, CompileCommand(suffix)))
  {
    RuleLinesHaveNoNewline(suffix);
    RuleLineShape(suffix, Classifier.ObjSuffix, CompileCommand(suffix), FirstPrereq);
    RuleSplit(ORuleLines(suffix), CompileCommand(suffix), FirstPrereq);
    ParseRuleOf(ORule(suffix), suffix, Classifier.ObjSuffix, CompileCommand(suffix));
  }

  /** Reading an `.a` rule gives back the same suffix and command. */
  lemma ARuleRoundTrip(suffix: string)
    requires '\n' !in suffix && ' ' !in suffix
    ensures ParseRule(ARule(suffix), LibSuffix) == Some(RuleInfo(suffix, CompileCommand(suffix)))
  {
    var args := OutputFlag + " " + StemWildcard + " " + FirstPrereq;
    RuleLinesHaveNoNewline(suffix);
    RuleLineShape(suffix, LibSuffix, CompileCommand(suffix), args);
    RuleSplit(ARuleLines(suffix), CompileCommand(suffix), args);
    ParseRuleOf(ARule(suffix), suffix, LibSuffix, CompileCommand(suffix));
  }

  // --------------------------------------------------------------- target

  /** The compiler, its flags and the link libraries of one language. */
  datatype Toolchain = Toolchain(compiler: string, flags: string, libs: string)

  const CTools := Toolchain(CcMacro, CFlagsMacro, CLibFlagsMacro)
  const CxxTools := Toolchain(CxxMacro, CxxFlagsMacro, CxxLibFlagsMacro)

  /** The C toolchain exactly for a `.c` main file; the C++ one for every
      other extension, the empty one of a directory without a main file
      included. */
  function ToolchainFor(ext: string): (r: Toolchain)
    ensures r == CTools <==> ext == ".c"
    ensures r == CxxTools <==> ext != ".c"
  {
    if ext == ".c" then CTools else CxxTools
  }

  /** The words of the link command, in the order `create_target` writes
      them: compiler, flags, `-o`, program, its own object, the other
      objects and the link libraries. */
  function LinkWords(main: Classifier.StemExt): seq<string>
  {
    var tc := ToolchainFor(main.ext);
    [tc.compiler, tc.flags, OutputFlag, main.stem, main.stem + Classifier.ObjSuffix, ObjFilesMacro, tc.libs]
  }

  /** The link command of the target: its words separated by single spaces. */
  function LinkCommand(main: Classifier.StemExt): string
  {
    Join(LinkWords(main), ' ')
  }

  /** The rule line of the target: the program depends on its own object
      and on the other objects. */
  function LinkRule(main: Classifier.StemExt): string
  {
    main.stem + ":\t" + main.stem + Classifier.ObjSuffix + " " + ObjFilesMacro
  }

  /** The lines of `create_target`: the `all` goal naming the main file's
      stem, a blank line, the link rule, its recipe, and a blank line. */
  function TargetLines(main: Classifier.StemExt): seq<string>
  {
    ["all:\t" + main.stem, "", LinkRule(main), "\t" + LinkCommand(main), ""]
  }

  /** `create_target`. */
  function CreateTarget(main: Classifier.StemExt): (r: string)
  {
    Unlines(TargetLines(main))
  }

  /** What a reader recovers from a target: the program's name, the
      prerequisites of its rule and the words of its recipe. */
  datatype TargetInfo = TargetInfo(program: string, prereqs: seq<string>, command: seq<string>)

  function ParseTarget(text: string): (r: Option<TargetInfo>)
    ensures r.Some? ==> |Split(text, '\n')| == 6 && |r.value.command| > 0
    ensures r.Some? ==> forall i :: 0 <= i < |r.value.command| ==> ' ' !in r.value.command[i]
  {
    var lines := Split(text, '\n');
    if |lines| == 6 && |lines[0]| >= 5 && lines[0][..5] == "all:\t" && |lines[3]| >= 1 && lines[3][0] == '\t' then
      var program := lines[0][5..];
      var rule := Split(lines[2], '\t');
      var prereqs := if |rule| == 2 then Split(rule[1], ' ') else [];
      Some(TargetInfo(program, prereqs, Split(lines[3][1..], ' ')))
    else None
  }

  /** The reader takes apart any text whose lines have the target's
      layout. */
  lemma ParseTargetOf(text: string, program: string, prereqs: seq<string>, cmd: string)
    requires |Split(text, '\n')| == 6
    requires Split(text, '\n')[0] == "all:\t" + program
    requires |Split(Split(text, '\n')[2], '\t')| == 2
    requires Split(Split(Split(text, '\n')[2], '\t')[1], ' ') == prereqs
    requires Split(text, '\n')[3] == "\t" + cmd
    ensures ParseTarget(text) == Some(TargetInfo(program, prereqs, Split(cmd, ' ')))
  {
    assert ("all:\t" + program)[5..] == program;
    assert ("\t" + cmd)[1..] == cmd;
  }

  lemma TargetSplit(main: Classifier.StemExt)
    requires '\n' !in main.stem
    ensures Split(CreateTarget(main), '\n') == TargetLines(main) + [[]]
  {
    TargetLinesHaveNoNewline(main);
    UnlinesSplit(TargetLines(main));
  }

  lemma TargetLinesHaveNoNewline(main: Classifier.StemExt)
    requires '\n' !in main.stem
    ensures forall i :: 0 <= i < |TargetLines(main)| ==> '\n' !in TargetLines(main)[i]
  {
    assert '\n' !in LinkCommand(main) by {
      LinkWordsFree(main, '\n');
      JoinExcludes(LinkWords(main), ' ', '\n');
    }
    assert '\n' !in LinkRule(main);
  }

  /** None of the toolchains' words contains a space or a newline. */
  lemma ToolchainsAreWords(c: char)
    requires c == ' ' || c == '\n'
    ensures c !in CTools.compiler && c !in CTools.flags && c !in CTools.libs
    ensures c !in CxxTools.compiler && c !in CxxTools.flags && c !in CxxTools.libs
  {
  }

  /** A character absent from the stem (a space or a newline) is absent
      from every word of the link command. */
  lemma LinkWordsFree(main: Classifier.StemExt, c: char)
    requires c == ' ' || c == '\n'
    requires c !in main.stem
    ensures forall i :: 0 <= i < |LinkWords(main)| ==> c !in LinkWords(main)[i]
  {
    ToolchainsAreWords(c);
    assert c !in OutputFlag && c !in ObjFilesMacro && c !in Classifier.ObjSuffix;
    assert c !in main.stem + Classifier.ObjSuffix;
  }

  lemma LinkRuleSplit(main: Classifier.StemExt)
    requires '\t' !in main.stem && ' ' !in main.stem
    ensures Split(LinkRule(main), '\t') == [main.stem + ":", main.stem + Classifier.ObjSuffix + [' '] + ObjFilesMacro]
    ensures Split(main.stem + Classifier.ObjSuffix + [' '] + ObjFilesMacro, ' ') == [main.stem + Classifier.ObjSuffix, ObjFilesMacro]
  {
    var obj := main.stem + Classifier.ObjSuffix;
    var prereqs := obj + [' '] + ObjFilesMacro;
    assert LinkRule(main) == (main.stem + ":") + ['\t'] + prereqs by {
      AppendAssoc(main.stem, ":", "\t");
      AppendAssoc(main.stem + ":\t", obj, " ");
      AppendAssoc(main.stem + ":\t", obj + " ", ObjFilesMacro);
    }
    TwoPieces(main.stem + ":", prereqs, '\t');
    TwoPieces(obj, ObjFilesMacro, ' ');
  }

  /** A target names its main file's stem as the program and lists the
      main file's object before the other objects. Its recipe links with
      the compiler, flags and libraries of the main file's toolchain: the
      C one exactly when the main file is a `.c` file, the C++ one
      otherwise, an empty main included. */
  lemma TargetRoundTrip(main: Classifier.StemExt)
    requires '\n' !in main.stem && '\t' !in main.stem && ' ' !in main.stem
    ensures var tc := ToolchainFor(main.ext);
      var obj := main.stem + Classifier.ObjSuffix;
      ParseTarget(CreateTarget(main)) ==
        Some(TargetInfo(main.stem, [obj, ObjFilesMacro],
                        [tc.compiler, tc.flags, OutputFlag, main.stem, obj, ObjFilesMacro, tc.libs]))
  {
    TargetSplit(main);
    LinkRuleSplit(main);
    LinkWordsFree(main, ' ');
    SplitJoin(LinkWords(main), ' ');
    ParseTargetOf(CreateTarget(main), main.stem, [main.stem + Classifier.ObjSuffix, ObjFilesMacro], LinkCommand(main));
  }
}
