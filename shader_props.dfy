/**
 * What `ParseShader` promises, stated against a reference description of the asset: the
 * content lines are partitioned by the stage marker that governs them, marker lines are
 * never emitted, and a content line governed by no marker is an error.
 */
module ShaderProperties {
  import opened Wrappers
  import opened Text
  import opened Shader

  /** A marker line that names a stage, and so selects a section. */
  predicate StageMarker(line: string) {
    IsMarker(line) && (Contains(line, "vertex") || Contains(line, "fragment"))
  }

  /** The stage a stage marker selects: "vertex" takes precedence over "fragment". */
  function StageOf(line: string): ShaderType {
    if Contains(line, "vertex") then Vertex else Fragment
  }

  /** The section in force after `lines`: that of the last stage marker, if there is one. */
  function TypeAfter(lines: seq<string>): ShaderType {
    if lines == [] then None
    else if StageMarker(lines[|lines| - 1]) then StageOf(lines[|lines| - 1])
    else TypeAfter(lines[..|lines| - 1])
  }

  /** Line `j` is a stage marker and no later line of `lines` is one. */
  predicate LastStageMarker(lines: seq<string>, j: nat) {
    j < |lines| && StageMarker(lines[j]) &&
    forall k :: j < k < |lines| ==> !StageMarker(lines[k])
  }

  /** No section is in force exactly when no line is a stage marker. */
  lemma {:induction false} TypeAfterNone(lines: seq<string>)
    ensures TypeAfter(lines) == None <==> forall k :: 0 <= k < |lines| ==> !StageMarker(lines[k])
    decreases |lines|
  {
    if lines != [] {
      var n := |lines| - 1;
      var init := lines[..n];
      TypeAfterNone(init);
      assert forall k :: 0 <= k < n ==> init[k] == lines[k];
    }
  }

  /** The section in force is the one named by the last stage marker. */
  lemma {:induction false} TypeAfterLastMarker(lines: seq<string>, j: nat)
    requires LastStageMarker(lines, j)
    ensures TypeAfter(lines) == StageOf(lines[j])
    decreases |lines|
  {
    var n := |lines| - 1;
    if j < n {
      var init := lines[..n];
      assert !StageMarker(lines[n]);
      assert forall k :: 0 <= k < n ==> init[k] == lines[k];
      assert LastStageMarker(init, j);
      TypeAfterLastMarker(init, j);
    }
  }

  /** A content line (line `i`) read while no section was selected. */
  predicate Orphan(lines: seq<string>, i: nat)
    requires i < |lines|
  {
    !IsMarker(lines[i]) && TypeAfter(lines[..i]) == None
  }

  /** The content lines governed by section `t`, in order of appearance. */
  function SectionLines(lines: seq<string>, t: ShaderType): seq<string> {
    if lines == [] then []
    else
      var n := |lines| - 1;
      SectionLines(lines[..n], t) +
      (if !IsMarker(lines[n]) && TypeAfter(lines[..n]) == t then [lines[n]] else [])
  }

  /** The marker lines, in order of appearance. */
  function MarkerLines(lines: seq<string>): seq<string> {
    if lines == [] then []
    else
      var n := |lines| - 1;
      MarkerLines(lines[..n]) + (if IsMarker(lines[n]) then [lines[n]] else [])
  }

  /** Every line of a section is a content line of the input. */
  lemma {:induction false} SectionLinesAreContent(lines: seq<string>, t: ShaderType)
    ensures forall l <- SectionLines(lines, t) :: l in lines && !IsMarker(l)
    decreases |lines|
  {
    if lines != [] {
      var n := |lines| - 1;
      SectionLinesAreContent(lines[..n], t);
      assert forall l <- lines[..n] :: l in lines;
    }
  }

  /**
   * Each input line is exactly one of: a marker, an orphan, a vertex line or a fragment
   * line.
   */
  lemma {:induction false} LinesArePartitioned(lines: seq<string>)
    ensures multiset(lines) ==
            multiset(MarkerLines(lines)) + multiset(SectionLines(lines, None)) +
            multiset(SectionLines(lines, Vertex)) + multiset(SectionLines(lines, Fragment))
    decreases |lines|
  {
    if lines != [] {
      var n := |lines| - 1;
      var init, l := lines[..n], lines[n];
      var m, sn, sv, sf := multiset(MarkerLines(init)), multiset(SectionLines(init, None)),
                           multiset(SectionLines(init, Vertex)), multiset(SectionLines(init, Fragment));
      var m', sn', sv', sf' := multiset(MarkerLines(lines)), multiset(SectionLines(lines, None)),
                               multiset(SectionLines(lines, Vertex)), multiset(SectionLines(lines, Fragment));
      LinesArePartitioned(init);
      MultisetStep(lines);
      MarkerStep(lines);
      SectionStep(lines, None);
      SectionStep(lines, Vertex);
      SectionStep(lines, Fragment);
      ExtendOnePart(multiset(lines), multiset(init), m, sn, sv, sf, m', sn', sv', sf', l,
                    IsMarker(l), TypeAfter(init));
    }
  }

  /** Splitting off the last line of the input. */
  lemma MultisetStep(lines: seq<string>)
    requires lines != []
    ensures multiset(lines) == multiset(lines[..|lines| - 1]) + multiset{lines[|lines| - 1]}
  {
    assert lines == lines[..|lines| - 1] + [lines[|lines| - 1]];
  }

  /** How the last line of the input extends the marker list. */
  lemma MarkerStep(lines: seq<string>)
    requires lines != []
    ensures var n := |lines| - 1;
            multiset(MarkerLines(lines)) ==
              multiset(MarkerLines(lines[..n])) +
              (if IsMarker(lines[n]) then multiset{lines[n]} else multiset{})
  {
  }

  /** How the last line of the input extends section `t`. */
  lemma SectionStep(lines: seq<string>, t: ShaderType)
    requires lines != []
    ensures var n := |lines| - 1;
            multiset(SectionLines(lines, t)) ==
              multiset(SectionLines(lines[..n], t)) +
              (if !IsMarker(lines[n]) && TypeAfter(lines[..n]) == t then multiset{lines[n]} else multiset{})
  {
  }

  /** Adding one line to exactly one of the four parts adds it to their sum. */
  lemma ExtendOnePart(whole': multiset<string>, whole: multiset<string>,
                      m: multiset<string>, sn: multiset<string>, sv: multiset<string>, sf: multiset<string>,
                      m': multiset<string>, sn': multiset<string>, sv': multiset<string>, sf': multiset<string>,
                      x: string, marker: bool, t: ShaderType)
    requires whole' == whole + multiset{x}
    requires whole == m + sn + sv + sf
    requires m' == m + (if marker then multiset{x} else multiset{})
    requires sn' == sn + (if !marker && t == None then multiset{x} else multiset{})
    requires sv' == sv + (if !marker && t == Vertex then multiset{x} else multiset{})
    requires sf' == sf + (if !marker && t == Fragment then multiset{x} else multiset{})
    ensures whole' == m' + sn' + sv' + sf'
  {
  }

  /** No orphan line exists exactly when the `None` section is empty. */
  lemma {:induction false} NoOrphanIffNoneSectionEmpty(lines: seq<string>)
    ensures (forall i :: 0 <= i < |lines| ==> !Orphan(lines, i)) <==> SectionLines(lines, None) == []
    decreases |lines|
  {
    if lines != [] {
      var n := |lines| - 1;
      var init := lines[..n];
      NoOrphanIffNoneSectionEmpty(init);
      forall i | 0 <= i < n ensures Orphan(lines, i) == Orphan(init, i) {
        assert lines[..i] == init[..i];
      }
      if !Orphan(lines, n) && exists i :: 0 <= i < n && Orphan(init, i) {
        var i :| 0 <= i < n && Orphan(init, i);
        assert Orphan(lines, i);
      }
    }
  }

  /** Extending the input by one line leaves the verdict on the earlier lines unchanged. */
  lemma OrphanPrefix(lines: seq<string>, i: nat)
    requires i < |lines| - 1
    ensures Orphan(lines, i) == Orphan(lines[..|lines| - 1], i)
  {
    assert lines[..|lines| - 1][..i] == lines[..i];
  }

  /**
   * The loop fails exactly when some content line is an orphan, and then it reports the
   * first one.
   */
  lemma {:induction false} RunFailsAtFirstOrphan(lines: seq<string>)
    ensures Run(lines).Success? <==> forall i :: 0 <= i < |lines| ==> !Orphan(lines, i)
    ensures Run(lines).Failure? ==>
              var i := Run(lines).error.lineNumber;
              i < |lines| && Orphan(lines, i) && forall j :: 0 <= j < i ==> !Orphan(lines, j)
    decreases |lines|
  {
    if lines != [] {
      var n := |lines| - 1;
      var init, l := lines[..n], lines[n];
      RunFailsAtFirstOrphan(init);
      forall i | 0 <= i < n ensures Orphan(lines, i) == Orphan(init, i) {
        OrphanPrefix(lines, i);
      }
      if Run(init).Success? {
        var st := Run(init).value;
        RunValueIsPartition(init);
        assert Orphan(lines, n) <==> !IsMarker(l) && st.shaderType == None;
      }
    }
  }

  /**
   * When the loop succeeds, its buffers are the vertex and fragment sections, each line
   * followed by a newline, and its section is the one in force after the last line.
   */
  lemma {:induction false} RunValueIsPartition(lines: seq<string>)
    requires Run(lines).Success?
    ensures Run(lines).value ==
            ParseState(TypeAfter(lines),
                       JoinLines(SectionLines(lines, Vertex)),
                       JoinLines(SectionLines(lines, Fragment)))
    decreases |lines|
  {
    if lines != [] {
      var n := |lines| - 1;
      var init, l := lines[..n], lines[n];
      assert Run(init).Success?;
      RunValueIsPartition(init);
      var st := Run(init).value;
      assert Run(lines) == Step(st, l, n);
      var vs, fs := SectionLines(init, Vertex), SectionLines(init, Fragment);
      if IsMarker(l) {
        assert TypeAfter(lines) == NextType(st.shaderType, l);
        assert Run(lines) == Success(st.(shaderType := NextType(st.shaderType, l)));
        assert vs + [] == vs && fs + [] == fs;
        assert SectionLines(lines, Vertex) == vs;
        assert SectionLines(lines, Fragment) == fs;
      } else if st.shaderType == Vertex {
        assert SectionLines(lines, Vertex) == vs + [l];
        assert SectionLines(lines, Fragment) == fs + [] == fs;
        JoinLinesSnoc(vs, l);
      } else {
        assert st.shaderType == Fragment;
        assert SectionLines(lines, Vertex) == vs + [] == vs;
        assert SectionLines(lines, Fragment) == fs + [l];
        JoinLinesSnoc(fs, l);
      }
    }
  }

  /**
   * `ParseShader` on a file: it fails at the first content line that no stage marker
   * governs, and otherwise returns the vertex and fragment sections of the file's lines,
   * each line followed by a newline.
   */
  lemma ParseIsPartition(text: string)
    ensures Parse(text).Success? ==> forall i :: 0 <= i < |Lines(text)| ==> !Orphan(Lines(text), i)
    ensures Parse(text).Success? ==>
              Parse(text).value ==
              ShaderProgramSource(JoinLines(SectionLines(Lines(text), Vertex)),
                                  JoinLines(SectionLines(Lines(text), Fragment)))
    ensures Parse(text).Failure? ==>
              var i := Parse(text).error.lineNumber;
              i < |Lines(text)| && Orphan(Lines(text), i) &&
              forall j :: 0 <= j < i ==> !Orphan(Lines(text), j)
  {
    var lines := Lines(text);
    RunFailsAtFirstOrphan(lines);
    match Run(lines)
    case Failure(e) =>
      assert Parse(text) == Failure(e);
    case Success(st) =>
      RunValueIsPartition(lines);
      assert Parse(text) == Success(ShaderProgramSource(st.vertex, st.fragment));
  }

  /**
   * A successful parse emits exactly the lines of each section: splitting an output into
   * lines gives back that section's lines, none of them a marker, each a line of the file;
   * every output line is terminated by a newline.
   */
  lemma SourcesAreSectionLines(text: string)
    requires Parse(text).Success?
    ensures var src, lines := Parse(text).value, Lines(text);
            Lines(src.vertexSource) == SectionLines(lines, Vertex) &&
            Lines(src.fragmentSource) == SectionLines(lines, Fragment)
    ensures var src, lines := Parse(text).value, Lines(text);
            forall l <- Lines(src.vertexSource) + Lines(src.fragmentSource) :: l in lines && !IsMarker(l)
    ensures var src, lines := Parse(text).value, Lines(text);
            |src.vertexSource| == |SectionLines(lines, Vertex)| + TotalLength(SectionLines(lines, Vertex)) &&
            |src.fragmentSource| == |SectionLines(lines, Fragment)| + TotalLength(SectionLines(lines, Fragment))
    ensures var src := Parse(text).value;
            (src.vertexSource != [] ==> src.vertexSource[|src.vertexSource| - 1] == '\n') &&
            (src.fragmentSource != [] ==> src.fragmentSource[|src.fragmentSource| - 1] == '\n')
  {
    var lines := Lines(text);
    ParseIsPartition(text);
    LinesShape(text);
    SectionLinesAreContent(lines, Vertex);
    SectionLinesAreContent(lines, Fragment);
    JoinLinesShape(SectionLines(lines, Vertex));
    JoinLinesShape(SectionLines(lines, Fragment));
    LinesOfJoinLines(SectionLines(lines, Vertex));
    LinesOfJoinLines(SectionLines(lines, Fragment));
  }

  /** An empty file, which is also what an unopenable file reads as, gives two empty sources. */
  lemma EmptyInput()
    ensures Parse("") == Success(ShaderProgramSource("", ""))
  {
  }

  /**
   * The effect of one more line on the file's result, given a file that parses: a marker
   * line leaves both sources unchanged; a content line is appended once, with a newline, to
   * the source of the section in force (that of the last stage marker) and the other source
   * is unchanged; a content line with no section in force is an error at that line.
   */
  lemma LineEffect(ls: seq<string>, l: string)
    requires forall x <- ls + [l] :: '\n' !in x
    requires Parse(JoinLines(ls)).Success?
    ensures var before, after := Parse(JoinLines(ls)).value, Parse(JoinLines(ls + [l]));
            IsMarker(l) ==> after == Success(before)
    ensures var before, after := Parse(JoinLines(ls)).value, Parse(JoinLines(ls + [l]));
            !IsMarker(l) && TypeAfter(ls) == Vertex ==>
              after == Success(before.(vertexSource := before.vertexSource + l + "\n"))
    ensures var before, after := Parse(JoinLines(ls)).value, Parse(JoinLines(ls + [l]));
            !IsMarker(l) && TypeAfter(ls) == Fragment ==>
              after == Success(before.(fragmentSource := before.fragmentSource + l + "\n"))
    ensures !IsMarker(l) && TypeAfter(ls) == None ==>
              Parse(JoinLines(ls + [l])) == Failure(UnsectionedLine(|ls|))
  {
    assert forall x <- ls :: x in ls + [l];
    LinesOfJoinLines(ls);
    LinesOfJoinLines(ls + [l]);
    assert Run(ls).Success?;
    var st := Run(ls).value;
    RunValueIsPartition(ls);
    RunAppend(ls, st, l);
  }
}
