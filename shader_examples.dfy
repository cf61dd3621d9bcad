/**
 * The result proved on concrete assets: the usual two-section layout, and a content line
 * placed before any marker.
 */
module ShaderExamples {
  import opened Wrappers
  import opened Text
  import opened Shader

  /** The vertex marker of the example names "shader" and "vertex". */
  lemma VertexMarkerLine()
    ensures IsMarker("#shader vertex") && Contains("#shader vertex", "vertex")
  {
    var v := "#shader vertex";
    assert v == "#" + "shader" + " vertex";
    OccursContains(v, "shader", 1);
    assert v == "#shader " + "vertex";
    OccursContains(v, "vertex", 8);
  }

  /** The fragment marker of the example names "shader". */
  lemma FragmentMarkerIsMarker()
    ensures IsMarker("#shader fragment")
  {
    var f := "#shader fragment";
    assert f == "#" + "shader" + " fragment";
    OccursContains(f, "shader", 1);
  }

  /** The fragment marker of the example names "fragment" and not "vertex". */
  lemma FragmentMarkerStage()
    ensures Contains("#shader fragment", "fragment") && !Contains("#shader fragment", "vertex")
  {
    var f := "#shader fragment";
    assert f == "#shader " + "fragment";
    OccursContains(f, "fragment", 8);
    MissingFirstChar(f, "vertex");
  }

  /** A line without the letter 's' cannot be a marker. */
  lemma ContentLine(l: string)
    requires 's' !in l
    ensures !IsMarker(l)
  {
    MissingFirstChar(l, "shader");
  }

  /** A vertex marker, a content line, a fragment marker and a content line. */
  lemma RunOfTwoSections(l0: string, l1: string, l2: string, l3: string)
    requires IsMarker(l0) && Contains(l0, "vertex") && !IsMarker(l1)
    requires IsMarker(l2) && !Contains(l2, "vertex") && Contains(l2, "fragment") && !IsMarker(l3)
    ensures Run([l0, l1, l2, l3]) == Success(ParseState(Fragment, l1 + "\n", l3 + "\n"))
  {
    RunAppend([], InitialState, l0);
    assert [] + [l0] == [l0];
    RunAppend([l0], ParseState(Vertex, "", ""), l1);
    assert [l0] + [l1] == [l0, l1];
    assert "" + l1 + "\n" == l1 + "\n";
    RunAppend([l0, l1], ParseState(Vertex, l1 + "\n", ""), l2);
    assert [l0, l1] + [l2] == [l0, l1, l2];
    RunAppend([l0, l1, l2], ParseState(Fragment, l1 + "\n", ""), l3);
    assert [l0, l1, l2] + [l3] == [l0, l1, l2, l3];
    assert "" + l3 + "\n" == l3 + "\n";
  }

  /** Writing two sections of one marker and one content line each. */
  lemma JoinFour(l0: string, l1: string, l2: string, l3: string)
    ensures JoinLines([l0, l1, l2, l3]) == l0 + "\n" + l1 + "\n" + l2 + "\n" + l3 + "\n"
  {
    JoinLinesCons(l0, [l1, l2, l3]);
    JoinLinesCons(l1, [l2, l3]);
    JoinLinesCons(l2, [l3]);
    JoinLinesCons(l3, []);
    assert [l0] + [l1, l2, l3] == [l0, l1, l2, l3];
    assert [l1] + [l2, l3] == [l1, l2, l3];
    assert [l2] + [l3] == [l2, l3];
    assert [l3] + [] == [l3];
  }

  /** Writing the four lines of the two-section asset gives its text. */
  lemma ExampleJoin()
    ensures JoinLines(["#shader vertex", "A", "#shader fragment", "B"]) == "#shader vertex\nA\n#shader fragment\nB\n"
  {
    JoinFour("#shader vertex", "A", "#shader fragment", "B");
    assert "#shader vertex" + "\n" + "A" + "\n" + "#shader fragment" + "\n" + "B" + "\n"
        == "#shader vertex\nA\n#shader fragment\nB\n";
  }

  /** Reading the two-section asset gives its four lines. */
  lemma ExampleLines()
    ensures Lines("#shader vertex\nA\n#shader fragment\nB\n") == ["#shader vertex", "A", "#shader fragment", "B"]
  {
    ExampleJoin();
    LinesOfJoinLines(["#shader vertex", "A", "#shader fragment", "B"]);
  }

  /** The two-section asset of the usual layout. */
  lemma TwoSectionExample()
    ensures Parse("#shader vertex\nA\n#shader fragment\nB\n") ==
            Success(ShaderProgramSource("A\n", "B\n"))
  {
    assert "A" + "\n" == "A\n" && "B" + "\n" == "B\n";
    ExampleLines();
    VertexMarkerLine();
    FragmentMarkerIsMarker();
    FragmentMarkerStage();
    ContentLine("A");
    ContentLine("B");
    RunOfTwoSections("#shader vertex", "A", "#shader fragment", "B");
  }

  /** Reading the asset with an unsectioned first line gives its two lines. */
  lemma UnsectionedExampleLines()
    ensures Lines("A\n#shader vertex\n") == ["A", "#shader vertex"]
  {
    assert JoinLines(["A", "#shader vertex"]) == "A\n#shader vertex\n";
    LinesOfJoinLines(["A", "#shader vertex"]);
  }

  /** A content line before any marker is reported, at its line number. */
  lemma UnsectionedExample()
    ensures Parse("A\n#shader vertex\n") == Failure(UnsectionedLine(0))
  {
    var ls := ["A", "#shader vertex"];
    UnsectionedExampleLines();
    ContentLine("A");
    RunAppend([], InitialState, "A");
    assert [] + ["A"] == ls[..1];
    RunFailurePrefix(ls, 1);
  }
}
