/**
 * The shader-asset splitter `ParseShader`: a combined text asset is read line by line and
 * each line either switches the current section (a marker line) or is appended, followed by
 * a newline, to the buffer of the current section.
 */
module Shader {
  import opened Wrappers
  import opened Text

  /** The loader's section state, with the integer values of the source's enum. */
  datatype ShaderType = None | Vertex | Fragment {
    /** `(int)type`, the index used to select one of the two output buffers. */
    function Index(): int {
      match this
      case None => -1
      case Vertex => 0
      case Fragment => 1
    }
  }

  /** The pair of stage sources the loader returns. */
  datatype ShaderProgramSource = ShaderProgramSource(vertexSource: string, fragmentSource: string)

  /**
   * A content line read while no section was selected. The source then indexes its
   * two-element buffer array at -1, which is undefined behaviour; the model reports it
   * instead, with the (0-based) number of the offending line.
   */
  datatype ParseError = UnsectionedLine(lineNumber: nat)

  /** The loop's local state: the current section and the two buffers. */
  datatype ParseState = ParseState(shaderType: ShaderType, vertex: string, fragment: string)

  const InitialState := ParseState(None, "", "")

  /** A line that mentions the generic section keyword is a marker and is never emitted. */
  predicate IsMarker(line: string) {
    Contains(line, "shader")
  }

  /** The section after a marker line: "vertex" is tested first, then "fragment". */
  function NextType(current: ShaderType, marker: string): ShaderType {
    if Contains(marker, "vertex") then Vertex
    else if Contains(marker, "fragment") then Fragment
    else current
  }

  /** One iteration of the loop body on line number `n`. */
  function Step(st: ParseState, line: string, n: nat): Result<ParseState, ParseError> {
    if IsMarker(line) then
      Success(st.(shaderType := NextType(st.shaderType, line)))
    else
      match st.shaderType
      case None => Failure(UnsectionedLine(n))
      case Vertex => Success(st.(vertex := st.vertex + line + "\n"))
      case Fragment => Success(st.(fragment := st.fragment + line + "\n"))
  }

  /** The state after the loop has consumed `lines`, or the first error. */
  function Run(lines: seq<string>): Result<ParseState, ParseError> {
    if lines == [] then
      Success(InitialState)
    else
      var n := |lines| - 1;
      match Run(lines[..n])
      case Failure(e) => Failure(e)
      case Success(st) => Step(st, lines[n], n)
  }

  /** The loop consumes lines one at a time: one more line is one more step. */
  lemma RunAppend(lines: seq<string>, st: ParseState, line: string)
    requires Run(lines) == Success(st)
    ensures Run(lines + [line]) == Step(st, line, |lines|)
  {
    assert (lines + [line])[..|lines|] == lines;
  }

  /** Once a line has failed, no later line changes the outcome. */
  lemma {:induction false} RunFailureSticks(lines: seq<string>, more: seq<string>)
    requires Run(lines).Failure?
    ensures Run(lines + more) == Run(lines)
    decreases |more|
  {
    if more == [] {
      assert lines + more == lines;
    } else {
      var m := |more| - 1;
      RunFailureSticks(lines, more[..m]);
      var all := lines + more;
      assert all[..|all| - 1] == lines + more[..m];
      assert Run(all[..|all| - 1]) == Run(lines);
    }
  }

  /**
   * The line `getline` extracts next is the next of the file's lines, and consuming it is
   * one more step of the loop.
   */
  lemma NextLine(all: seq<string>, n: nat, st: ParseState, line: string, rest: seq<string>)
    requires n <= |all| && all[n..] == [line] + rest
    requires Run(all[..n]) == Success(st)
    ensures n < |all| && rest == all[n + 1..]
    ensures Run(all[..n + 1]) == Step(st, line, n)
  {
    assert all[n..][0] == line;
    assert all[n..][1..] == rest;
    assert all[..n + 1] == all[..n] + [line];
    RunAppend(all[..n], st, line);
  }

  /** When no line is left, the lines read so far are the whole file. */
  lemma AllLinesRead(all: seq<string>, n: nat)
    requires n <= |all| && all[n..] == []
    ensures all[..n] == all
  {
  }

  /** A failure on one of the lines is the outcome of the whole file. */
  lemma RunFailurePrefix(lines: seq<string>, m: nat)
    requires m <= |lines| && Run(lines[..m]).Failure?
    ensures Run(lines) == Run(lines[..m])
  {
    RunFailureSticks(lines[..m], lines[m..]);
    assert lines[..m] + lines[m..] == lines;
  }

  /** What `ParseShader` returns for a file whose content is `text`. */
  function Parse(text: string): Result<ShaderProgramSource, ParseError> {
    match Run(Lines(text))
    case Failure(e) => Failure(e)
    case Success(st) => Success(ShaderProgramSource(st.vertex, st.fragment))
  }

  /**
   * `ParseShader` on a file whose content is `text`: a `getline` loop that switches the
   * section on marker lines and appends every other line and a newline to `ss[(int)type]`.
   */
  method ParseShader(text: string) returns (r: Result<ShaderProgramSource, ParseError>)
    ensures r == Parse(text)
  {
    var ss := new string[2]["", ""];
    var shaderType := None;
    var pos, n := 0, 0;
    ghost var all := Lines(text);
    while true
      invariant pos <= |text| && n <= |all|
      invariant Lines(text[pos..]) == all[n..]
      invariant Run(all[..n]) == Success(ParseState(shaderType, ss[0], ss[1]))
      decreases |text| - pos
    {
      var ok, line, next := GetLine(text, pos);
      if !ok {
        break;
      }
      NextLine(all, n, ParseState(shaderType, ss[0], ss[1]), line, Lines(text[next..]));
      if Contains(line, "shader") {
        if Contains(line, "vertex") {
          shaderType := Vertex;
        } else if Contains(line, "fragment") {
          shaderType := Fragment;
        }
      } else {
        var k := shaderType.Index();
        if !(0 <= k < ss.Length) {
          RunFailurePrefix(all, n + 1);
          return Failure(UnsectionedLine(n));
        }
        ss[k] := ss[k] + line + "\n";
      }
      n, pos := n + 1, next;
    }
    AllLinesRead(all, n);
    return Success(ShaderProgramSource(ss[0], ss[1]));
  }
}
