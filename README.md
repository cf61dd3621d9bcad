# ParseShader: the shader-asset splitter of an OpenGL transformations demo

The program is an OpenGL demo that renders translated, rotated, scaled and skewed
versions of an original square. It keeps both GLSL stages of its shader program in one
text asset. Marker lines separate the two stages, for example:

```
#shader vertex
...vertex code...
#shader fragment
...fragment code...
```

`ParseShader` (main.cpp:27-55) reads the asset line by line with `std::getline`. It
distinguishes two kinds of line:

- A line containing `shader` is a marker. It selects the vertex section if it also
  contains `vertex`. Otherwise it selects the fragment section if it contains `fragment`.
  Otherwise nothing changes. A marker line is never copied into a section.
- Any other line is a content line. It is written, followed by `'\n'`, to
  `ss[(int)type]`, the string stream of the current section.

The function returns the two buffers as a `ShaderProgramSource` with fields
`VertexSource` and `FragmentSource`.

The model has five modules:

- `Wrappers` (wrappers.dfy) holds the `Result` datatype.
- `Text` (text.dfy) models the two standard-library pieces the loader relies on:
  - `std::string::find` is `Find`, which returns `Found(pos)` or `Npos`. It is proved to
    return the first occurrence.
  - The line splitting done by repeated `std::getline` calls is the function `Lines`. Its
    inverse is `JoinLines`, which writes each line followed by a newline. One `getline`
    call is the method `GetLine`, proved against `Lines`.
- `Shader` (shader.dfy) holds the loader itself:
  - the enum `ShaderType`, with the integer values -1, 0 and 1 of the source;
  - `ShaderProgramSource`;
  - the loop body `Step`, and `Run`, the loop over a list of lines;
  - the method `ParseShader`. It keeps the two buffers in a two-element `array`, indexes
    it with `(int)type`, and is proved to return `Parse(text)`.
- `ShaderProperties` (shader_props.dfy) gives an independent, reference description of
  the result:
  - `TypeAfter` is the section named by the last stage marker;
  - `SectionLines` lists the content lines each section governs;
  - `MarkerLines` lists the marker lines.
  It then proves that the loop computes exactly this partition.
- `ShaderExamples` (shader_examples.dfy) proves the result on concrete assets.

A content line can be read while `type` is still `NONE`: before any marker that names
`vertex` or `fragment`, for instance at the start of the file or after a bare `#shader`
line. For such a line main.cpp:51 evaluates `ss[-1]`, an out-of-bounds access and
undefined behaviour. The model does not drop the line: `ParseShader` returns
`Failure(UnsectionedLine(n))`, where `n` is the 0-based number of the first content line
read while no marker naming `vertex` or `fragment` has been seen.

## Model

| member | source | states |
|---|---|---|
| Shader.ParseShader | main.cpp:27-55 | The getline loop over the asset, with the two buffers in an array indexed by `(int)type`, returns exactly `Parse(text)`. That is the loop specification `Run` applied to the file's lines, with an error at the first content line read while the type is `NONE`. |
| Text.GetLine | main.cpp:39 | One `getline` call succeeds exactly when input remains. It extracts the next line (without its newline) and leaves the rest of the input, so that the lines of the remainder are this line followed by the lines after it. At end of input it extracts nothing. |
| Text.FindIsFirstOccurrence | main.cpp:41-48 | `line.find(p)` returns the least index at which `p` occurs, and `npos` exactly when `p` occurs nowhere. |
| Text.ContainsIffOccurs | main.cpp:41 | `line.find(p) != npos` holds exactly when `p` is a substring of the line. |
| Text.LinesShape | main.cpp:39 | The lines getline extracts contain no newline, and there are none exactly when the input is empty. |
| Text.LinesOfJoinLines | main.cpp:39 | Writing newline-free lines each followed by `'\n'` and reading them back with getline gives the same lines. |
| Text.JoinLinesOfLines | main.cpp:39 | Re-joining the extracted lines gives the input back, plus a final `'\n'` when the input did not end with one. |
| Text.JoinLinesShape | main.cpp:51 | A buffer built by writing lines, each followed by `'\n'`, has length equal to the number of lines plus the sum of their lengths. It is empty exactly when no line was written, and otherwise ends in `'\n'`. |
| Shader.RunFailureSticks | main.cpp:39-53 | Once a line has hit the undefined `ss[-1]` case, no later line changes the outcome. |
| ShaderProperties.TypeAfterNone | main.cpp:38-48 | The type is still `NONE` after a sequence of lines exactly when none of them is a marker naming `vertex` or `fragment`. |
| ShaderProperties.TypeAfterLastMarker | main.cpp:41-48 | The section in force is the one named by the last stage marker. `vertex` takes precedence over `fragment` on the same line. |
| ShaderProperties.LineEffect | main.cpp:41-52 | The effect of one more line on the result for a file that parses. A marker line leaves both sources unchanged. A content line is appended once, verbatim plus `'\n'`, to the source of the section named by the last stage marker, and the other source is unchanged. A content line read while no stage marker has been seen makes the parse fail at that line's number. |
| ShaderProperties.RunFailsAtFirstOrphan | main.cpp:38-53 | The loop fails exactly when some content line is read while the type is `NONE`. It then reports the first such line. |
| ShaderProperties.RunValueIsPartition | main.cpp:38-53 | After a successful loop, the vertex buffer is the vertex section's content lines, in order, each followed by `'\n'`. The fragment buffer is the same for the fragment section. The type is the one named by the last stage marker. |
| ShaderProperties.ParseIsPartition | main.cpp:27-55 | On a file: success means no content line precedes every stage marker. The result is then the joined vertex and fragment sections. A failure names the first such content line. |
| ShaderProperties.SourcesAreSectionLines | main.cpp:50-54 | On success, splitting each output into lines gives back that section's lines. None of them is a marker, and each is a line of the file. Each output's length is the sum of its lines' lengths plus one per line. A non-empty output ends in `'\n'`. |
| ShaderProperties.LinesArePartitioned | main.cpp:41-52 | Every line of the file is, as a multiset, exactly one of: a marker, a content line before any stage marker, a vertex line, or a fragment line. |
| ShaderProperties.NoOrphanIffNoneSectionEmpty | main.cpp:38-51 | No content line is read while the type is `NONE` exactly when the `NONE` section is empty. |
| ShaderProperties.EmptyInput | main.cpp:29-54 | An empty file gives two empty sources. |
| ShaderExamples.TwoSectionExample | main.cpp:27-55 | `"#shader vertex\nA\n#shader fragment\nB\n"` gives the vertex source `"A\n"` and the fragment source `"B\n"`. |
| ShaderExamples.UnsectionedExample | main.cpp:50-51 | `"A\n#shader vertex\n"` is the undefined `ss[-1]` case and is reported at line 0. |
| ShaderExamples.RunOfTwoSections | main.cpp:39-53 | A vertex marker, a content line, a fragment marker and a content line leave the type `FRAGMENT` and one newline-terminated line in each buffer. |
| ShaderExamples.ContentLine | main.cpp:41 | A line without the letter `s` is never a marker. |

## Left out

- `CompileShader`, `CreateShader` and the rest of main.cpp are not part of this model:
  - the GLFW window and GLEW initialisation in `main`;
  - the vertex and index buffers;
  - the render loop;
  - the `glm` transform matrices.
  These are driver calls and floating-point code, not the asset parsing.
- Opening the file with `std::ifstream` is left out. The model takes the file's content
  as a string parameter. A file that cannot be opened reads as empty input, which
  `EmptyInput` covers.
- `std::getline` failing for a reason other than end of input is not modelled: a line
  longer than `max_size()`, or an I/O error.
- The `std::stringstream` buffers are modelled as strings, with `<<` as concatenation.
- Characters are Dafny `char`s. The file's bytes are not decoded, and no encoding is
  modelled.
- The source's undefined behaviour on `ss[-1]` is modelled as an explicit error result.
  What a compiled program would actually do there is left out.
- ShaderProperties.ParseIsPartition: states success implies that no content line precedes
  every stage marker, and failure names the first such line. The converse of the first
  statement follows from the failure clause, and `RunFailsAtFirstOrphan` states it as an
  equivalence at the level of lines.
