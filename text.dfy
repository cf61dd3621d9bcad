/**
 * The two pieces of the C++ standard library that the shader loader relies on:
 * `std::string::find` (first occurrence of a substring, or `npos`) and the line
 * splitting done by repeated calls to `std::getline` on an input stream.
 */
module Text {

  /** What `std::string::find` returns: the first index of the pattern, or `npos`. */
  datatype FindResult = Found(pos: nat) | Npos

  /** The pattern `p` occurs in `s` starting at index `i`. */
  predicate OccursAt(s: string, p: string, i: nat) {
    i + |p| <= |s| && s[i..i + |p|] == p
  }

  /** An occurrence in the tail of `s` is an occurrence in `s`, one position later. */
  lemma OccursAtShift(s: string, p: string, k: nat)
    requires s != []
    ensures OccursAt(s[1..], p, k) <==> OccursAt(s, p, k + 1)
  {
    if k + |p| <= |s[1..]| {
      assert s[1..][k..k + |p|] == s[k + 1..k + 1 + |p|];
    }
  }

  /** Moving the start of the search one character on keeps "no occurrence before k". */
  lemma NoOccurrenceShift(s: string, p: string, k: nat)
    requires s != [] && !OccursAt(s, p, 0)
    requires forall j: nat :: j < k ==> !OccursAt(s[1..], p, j)
    ensures forall j: nat :: j < k + 1 ==> !OccursAt(s, p, j)
  {
    forall j: nat | j < k + 1 ensures !OccursAt(s, p, j) {
      if j > 0 { OccursAtShift(s, p, j - 1); }
    }
  }

  /** No occurrence at the start nor anywhere in the tail means no occurrence at all. */
  lemma NowhereShift(s: string, p: string)
    requires s != [] && !OccursAt(s, p, 0)
    requires forall j: nat :: !OccursAt(s[1..], p, j)
    ensures forall j: nat :: !OccursAt(s, p, j)
  {
    forall j: nat ensures !OccursAt(s, p, j) {
      if j > 0 { OccursAtShift(s, p, j - 1); }
    }
  }

  /** `s.find(p)`: the search tries each start position in turn, from the left. */
  function Find(s: string, p: string): FindResult
    decreases |s|
  {
    if p <= s then Found(0)
    else if s == [] then Npos
    else
      match Find(s[1..], p)
      case Found(k) => Found(k + 1)
      case Npos => Npos
  }

  /** `Find` returns the least index at which `p` occurs in `s`, or `Npos` when there is none. */
  lemma {:induction false} FindIsFirstOccurrence(s: string, p: string)
    ensures Find(s, p).Found? ==> OccursAt(s, p, Find(s, p).pos)
    ensures Find(s, p).Found? ==> forall j: nat :: j < Find(s, p).pos ==> !OccursAt(s, p, j)
    ensures Find(s, p) == Npos ==> forall j: nat :: !OccursAt(s, p, j)
    decreases |s|
  {
    if p <= s {
      assert s[0..|p|] == p;
    } else if s != [] {
      FindIsFirstOccurrence(s[1..], p);
      match Find(s[1..], p)
      case Found(k) =>
        OccursAtShift(s, p, k);
        NoOccurrenceShift(s, p, k);
      case Npos =>
        NowhereShift(s, p);
    }
  }

  /** `s.find(p) != std::string::npos`. */
  predicate Contains(s: string, p: string) {
    Find(s, p) != Npos
  }

  /** `Contains` is the substring relation: it holds exactly when `p` occurs somewhere in `s`. */
  lemma ContainsIffOccurs(s: string, p: string)
    ensures Contains(s, p) <==> exists i: nat :: OccursAt(s, p, i)
  {
    FindIsFirstOccurrence(s, p);
    if Contains(s, p) {
      assert OccursAt(s, p, Find(s, p).pos);
    }
  }

  /** An occurrence of `p` is enough for `Contains`. */
  lemma OccursContains(s: string, p: string, i: nat)
    requires OccursAt(s, p, i)
    ensures Contains(s, p)
  {
    FindIsFirstOccurrence(s, p);
  }

  /** A pattern whose first character is absent from `s` is not contained in `s`. */
  lemma MissingFirstChar(s: string, p: string)
    requires p != [] && p[0] !in s
    ensures !Contains(s, p)
  {
    FindIsFirstOccurrence(s, p);
    forall j: nat ensures !OccursAt(s, p, j) {
      if j + |p| <= |s| {
        assert s[j..j + |p|][0] == s[j];
      }
    }
  }

  /** Searching for the newline delimiter finds the first `'\n'`. */
  lemma FindNewline(text: string)
    ensures match Find(text, "\n")
            case Found(k) => k < |text| && text[k] == '\n' && forall j :: 0 <= j < k ==> text[j] != '\n'
            case Npos => forall j :: 0 <= j < |text| ==> text[j] != '\n'
  {
    FindIsFirstOccurrence(text, "\n");
    match Find(text, "\n")
    case Found(k) =>
      assert text[k..k + 1] == "\n";
      forall j | 0 <= j < k ensures text[j] != '\n' {
        assert !OccursAt(text, "\n", j);
        assert text[j..j + 1] == [text[j]];
      }
    case Npos =>
      forall j | 0 <= j < |text| ensures text[j] != '\n' {
        assert !OccursAt(text, "\n", j);
        assert text[j..j + 1] == [text[j]];
      }
  }

  /** The newline delimiter is found at its first occurrence `k`. */
  lemma FindNewlineAt(text: string, k: nat)
    requires k < |text| && text[k] == '\n'
    requires forall j :: 0 <= j < k ==> text[j] != '\n'
    ensures Find(text, "\n") == Found(k)
  {
    FindIsFirstOccurrence(text, "\n");
    FindNewline(text);
    assert text[k..k + 1] == "\n";
    assert OccursAt(text, "\n", k);
  }

  /**
   * The lines that successive `std::getline(stream, line)` calls extract from a stream
   * holding `text`: each ends at a `'\n'` (which is consumed and not stored), the last one
   * may end at end of input, and a call that extracts nothing at end of input fails.
   */
  function Lines(text: string): (ls: seq<string>)
    decreases |text|
  {
    if text == [] then []
    else
      FindNewline(text);
      match Find(text, "\n")
      case Npos => [text]
      case Found(k) => [text[..k]] + Lines(text[k + 1..])
  }

  /** Total number of characters in a sequence of lines. */
  function TotalLength(ls: seq<string>): nat {
    if ls == [] then 0 else |ls[0]| + TotalLength(ls[1..])
  }

  /** The text a stream receives when each line is written followed by `'\n'`. */
  function JoinLines(ls: seq<string>): string {
    if ls == [] then [] else ls[0] + "\n" + JoinLines(ls[1..])
  }

  /**
   * Joining adds one newline per line, so the text is empty exactly when there are no
   * lines, and otherwise ends in a newline.
   */
  lemma {:induction false} JoinLinesShape(ls: seq<string>)
    ensures |JoinLines(ls)| == |ls| + TotalLength(ls)
    ensures JoinLines(ls) == [] <==> ls == []
    ensures JoinLines(ls) != [] ==> JoinLines(ls)[|JoinLines(ls)| - 1] == '\n'
    decreases |ls|
  {
    if ls != [] {
      JoinLinesShape(ls[1..]);
    }
  }

  /** Writing a first line puts it, and its newline, in front of the rest. */
  lemma JoinLinesCons(l: string, ls: seq<string>)
    ensures JoinLines([l] + ls) == l + "\n" + JoinLines(ls)
  {
    assert ([l] + ls)[1..] == ls;
  }

  /** Writing one more line adds it, and its newline, at the end. */
  lemma {:induction false} JoinLinesSnoc(ls: seq<string>, l: string)
    ensures JoinLines(ls + [l]) == JoinLines(ls) + l + "\n"
    decreases |ls|
  {
    if ls == [] {
      assert ls + [l] == [l] + [];
      JoinLinesCons(l, []);
    } else {
      var h, t := ls[0], ls[1..];
      assert ls == [h] + t;
      assert ls + [l] == [h] + (t + [l]);
      JoinLinesCons(h, t + [l]);
      JoinLinesSnoc(t, l);
      JoinLinesCons(h, t);
    }
  }

  /** The first newline after a newline-free line is the one that terminates it. */
  lemma FindNewlineAfter(l: string, rest: string)
    requires '\n' !in l
    ensures Find(l + "\n" + rest, "\n") == Found(|l|)
  {
    var t := l + "\n" + rest;
    forall j | 0 <= j < |l| ensures t[j] != '\n' {
      assert t[j] == l[j];
    }
    FindNewlineAt(t, |l|);
  }

  /** The text up to the first newline is the first line; the rest follows it. */
  lemma LinesAt(text: string, k: nat)
    requires k < |text| && text[k] == '\n'
    requires forall j :: 0 <= j < k ==> text[j] != '\n'
    ensures Lines(text) == [text[..k]] + Lines(text[k + 1..])
  {
    FindNewlineAt(text, k);
  }

  /** Text without a newline is one final, unterminated line. */
  lemma LinesLast(text: string)
    requires text != []
    requires forall j :: 0 <= j < |text| ==> text[j] != '\n'
    ensures Lines(text) == [text]
  {
    FindNewline(text);
  }

  /** Lines never contain the delimiter, and only empty text has no lines. */
  lemma {:induction false} LinesShape(text: string)
    ensures forall l <- Lines(text) :: '\n' !in l
    ensures Lines(text) == [] <==> text == []
    decreases |text|
  {
    if text != [] {
      if Find(text, "\n") == Npos {
        FindNewline(text);
        LinesLast(text);
      } else {
        var k := LinesFirst(text);
        FindNewline(text);
        LinesShape(text[k + 1..]);
      }
    }
  }

  /** Splitting what was written line by line gives the lines back. */
  lemma {:induction false} LinesOfJoinLines(ls: seq<string>)
    requires forall l <- ls :: '\n' !in l
    ensures Lines(JoinLines(ls)) == ls
    decreases |ls|
  {
    if ls != [] {
      var rest := JoinLines(ls[1..]);
      FindNewlineAfter(ls[0], rest);
      var t := ls[0] + "\n" + rest;
      assert t[..|ls[0]|] == ls[0];
      assert t[|ls[0]| + 1..] == rest;
      LinesOfJoinLines(ls[1..]);
    }
  }

  /** Text holding a newline splits into the line before it and the lines after it. */
  lemma LinesFirst(text: string) returns (k: nat)
    requires Find(text, "\n").Found?
    ensures k < |text| && text == text[..k] + "\n" + text[k + 1..]
    ensures Lines(text) == [text[..k]] + Lines(text[k + 1..])
  {
    FindNewline(text);
    k := Find(text, "\n").pos;
    LinesAt(text, k);
    assert text == text[..k] + [text[k]] + text[k + 1..];
  }

  /** Text without a newline is one line, which writing back terminates with a newline. */
  lemma JoinLinesOfLastLine(text: string)
    requires text != [] && Find(text, "\n") == Npos
    ensures text[|text| - 1] != '\n'
    ensures JoinLines(Lines(text)) == text + "\n"
  {
    FindNewline(text);
    LinesLast(text);
    JoinLinesCons(text, []);
  }

  /**
   * Writing back the lines of `text` reproduces `text`, except that a final line
   * without a terminating newline gets one.
   */
  lemma {:induction false} JoinLinesOfLines(text: string)
    ensures JoinLines(Lines(text)) == if text == [] || text[|text| - 1] == '\n' then text else text + "\n"
    decreases |text|
  {
    if text != [] {
      if Find(text, "\n") == Npos {
        JoinLinesOfLastLine(text);
      } else {
        var k := LinesFirst(text);
        var head, tail := text[..k], text[k + 1..];
        JoinLinesCons(head, Lines(tail));
        JoinLinesOfLines(tail);
        if tail != [] {
          assert tail[|tail| - 1] == text[|text| - 1];
        }
      }
    }
  }

  /** The first line of `text[pos..]` runs up to the first newline at or after `pos`. */
  lemma LineEndingAt(text: string, pos: nat, i: nat)
    requires pos < |text| && pos <= i <= |text|
    requires forall j :: pos <= j < i ==> text[j] != '\n'
    requires i < |text| ==> text[i] == '\n'
    ensures var next := if i < |text| then i + 1 else i;
            Lines(text[pos..]) == [text[pos..i]] + Lines(text[next..])
  {
    var rest := text[pos..];
    assert forall j :: 0 <= j < |rest| ==> rest[j] == text[pos + j];
    if i < |text| {
      LinesAt(rest, i - pos);
      assert rest[..i - pos] == text[pos..i];
      assert rest[i - pos + 1..] == text[i + 1..];
    } else {
      LinesLast(rest);
      assert rest == text[pos..i];
      assert text[i..] == [];
      assert Lines(text[i..]) == [];
    }
  }

  /**
   * One call of `std::getline(stream, line)` on a stream positioned at `pos` in `text`:
   * characters are extracted up to the next `'\n'` (consumed, not stored) or the end of
   * input; the call fails only when it is already at the end of input.
   */
  method GetLine(text: string, pos: nat) returns (ok: bool, line: string, next: nat)
    requires pos <= |text|
    ensures ok <==> pos < |text|
    ensures ok ==> pos < next <= |text| && Lines(text[pos..]) == [line] + Lines(text[next..])
    ensures !ok ==> Lines(text[pos..]) == [] && next == pos
  {
    if pos == |text| {
      return false, "", pos;
    }
    line := "";
    var i := pos;
    while i < |text| && text[i] != '\n'
      invariant pos <= i <= |text|
      invariant line == text[pos..i]
      invariant forall j :: pos <= j < i ==> text[j] != '\n'
    {
      line := line + [text[i]];
      i := i + 1;
    }
    ok := true;
    next := if i < |text| then i + 1 else i;
    LineEndingAt(text, pos, i);
  }
}
