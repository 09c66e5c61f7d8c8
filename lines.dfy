/**
 * The troubleshooting page's code block splits its code on line feeds (`code.split('\n')`)
 * and renders each piece on its own row, optionally prefixed by its 1-based line number.
 */
module Lines {

  import opened Wrappers

  const LF: char := '\n'

  /** Number of occurrences of `c` in `s`. */
  function Count(s: string, c: char): nat {
    if s == [] then 0 else (if s[0] == c then 1 else 0) + Count(s[1..], c)
  }

  /** `s.split('\n')`: the maximal line-feed-free pieces between line feeds, empty pieces included. */
  function Split(s: string): (r: seq<string>)
    ensures |r| == Count(s, LF) + 1
    ensures forall i :: 0 <= i < |r| ==> LF !in r[i]
    decreases |s|
  {
    if s == [] then [""]
    else
      var rest := Split(s[1..]);
      if s[0] == LF then [""] + rest
      else [[s[0]] + rest[0]] + rest[1..]
  }

  /** `lines.join('\n')`. */
  function Join(lines: seq<string>): string
    decreases |lines|
  {
    if |lines| == 0 then ""
    else if |lines| == 1 then lines[0]
    else lines[0] + [LF] + Join(lines[1..])
  }

  /** Joining the pieces of a split gives back the code. */
  lemma {:induction false} JoinSplit(s: string)
    ensures Join(Split(s)) == s
    decreases |s|
  {
    if s != [] {
      var rest := Split(s[1..]);
      JoinSplit(s[1..]);
      if s[0] == LF {
        assert Split(s) == [""] + rest;
        assert Join(Split(s)) == "" + [LF] + Join(rest);
      } else if |rest| == 1 {
        assert Split(s) == [[s[0]] + rest[0]];
      } else {
        assert Split(s) == [[s[0]] + rest[0]] + rest[1..];
        assert Join(rest) == rest[0] + [LF] + Join(rest[1..]);
        assert (Split(s))[1..] == rest[1..];
      }
    }
  }

  /** Splitting `a + t`, where `a` holds no line feed, prefixes `a` to the first piece of `t`. */
  lemma {:induction false} SplitLineFeedFree(a: string, t: string)
    requires LF !in a
    ensures Split(a + t) == [a + Split(t)[0]] + Split(t)[1..]
    decreases |a|
  {
    if a != [] {
      SplitLineFeedFree(a[1..], t);
      assert (a + t)[1..] == a[1..] + t;
      assert [a[0]] + (a[1..] + Split(t)[0]) == a + Split(t)[0];
    } else {
      assert a + t == t;
      assert a + Split(t)[0] == Split(t)[0];
      assert Split(t) == [Split(t)[0]] + Split(t)[1..];
    }
  }

  /** Splitting a join of line-feed-free pieces gives back the pieces. */
  lemma {:induction false} SplitJoin(lines: seq<string>)
    requires |lines| > 0
    requires forall i :: 0 <= i < |lines| ==> LF !in lines[i]
    ensures Split(Join(lines)) == lines
    decreases |lines|
  {
    if |lines| == 1 {
      SplitLineFeedFree(lines[0], "");
      assert lines[0] + "" == lines[0];
    } else {
      var tail := Join(lines[1..]);
      SplitJoin(lines[1..]);
      assert Join(lines) == lines[0] + ([LF] + tail);
      SplitLineFeedFree(lines[0], [LF] + tail);
      assert ([LF] + tail)[1..] == tail;
      assert Split([LF] + tail) == [""] + lines[1..];
      assert lines[0] + "" == lines[0];
    }
  }

  /** One rendered row of a code block: its number when numbering is on, and its text. */
  datatype CodeLine = CodeLine(number: Option<nat>, text: string)

  /** The rows of a code block: `lines.map((line, idx) => …{showLineNumbers && idx + 1}…{line})`. */
  function RenderLines(code: string, showLineNumbers: bool): (r: seq<CodeLine>)
    ensures |r| == Count(code, LF) + 1
    ensures forall i :: 0 <= i < |r| ==> r[i].text == Split(code)[i]
    ensures forall i :: 0 <= i < |r| ==> (r[i].number.Some? <==> showLineNumbers)
  {
    var lines := Split(code);
    seq(|lines|, i requires 0 <= i < |lines| => CodeLine(if showLineNumbers then Some(i + 1) else None, lines[i]))
  }

  /** With numbering on, the rows are numbered consecutively from 1 to the number of rows. */
  lemma LineNumbersConsecutive(code: string)
    ensures var r := RenderLines(code, true);
      && r[0].number == Some(1)
      && r[|r| - 1].number == Some(|r|)
      && forall i :: 0 <= i < |r| - 1 ==> r[i + 1].number.value == r[i].number.value + 1
  {
  }

  /** The rows' texts, joined by line feeds, are the code itself. */
  lemma RenderedTextIsCode(code: string, showLineNumbers: bool)
    ensures var r := RenderLines(code, showLineNumbers);
      Join(seq(|r|, i requires 0 <= i < |r| => r[i].text)) == code
  {
    var r := RenderLines(code, showLineNumbers);
    assert seq(|r|, i requires 0 <= i < |r| => r[i].text) == Split(code);
    JoinSplit(code);
  }

}
