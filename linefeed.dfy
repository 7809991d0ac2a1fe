/** The viewer's lazily filled line buffer and the supplier closure that
    feeds the renderer from it (main2 in main.go). Lines are read from the
    input only when the renderer asks for an index the buffer does not hold
    yet; they are kept with their terminators and edited in place. */
module LineFeed {

  /** bufio.Reader.ReadString('\n') on the unread input `rest`: returns the
      text up to and including the first '\n', the input after it, and
      whether end of input was hit (then the text is all that was left). */
  function ReadString(rest: string): (r: (string, string, bool))
    ensures r.0 + r.1 == rest
    ensures r.2 <==> '\n' !in rest
    ensures r.2 ==> r.1 == ""
  {
    if rest == [] then ("", "", true)
    else if rest[0] == '\n' then ("\n", rest[1..], false)
    else
      var (text, more, eof) := ReadString(rest[1..]);
      ([rest[0]] + text, more, eof)
  }

  /** Unless input ran out, the text read is one line: it ends at the first
      '\n' of the input. */
  lemma {:induction false} ReadStringLine(rest: string)
    ensures var (text, more, eof) := ReadString(rest);
      !eof ==> |text| > 0 && text[|text| - 1] == '\n' && '\n' !in text[..|text| - 1]
  {
    if rest != [] && rest[0] != '\n' {
      ReadStringLine(rest[1..]);
      var (text, more, eof) := ReadString(rest[1..]);
      assert !eof ==> ([rest[0]] + text)[..|text|] == [rest[0]] + text[..|text| - 1];
    }
  }

  /** All lines joined back together. */
  function Concat(lines: seq<string>): string
  {
    if lines == [] then "" else lines[0] + Concat(lines[1..])
  }

  /** Joining lines with one more at the end appends that line. */
  lemma {:induction false} ConcatSnoc(lines: seq<string>, line: string)
    ensures Concat(lines + [line]) == Concat(lines) + line
  {
    if lines == [] {
      assert [] + [line] == [line];
      assert [line][1..] == [];
      assert line + "" == line;
    } else {
      assert (lines + [line])[0] == lines[0];
      assert (lines + [line])[1..] == lines[1..] + [line];
      ConcatSnoc(lines[1..], line);
      assert lines[0] + (Concat(lines[1..]) + line) == (lines[0] + Concat(lines[1..])) + line;
    }
  }

  /** The state the supplier closure works on: the buffer, the input the
      reader has not consumed yet, and the closure's counter. */
  datatype Feed = Feed(lines: seq<string>, rest: string, count: nat)

  /** One call of the supplier closure: (line returned, end of input, new
      state). The buffer is read from the input only when the counter has
      reached its end; the index `count - 1` is then in range exactly
      because the counter never runs past the buffer. */
  function Pull(f: Feed): (r: (string, bool, Feed))
    requires f.count <= |f.lines|
    ensures r.2.count == f.count + 1 <= |r.2.lines|
    ensures r.0 == r.2.lines[f.count]
    ensures f.count < |f.lines| ==> r.2.lines == f.lines && r.2.rest == f.rest && !r.1
    ensures f.count == |f.lines| ==>
      && r.2.lines == f.lines + [r.0]
      && r.0 + r.2.rest == f.rest
      && (r.1 <==> '\n' !in f.rest)
      && (r.1 ==> r.2.rest == "")
    ensures f.count == |f.lines| && f.rest == "" ==> r.0 == "" && r.1
  {
    if f.count >= |f.lines| then
      var (text, more, eof) := ReadString(f.rest);
      (text, eof, Feed(f.lines + [text], more, f.count + 1))
    else
      (f.lines[f.count], false, f.(count := f.count + 1))
  }

  /** The buffer, the reader and the closure counter of main2. */
  class LineStore {
    var lines: seq<string>
    var rest: string
    var count: nat

    function State(): Feed
      reads this
    {
      Feed(lines, rest, count)
    }

    constructor (input: string)
      ensures lines == [] && rest == input && count == 0
    {
      lines, rest, count := [], input, 0;
    }

    /** The closure is created with its counter at the first visible line. */
    method Rewind(at: nat)
      modifies this`count
      ensures count == at
    {
      count := at;
    }

    /** The body of the supplier closure. */
    method Next() returns (line: string, eof: bool)
      requires count <= |lines|
      modifies this`lines, this`rest, this`count
      ensures (line, eof, State()) == Pull(old(State()))
    {
      eof := false;
      if count >= |lines| {
        var (text, more, atEnd) := ReadString(rest);
        lines, rest, eof := lines + [text], more, atEnd;
      }
      count := count + 1;
      line := lines[count - 1];
    }

    /** Committing an edited line: only entry `i` changes. */
    method Set(i: nat, text: string)
      requires i < |lines|
      modifies this`lines
      ensures lines == old(lines)[i := text]
    {
      lines := lines[i := text];
    }
  }
}
