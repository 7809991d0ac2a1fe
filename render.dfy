/** The renderer (View.Draw in main.go): pulls up to `height` lines from the
    supplier, records each raw line in the view's cache and writes each as a
    row: tabs expanded, cut to the terminal width, followed by a glyph for
    its terminator when the row is not full. */
module Render {
  import opened Text
  import opened LineFeed

  /** One row as written: its visible text and the terminator glyph written
      after it ("" when none is written). */
  datatype Row = Row(text: string, glyph: string)

  /** Glyph shown for a terminator: CRLF, LF and CR get distinct arrows;
      no terminator shows nothing. */
  function Glyph(term: string): (g: string)
    ensures IsTerminator(term) ==> (g == "" <==> term == "")
  {
    if term == "\r\n" then "\U{2936}"
    else if term == "\n" then "\U{2B63}"
    else if term == "\r" then "\U{2B60}"
    else term
  }

  /** The row drawn for a raw line at the given terminal width. */
  function RenderRow(rw: RuneWidth, raw: string, width: int): Row
  {
    var (content, term) := Chomp(raw);
    var (text, trimmed) := CutInWidth(rw, Detabbed(rw, content), width);
    Row(text, if trimmed < width then Glyph(term) else "")
  }

  /** `rows` are the rows drawn for the raw lines `raws`: one per line, in
      order. */
  predicate Rendered(rw: RuneWidth, raws: seq<string>, width: int, rows: seq<Row>)
  {
    |rows| == |raws| && forall i :: 0 <= i < |raws| ==> rows[i] == RenderRow(rw, raws[i], width)
  }

  lemma RenderedAppend(rw: RuneWidth, raws: seq<string>, more: seq<string>, width: int,
                       rows: seq<Row>, moreRows: seq<Row>)
    requires Rendered(rw, raws, width, rows) && Rendered(rw, more, width, moreRows)
    ensures Rendered(rw, raws + more, width, rows + moreRows)
  {
    assert forall i :: |raws| <= i < |raws| + |more| ==>
      (raws + more)[i] == more[i - |raws|] && (rows + moreRows)[i] == moreRows[i - |raws|];
  }

  /** A drawn row shows a tab-free prefix of the line's content (terminator
      removed, tabs expanded) that fits the width, the whole content when it
      fits, and a glyph exactly when the line has a terminator and the row
      is not full; different terminators show different glyphs. */
  lemma RenderRowShape(rw: RuneWidth, raw: string, width: int)
    ensures var row := RenderRow(rw, raw, width);
      var shown := Detabbed(rw, Chomp(raw).0);
      && '\t' !in row.text
      && |row.text| <= |shown| && row.text == shown[..|row.text|]
      && (StringWidth(rw, row.text) <= width || row.text == [])
      && (StringWidth(rw, shown) <= width ==> row.text == shown)
      && (row.glyph != "" <==> StringWidth(rw, row.text) < width && Chomp(raw).1 != "")
      && (row.glyph != "" ==> row.glyph == Glyph(Chomp(raw).1))
  {
    var shown := Detabbed(rw, Chomp(raw).0);
    CutInWidthFits(rw, shown, width);
    var text := CutInWidth(rw, shown, width).0;
    assert forall i :: 0 <= i < |text| ==> text[i] == shown[i];
  }

  lemma GlyphsDistinct(t1: string, t2: string)
    requires IsTerminator(t1) && IsTerminator(t2) && t1 != t2
    ensures Glyph(t1) != Glyph(t2)
  {
  }

  /** What one Draw with `rows` rows does with the supplier: the raw lines it
      draws, whether it stopped at a supplier error, and the supplier's final
      state. */
  function FrameLines(f: Feed, rows: nat): (r: (seq<string>, bool, Feed))
    requires f.count <= |f.lines|
    decreases rows
    ensures r.2.count <= |r.2.lines|
  {
    if rows == 0 then ([], false, f)
    else
      var (line, eof, f1) := Pull(f);
      if eof then ([], true, f1)
      else
        var (more, stopped, f2) := FrameLines(f1, rows - 1);
        ([line] + more, stopped, f2)
  }

  /** Draw calls the supplier at most `rows` times and stops at the first
      call that reports end of input (so only once the input is used up):
      it draws `rows` lines, or fewer when it stopped, and the counter has
      advanced once per call. */
  lemma {:induction false} FrameLinesCalls(f: Feed, rows: nat)
    requires f.count <= |f.lines|
    ensures var (drawn, stopped, g) := FrameLines(f, rows);
      && (stopped ==> |drawn| < rows) && (!stopped ==> |drawn| == rows)
      && g.count == f.count + |drawn| + (if stopped then 1 else 0)
      && (stopped ==> g.rest == "")
    decreases rows
  {
    if rows > 0 {
      var (line, eof, f1) := Pull(f);
      if !eof {
        FrameLinesCalls(f1, rows - 1);
      }
    }
  }

  /** The buffer grows during a Draw only as far as the counter got: one
      read per new index. */
  lemma {:induction false} FrameLinesLength(f: Feed, rows: nat)
    requires f.count <= |f.lines|
    ensures var g := FrameLines(f, rows).2;
      |g.lines| == (if g.count > |f.lines| then g.count else |f.lines|)
    decreases rows
  {
    if rows > 0 {
      var (line, eof, f1) := Pull(f);
      if !eof {
        FrameLinesCalls(f1, rows - 1);
        FrameLinesLength(f1, rows - 1);
        assert FrameLines(f, rows).2 == FrameLines(f1, rows - 1).2;
      }
    }
  }

  /** Entries already in the buffer never change during a Draw. */
  lemma {:induction false} FrameLinesGrowth(f: Feed, rows: nat)
    requires f.count <= |f.lines|
    ensures var g := FrameLines(f, rows).2;
      |f.lines| <= |g.lines| && g.lines[..|f.lines|] == f.lines
    decreases rows
  {
    if rows == 0 {
      assert f.lines[..|f.lines|] == f.lines;
    } else {
      var (line, eof, f1) := Pull(f);
      assert f1.lines[..|f.lines|] == f.lines;
      if !eof {
        FrameLinesGrowth(f1, rows - 1);
        var f2 := FrameLines(f1, rows - 1).2;
        assert FrameLines(f, rows).2 == f2;
        assert f2.lines[..|f.lines|] == f2.lines[..|f1.lines|][..|f.lines|];
      }
    }
  }

  /** The lines Draw draws are the buffer entries from the counter on, in
      order. */
  lemma {:induction false} FrameLinesDrawn(f: Feed, rows: nat)
    requires f.count <= |f.lines|
    ensures var (drawn, stopped, g) := FrameLines(f, rows);
      && f.count + |drawn| <= |g.lines|
      && drawn == g.lines[f.count..f.count + |drawn|]
    decreases rows
  {
    if rows > 0 {
      var (line, eof, f1) := Pull(f);
      if !eof {
        var (more, stopped, f2) := FrameLines(f1, rows - 1);
        assert FrameLines(f, rows) == ([line] + more, stopped, f2);
        assert f1.count + |more| <= |f2.lines| && more == f2.lines[f1.count..f1.count + |more|] by {
          FrameLinesDrawn(f1, rows - 1);
        }
        assert f2.lines[f.count] == line by {
          FrameLinesGrowth(f1, rows - 1);
          assert f2.lines[..|f1.lines|][f.count] == f1.lines[f.count];
        }
        assert f2.lines[f.count..f.count + 1 + |more|] == [line] + f2.lines[f1.count..f1.count + |more|];
      }
    }
  }

  /** A cursor line inside the frame is in the buffer once the frame is
      drawn, provided it was at most one past the buffer's end: the edit
      that follows the frame can index it. */
  lemma {:induction false} CursorLineMaterialized(f: Feed, rows: nat, cursor: nat)
    requires f.count <= cursor <= |f.lines| && cursor < f.count + rows
    ensures cursor < |FrameLines(f, rows).2.lines|
    decreases rows
  {
    var (line, eof, f1) := Pull(f);
    if cursor == f.count {
      if !eof {
        FrameLinesGrowth(f1, rows - 1);
        assert FrameLines(f, rows).2 == FrameLines(f1, rows - 1).2;
      }
    } else {
      assert f1.lines == f.lines && !eof;
      CursorLineMaterialized(f1, rows - 1, cursor);
      assert FrameLines(f, rows).2 == FrameLines(f1, rows - 1).2;
    }
  }

  /** Everything read from the input since `start` is in the buffer after
      `start`'s entries, and with the unread rest gives back `start`'s unread
      input. */
  predicate Consumed(start: Feed, f: Feed)
  {
    |start.lines| <= |f.lines| && Concat(f.lines[|start.lines|..]) + f.rest == start.rest
  }

  /** Appending the line read keeps the input accounted for. */
  lemma ReadConsumes(start: Feed, f: Feed, line: string, g: Feed)
    requires Consumed(start, f)
    requires g.lines == f.lines + [line] && line + g.rest == f.rest
    ensures Consumed(start, g)
  {
    var done := f.lines[|start.lines|..];
    assert g.lines[|start.lines|..] == done + [line];
    ConcatSnoc(done, line);
    assert (Concat(done) + line) + g.rest == Concat(done) + (line + g.rest);
  }

  /** A supplier call keeps the input accounted for. */
  lemma PullConsumes(start: Feed, f: Feed)
    requires f.count <= |f.lines| && Consumed(start, f)
    ensures Consumed(start, Pull(f).2)
  {
    var (line, eof, g) := Pull(f);
    if f.count == |f.lines| {
      ReadConsumes(start, f, line, g);
    } else {
      assert g.lines == f.lines && g.rest == f.rest;
    }
  }

  lemma {:induction false} FrameKeepsConsumed(start: Feed, f: Feed, rows: nat)
    requires f.count <= |f.lines| && Consumed(start, f)
    ensures Consumed(start, FrameLines(f, rows).2)
    decreases rows
  {
    if rows > 0 {
      PullConsumes(start, f);
      var (line, eof, f1) := Pull(f);
      if !eof {
        FrameKeepsConsumed(start, f1, rows - 1);
      }
    }
  }

  /** The buffer entries a Draw appends are the input it consumed, in order
      and with nothing lost: joined together with the unread rest they give
      back the unread input from before the Draw. */
  lemma FrameConsumesInput(f: Feed, rows: nat)
    requires f.count <= |f.lines|
    ensures var g := FrameLines(f, rows).2;
      |f.lines| <= |g.lines| && Concat(g.lines[|f.lines|..]) + g.rest == f.rest
  {
    assert f.lines[|f.lines|..] == [];
    FrameKeepsConsumed(f, f, rows);
  }

  /** Draw's loop as an accumulating definition: FrameLines continued
      after `drawn` has already been drawn. */
  function FrameFrom(drawn: seq<string>, f: Feed, rows: nat): (seq<string>, bool, Feed)
    requires f.count <= |f.lines|
    decreases rows
  {
    if rows == 0 then (drawn, false, f)
    else
      var (line, eof, f1) := Pull(f);
      if eof then (drawn, true, f1)
      else FrameFrom(drawn + [line], f1, rows - 1)
  }

  /** The accumulating definition agrees with FrameLines. */
  lemma {:induction false} FrameFromLines(drawn: seq<string>, f: Feed, rows: nat)
    requires f.count <= |f.lines|
    ensures var (more, stopped, g) := FrameLines(f, rows);
      FrameFrom(drawn, f, rows) == (drawn + more, stopped, g)
    decreases rows
  {
    if rows == 0 {
      assert drawn + [] == drawn;
    } else {
      var (line, eof, f1) := Pull(f);
      if eof {
        assert drawn + [] == drawn;
      } else {
        FrameFromLines(drawn + [line], f1, rows - 1);
        var more := FrameLines(f1, rows - 1).0;
        assert (drawn + [line]) + more == drawn + ([line] + more);
      }
    }
  }

  /** The part of Draw's loop body that turns one raw line into a row. */
  method DrawRow(rw: RuneWidth, line: string, width: int) returns (row: Row)
    ensures Rendered(rw, [line], width, [row])
  {
    var (content, term) := Chomp(line);
    var glyph := Glyph(term);
    var expanded := Detab(rw, content);
    var text, trimmed := CutStrInWidth(rw, expanded, width);
    row := Row(text, if trimmed < width then glyph else "");
  }

  /** The renderer and its cache of raw lines drawn. */
  class View {
    var cache: seq<string>

    constructor ()
      ensures cache == []
    {
      cache := [];
    }

    method Draw(rw: RuneWidth, src: LineStore, width: int, height: int) returns (n: int, rows: seq<Row>)
      requires src.count <= |src.lines|
      modifies this, src
      ensures var (drawn, stopped, f) := FrameLines(old(src.State()), if height < 0 then 0 else height);
        && src.State() == f
        && cache == old(cache) + drawn
        && n == (if stopped then |drawn| else height)
        && Rendered(rw, drawn, width, rows)
      ensures n <= height
    {
      ghost var total: nat := if height < 0 then 0 else height;
      ghost var f0 := src.State();
      FrameLinesCalls(f0, total);
      FrameFromLines([], f0, total);
      ghost var goal := FrameFrom([], f0, total);
      assert goal == FrameLines(f0, total) by {
        assert [] + FrameLines(f0, total).0 == FrameLines(f0, total).0;
      }
      ghost var drawn: seq<string> := [];
      rows := [];
      var rowIndex := 0;
      while rowIndex < height
        invariant 0 <= rowIndex <= total && |drawn| == rowIndex
        invariant src.count <= |src.lines|
        invariant cache == old(cache) + drawn
        invariant goal == FrameFrom(drawn, src.State(), total - rowIndex)
        invariant Rendered(rw, drawn, width, rows)
      {
        var line, eof := src.Next();
        if eof {
          return rowIndex, rows;
        }
        if cache != [] && |cache| < rowIndex {
          // The cache has grown by one entry per row drawn, so it is never
          // shorter than the row index: the comparison with the cached line
          // and the bare newline it would write are never reached.
          assert false;
        } else {
          cache := cache + [line];
        }
        var row := DrawRow(rw, line, width);
        RenderedAppend(rw, drawn, [line], width, rows, [row]);
        rows := rows + [row];
        drawn := drawn + [line];
        rowIndex := rowIndex + 1;
      }
      return height, rows;
    }
  }
}
