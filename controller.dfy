/** The viewer's main loop (main2 and getline in main.go): draw a frame from
    the headline on, let the user edit the cursor line, commit the edit with
    the line's original terminator, and move the cursor, scrolling the frame
    so that the cursor stays visible. */
module Controller {
  import opened Text
  import opened LineFeed
  import opened Render

  /** How the line editor was left: Enter (0), Up (-1) or Down (+1). */
  type Move = m: int | -1 <= m <= 1

  /** Outcome of one line-editor session on the cursor line: the edited text
      (without terminator) and the key that ended the session, or an
      interrupt (Escape, or any error from the editor). */
  datatype Edit = Edited(text: string, move: Move) | Interrupted

  /** getline: the edited text gets back the terminator that was chomped off
      the line before editing. Leaving the text as it was gives back the
      line unchanged, and the terminator is found again by chomp exactly when
      the edited text does not make it ambiguous. */
  function Getline(line: string, edited: string): (r: string)
    ensures |r| == |edited| + |Chomp(line).1|
    ensures EndsWith(r, Chomp(line).1) && r[..|edited|] == edited
    ensures edited == Chomp(line).0 ==> r == line
    ensures Chomp(r) == (edited, Chomp(line).1) <==> Reattachable(edited, Chomp(line).1)
  {
    var term := Chomp(line).1;
    ChompRecovers(edited, term);
    assert (edited + term)[..|edited|] == edited;
    edited + term
  }

  /** The visible window: the cursor lies in the `visible` rows shown from
      the headline on. */
  predicate InWindow(headline: int, csrline: int, visible: int)
  {
    0 <= headline <= csrline < headline + visible
  }

  /** main2's cursor move after an edit: a move above the first line is
      ignored; otherwise the cursor moves and the headline follows it just
      far enough to keep it visible. */
  function Scroll(headline: int, csrline: int, move: Move, visible: int): (r: (int, int))
    ensures csrline + move < 0 ==> r == (headline, csrline)
    ensures csrline + move >= 0 ==> r.1 == csrline + move
    ensures visible >= 1 && InWindow(headline, csrline, visible) ==> InWindow(r.0, r.1, visible)
    ensures visible >= 1 && 0 <= headline && 0 <= csrline + move ==> InWindow(r.0, r.1, visible)
    ensures InWindow(headline, r.1, visible) ==> r.0 == headline
    ensures visible >= 1 && 0 <= csrline + move && csrline + move >= headline + visible ==> r.0 > headline
    ensures r.0 < headline ==> r.0 == r.1
    ensures r.0 > headline ==> r.1 == r.0 + visible - 1
  {
    var target := csrline + move;
    if target < 0 then (headline, csrline)
    else if target < headline then (target, target)
    else if target >= headline + visible then (target - visible + 1, target)
    else (headline, target)
  }

  /** The cursor and headline after a sequence of moves, applied in order. */
  function ScrollAll(headline: int, csrline: int, moves: seq<Move>, visible: int): (int, int)
    decreases |moves|
  {
    if moves == [] then (headline, csrline)
    else
      var (h, c) := ScrollAll(headline, csrline, moves[..|moves| - 1], visible);
      Scroll(h, c, moves[|moves| - 1], visible)
  }

  /** However the user moves, the cursor stays on the screen and never above
      the first line. */
  lemma {:induction false} ScrollAllInWindow(headline: int, csrline: int, moves: seq<Move>, visible: int)
    requires visible >= 1 && InWindow(headline, csrline, visible)
    ensures var (h, c) := ScrollAll(headline, csrline, moves, visible);
      InWindow(h, c, visible)
    decreases |moves|
  {
    if moves != [] {
      ScrollAllInWindow(headline, csrline, moves[..|moves| - 1], visible);
    }
  }

  /** Everything one pass of main2's loop reads and writes: the supplier's
      state (buffer, unread input, counter), the view's cache, and the
      headline and cursor line. */
  datatype Screen = Screen(feed: Feed, cache: seq<string>, headline: int, csrline: int)

  /** The cursor is on screen and is a buffer entry or the next one to be
      read. */
  predicate Showable(s: Screen, visible: int)
  {
    visible >= 1 && InWindow(s.headline, s.csrline, visible) && s.csrline <= |s.feed.lines|
  }

  /** The drawing half of a pass: `visible` rows are pulled from the
      headline on and appended to the cache. The cursor line is then in the
      buffer, and entries already there are unchanged. */
  function Framed(s: Screen, visible: int): (r: Screen)
    requires Showable(s, visible)
    ensures Showable(r, visible) && r.csrline < |r.feed.lines|
    ensures (r.headline, r.csrline) == (s.headline, s.csrline)
    ensures |s.feed.lines| <= |r.feed.lines| && r.feed.lines[..|s.feed.lines|] == s.feed.lines
    ensures |s.cache| <= |r.cache| && r.cache[..|s.cache|] == s.cache
  {
    var start := s.feed.(count := s.headline);
    var (drawn, stopped, f) := FrameLines(start, visible);
    FrameLinesGrowth(start, visible);
    CursorLineMaterialized(start, visible, s.csrline);
    assert (s.cache + drawn)[..|s.cache|] == s.cache;
    Screen(f, s.cache + drawn, s.headline, s.csrline)
  }

  /** One pass of main2's loop with a committed edit: draw the frame, store
      the edited cursor line with its original terminator, and move. The
      cursor stays showable, the buffer only grows, and no entry but the
      cursor line changes. */
  function Pass(s: Screen, text: string, move: Move, visible: int): (r: Screen)
    requires Showable(s, visible)
    ensures Showable(r, visible)
    ensures |s.feed.lines| <= |r.feed.lines|
    ensures forall i :: 0 <= i < |s.feed.lines| && i != s.csrline ==> r.feed.lines[i] == s.feed.lines[i]
  {
    var t := Framed(s, visible);
    assert forall i :: 0 <= i < |s.feed.lines| ==> t.feed.lines[i] == t.feed.lines[..|s.feed.lines|][i];
    var (h, c) := Scroll(t.headline, t.csrline, move, visible);
    Screen(t.feed.(lines := t.feed.lines[t.csrline := Getline(t.feed.lines[t.csrline], text)]), t.cache, h, c)
  }

  /** A session of committed edits, passed in order. */
  function Replay(s: Screen, edits: seq<Edit>, visible: int): (r: Screen)
    requires Showable(s, visible)
    requires forall i :: 0 <= i < |edits| ==> edits[i].Edited?
    ensures Showable(r, visible)
    ensures |s.feed.lines| <= |r.feed.lines|
    decreases |edits|
  {
    if edits == [] then s
    else
      var last := edits[|edits| - 1];
      Pass(Replay(s, edits[..|edits| - 1], visible), last.text, last.move, visible)
  }

  /** A session leaves the cursor and headline where its moves lead. */
  lemma {:induction false} ReplayScrolls(s: Screen, edits: seq<Edit>, moves: seq<Move>, visible: int)
    requires Showable(s, visible)
    requires |moves| == |edits|
    requires forall i :: 0 <= i < |edits| ==> edits[i].Edited? && edits[i].move == moves[i]
    ensures var r := Replay(s, edits, visible);
      (r.headline, r.csrline) == ScrollAll(s.headline, s.csrline, moves, visible)
    decreases |edits|
  {
    if edits != [] {
      var n := |edits| - 1;
      ReplayScrolls(s, edits[..n], moves[..n], visible);
      assert moves[..n] == moves[..|moves| - 1];
    }
  }

  /** A session never loses a buffer entry, and entries it never put the
      cursor on keep their contents. */
  lemma {:induction false} ReplayKeepsLines(s: Screen, edits: seq<Edit>, visible: int, i: nat)
    requires Showable(s, visible)
    requires forall k :: 0 <= k < |edits| ==> edits[k].Edited?
    requires i < |s.feed.lines|
    requires i != s.csrline && forall k :: 0 <= k < |edits| ==> Replay(s, edits[..k], visible).csrline != i
    ensures var r := Replay(s, edits, visible);
      i < |r.feed.lines| && r.feed.lines[i] == s.feed.lines[i]
    decreases |edits|
  {
    if edits != [] {
      var n := |edits| - 1;
      var p := Replay(s, edits[..n], visible);
      assert p.csrline != i;
      assert i < |p.feed.lines| && p.feed.lines[i] == s.feed.lines[i] by {
        assert forall k :: 0 <= k < n ==> edits[..n][..k] == edits[..k];
        ReplayKeepsLines(s, edits[..n], visible, i);
      }
      assert Replay(s, edits, visible) == Pass(p, edits[n].text, edits[n].move, visible);
    }
  }

  /** A trace of screens, each one pass after the one before, ends where
      replaying the session from its first screen ends. */
  lemma {:induction false} TraceIsReplay(edits: seq<Edit>, trace: seq<Screen>, visible: int)
    requires |trace| == |edits| + 1 && Showable(trace[0], visible)
    requires forall k :: 0 <= k < |edits| ==> edits[k].Edited? && Showable(trace[k], visible)
    requires forall k :: 0 <= k < |edits| ==>
      trace[k + 1] == Pass(trace[k], edits[k].text, edits[k].move, visible)
    ensures trace[|edits|] == Replay(trace[0], edits, visible)
    decreases |edits|
  {
    if edits != [] {
      var n := |edits| - 1;
      var pre, done := trace[..n + 1], edits[..n];
      assert pre[n] == Replay(trace[0], done, visible) by {
        forall k | 0 <= k < n
          ensures done[k].Edited? && Showable(pre[k], visible)
          ensures pre[k + 1] == Pass(pre[k], done[k].text, done[k].move, visible)
        {
          assert pre[k] == trace[k] && pre[k + 1] == trace[k + 1] && done[k] == edits[k];
        }
        TraceIsReplay(done, pre, visible);
      }
      assert Replay(trace[0], edits, visible) == Pass(Replay(trace[0], done, visible), edits[n].text, edits[n].move, visible);
    }
  }

  /** The viewer's state across frames: the line buffer with its reader, the
      view with its cache, and the headline and cursor line. */
  class Pager {
    const rw: RuneWidth
    const width: int
    const height: int
    const view: View
    const store: LineStore
    var headline: int
    var csrline: int

    /** The frame shows height - 2 rows with the cursor among them, and the
        cursor line is in the buffer or is the next one to be read. */
    ghost predicate Valid()
      reads this, store
    {
      && height >= 3
      && InWindow(headline, csrline, height - 2)
      && csrline <= |store.lines|
    }

    /** The pager's state as a value. */
    function Snapshot(): Screen
      reads this, store, view
    {
      Screen(store.State(), view.cache, headline, csrline)
    }

    constructor (rw: RuneWidth, input: string, width: int, height: int)
      requires height >= 3
      ensures Valid()
      ensures this.rw == rw && this.width == width && this.height == height
      ensures headline == 0 && csrline == 0
      ensures store.State() == Feed([], input, 0) && view.cache == []
      ensures fresh(store) && fresh(view)
    {
      this.rw := rw;
      this.width := width;
      this.height := height;
      view := new View();
      store := new LineStore(input);
      headline := 0;
      csrline := 0;
    }

    /** Draw the frame: the supplier closure starts at the headline and the
        view pulls height - 2 rows through it. The cursor line is then in the
        buffer, and entries already there are unchanged. */
    method DrawFrame() returns (rows: seq<Row>)
      requires Valid()
      modifies store, view
      ensures var (drawn, stopped, f) := FrameLines(old(store.State()).(count := headline), height - 2);
        && Rendered(rw, drawn, width, rows)
        && view.cache == old(view.cache) + drawn
        && store.State() == f
      ensures csrline < |store.lines|
      ensures |old(store.lines)| <= |store.lines| && store.lines[..|old(store.lines)|] == old(store.lines)
    {
      ghost var f0 := store.State().(count := headline);
      store.Rewind(headline);
      assert store.State() == f0;
      var nlines;
      nlines, rows := view.Draw(rw, store, width, height - 2);
      ghost var frame := FrameLines(f0, height - 2);
      assert Rendered(rw, frame.0, width, rows) && store.State() == frame.2;
      FrameLinesGrowth(f0, height - 2);
      CursorLineMaterialized(f0, height - 2, csrline);
    }

    /** After the edit session on the cursor line: an interrupt ends the
        loop with nothing committed; otherwise the edited text is stored
        with the line's terminator and the cursor moves. */
    method Commit(edit: Edit) returns (quit: bool)
      requires height >= 3 && InWindow(headline, csrline, height - 2) && csrline < |store.lines|
      modifies this, store`lines
      ensures Valid()
      ensures quit <==> edit.Interrupted?
      ensures quit ==> store.lines == old(store.lines) && headline == old(headline) && csrline == old(csrline)
      ensures !quit ==>
        && store.lines == old(store.lines)[old(csrline) := Getline(old(store.lines)[old(csrline)], edit.text)]
        && (headline, csrline) == Scroll(old(headline), old(csrline), edit.move, height - 2)
    {
      var line := store.lines[csrline];
      match edit
      case Interrupted =>
        quit := true;
      case Edited(text, move) =>
        quit := false;
        store.Set(csrline, Getline(line, text));
        var (h, c) := Scroll(headline, csrline, move, height - 2);
        headline, csrline := h, c;
    }

    /** One pass of main2's loop: draw the frame, then commit the edit made
        on the cursor line. The cursor line is drawn from the buffer as the
        frame left it, and only that entry is replaced. */
    method Step(edit: Edit) returns (rows: seq<Row>, quit: bool)
      requires Valid()
      modifies this, store, view
      ensures Valid()
      ensures quit <==> edit.Interrupted?
      ensures Rendered(rw, FrameLines(old(store.State()).(count := old(headline)), height - 2).0, width, rows)
      ensures Snapshot() == if quit then Framed(old(Snapshot()), height - 2) else Pass(old(Snapshot()), edit.text, edit.move, height - 2)
    {
      rows := DrawFrame();
      quit := Commit(edit);
    }

    /** main2's loop over a session of edits: a frame and an edit per pass,
        until an edit is interrupted or the session runs out. Returns the
        number of edits committed; the cursor and headline are where the
        committed moves lead. */
    method Run(edits: seq<Edit>) returns (committed: nat, ghost trace: seq<Screen>)
      requires Valid()
      modifies this, store, view
      ensures Valid()
      ensures committed <= |edits| && |trace| == committed + 1 && trace[0] == old(Snapshot())
      ensures forall k :: 0 <= k < committed ==> edits[k].Edited? && Showable(trace[k], height - 2)
      ensures forall k :: 0 <= k < committed ==>
        trace[k + 1] == Pass(trace[k], edits[k].text, edits[k].move, height - 2)
      ensures committed < |edits| ==> edits[committed].Interrupted?
      ensures Showable(trace[committed], height - 2)
      ensures Snapshot() == if committed < |edits| then Framed(trace[committed], height - 2) else trace[committed]
    {
      committed, trace := 0, [Snapshot()];
      while committed < |edits|
        invariant Valid()
        invariant committed <= |edits| && |trace| == committed + 1
        invariant trace[0] == old(Snapshot())
        invariant forall k :: 0 <= k < committed ==> edits[k].Edited? && Showable(trace[k], height - 2)
        invariant forall k :: 0 <= k < committed ==>
          trace[k + 1] == Pass(trace[k], edits[k].text, edits[k].move, height - 2)
        invariant Snapshot() == trace[committed]
      {
        ghost var before := Snapshot();
        var rows, quit := Step(edits[committed]);
        if quit {
          return;
        }
        ghost var next := trace + [Snapshot()];
        assert forall k :: 0 <= k < committed + 1 ==> edits[k].Edited? && Showable(next[k], height - 2) by {
          forall k | 0 <= k < committed + 1
            ensures edits[k].Edited? && Showable(next[k], height - 2)
          {
            assert next[k] == trace[k];
          }
        }
        assert forall k :: 0 <= k < committed + 1 ==>
          next[k + 1] == Pass(next[k], edits[k].text, edits[k].move, height - 2) by {
          forall k | 0 <= k < committed + 1
            ensures next[k + 1] == Pass(next[k], edits[k].text, edits[k].move, height - 2)
          {
            if k < committed {
              assert next[k] == trace[k] && next[k + 1] == trace[k + 1];
            } else {
              assert next[k] == before;
            }
          }
        }
        trace := next;
        committed := committed + 1;
      }
    }
  }
}
