/** How an update leaves a snippet out of step: the word was empty, and two of its places could not be told
    apart by their columns. */
module SnippetDrift {
  import opened SnippetText
  import opened Snippets
  import opened SnippetLayouts
  import opened SnippetTheorems

  /** What an update does to the positions alone. */
  function MarksFrom(m: Marks, i: nat, curLine: nat, changeLen: int): (r: Marks)
    requires i <= |m.vars|
    ensures |r.vars| == |m.vars|
    decreases |m.vars| - i
  {
    if i == |m.vars| then m else MarksFrom(AfterVar(m, i, curLine, changeLen), i + 1, curLine, changeLen)
  }

  lemma {:induction false} MarksOfUpdate(t: Text, i: nat, curLine: nat, was: string, now: string)
    requires i <= |t.marks.vars| && LinesExist(t)
    ensures ProcessFrom(t, i, curLine, was, now).marks == MarksFrom(t.marks, i, curLine, |was| - |now|)
    decreases |t.marks.vars| - i
  {
    hide SubstituteAt, AfterVar;
    if i < |t.marks.vars| {
      AfterVarUnchanged(t.marks, i, curLine);
      MarksOfUpdate(ProcessOne(t, i, curLine, was, now), i + 1, curLine, was, now);
    }
  }

  predicate OnRows(m: Marks, rows: seq<nat>) {
    |m.vars| == |rows| && forall j | 0 <= j < |rows| :: m.vars[j].lnum == rows[j]
  }

  // ----- Two mirrors at one column

  /** Mirrors `j` and `j + 1` stand at one column of one line. */
  predicate Together(m: Marks, j: nat) {
    j + 1 < |m.vars| && m.vars[j] == m.vars[j + 1]
  }

  lemma TogetherBefore(m: Marks, i: nat, j: nat, curLine: nat, changeLen: int)
    requires i < j && Together(m, j)
    ensures Together(AfterVar(m, i, curLine, changeLen), j)
  {
    var lnum := m.vars[i].lnum;
    assert Reached(m.vars, i, j + 1, lnum) <==> Reached(m.vars, i, j, lnum) && m.vars[j + 1].lnum <= lnum;
  }

  /** Handling the two, one after the other, leaves them together. */
  lemma TogetherAcross(m: Marks, j: nat, curLine: nat, changeLen: int)
    requires Together(m, j) && changeLen <= 0
    ensures Together(AfterVar(AfterVar(m, j, curLine, changeLen), j + 1, curLine, changeLen), j)
  {
  }

  lemma {:induction false} TogetherAfter(m: Marks, i: nat, j: nat, curLine: nat, changeLen: int)
    requires j + 1 < i <= |m.vars| && Together(m, j)
    ensures Together(MarksFrom(m, i, curLine, changeLen), j)
    decreases |m.vars| - i
  {
    if i < |m.vars| {
      TogetherAfter(AfterVar(m, i, curLine, changeLen), i + 1, j, curLine, changeLen);
    }
  }

  lemma {:induction false} StayTogether(m: Marks, i: nat, j: nat, curLine: nat, changeLen: int)
    requires i <= j && Together(m, j) && changeLen <= 0
    ensures Together(MarksFrom(m, i, curLine, changeLen), j)
    decreases j - i
  {
    hide AfterVar;
    if i < j {
      TogetherBefore(m, i, j, curLine, changeLen);
      StayTogether(AfterVar(m, i, curLine, changeLen), i + 1, j, curLine, changeLen);
    } else {
      TogetherAcross(m, j, curLine, changeLen);
      var next := AfterVar(AfterVar(m, j, curLine, changeLen), j + 1, curLine, changeLen);
      TogetherAfter(next, j + 2, j, curLine, changeLen);
    }
  }

  // ----- A mirror directly before the placeholder

  /** Before mirror `j` is handled it stands where the placeholder does, and later mirrors of the line no earlier;
      after that, it and they are behind `startCol` for good, although mirror `j` belongs before it. */
  predicate Overtaken(m: Marks, i: nat, j: nat, line: nat, grown: nat) {
    && j < |m.vars|
    && m.vars[j].lnum == line
    && m.vars[j].col == m.startCol + 1 + (if i <= j then 0 else grown)
    && forall k | j < k < |m.vars| && i <= k && m.vars[k].lnum == line ::
         m.vars[k].col >= if i <= j then m.vars[j].col else m.startCol + 1
  }

  lemma OvertakenStep(m: Marks, rows: seq<nat>, i: nat, j: nat, line: nat, grown: nat)
    requires OnRows(m, rows) && i < |rows| && Overtaken(m, i, j, line, grown)
    requires forall a, b | 0 <= a < b < |rows| :: rows[a] <= rows[b]
    ensures Overtaken(AfterVar(m, i, line, 0 - grown), i + 1, j, line, grown)
    ensures OnRows(AfterVar(m, i, line, 0 - grown), rows)
  {
    var r := AfterVar(m, i, line, 0 - grown);
    if rows[i] == line {
      forall k | j < k < |rows| && i < k && rows[k] == line
        ensures r.vars[k].col >= if i + 1 <= j then r.vars[j].col else r.startCol + 1
      {
        assert Reached(m.vars, i, k, line);
      }
      if i < j {
        assert Reached(m.vars, i, j, line);
      }
    }
  }

  lemma {:induction false} StayOvertaken(m: Marks, rows: seq<nat>, i: nat, j: nat, line: nat, grown: nat)
    requires OnRows(m, rows) && i <= |rows| && Overtaken(m, i, j, line, grown)
    requires forall a, b | 0 <= a < b < |rows| :: rows[a] <= rows[b]
    ensures Overtaken(MarksFrom(m, i, line, 0 - grown), |rows|, j, line, grown)
    decreases |rows| - i
  {
    hide AfterVar;
    if i < |rows| {
      OvertakenStep(m, rows, i, j, line, grown);
      StayOvertaken(AfterVar(m, i, line, 0 - grown), rows, i + 1, j, line, grown);
    }
  }

  // ----- The mirrors beside an empty gap

  lemma {:induction false} MirrorWithNumber(plan: Layout, t: nat, l: nat, c: nat) returns (j: nat)
    requires t <= |plan.rows| && c < plan.Mirrors(t, l)
    ensures j < t && plan.rows[j] == l && plan.Mirrors(j, l) == c
  {
    if plan.rows[t - 1] == l && plan.Mirrors(t - 1, l) == c {
      j := t - 1;
    } else {
      j := MirrorWithNumber(plan, t - 1, l, c);
    }
  }

  lemma NextMirror(plan: Layout, l: nat, c: nat) returns (j: nat)
    requires plan.Sorted() && c + 1 < plan.Mirrors(|plan.rows|, l)
    ensures j + 1 < |plan.rows| && plan.rows[j] == plan.rows[j + 1] == l
    ensures plan.Mirrors(j, l) == c && plan.Mirrors(j + 1, l) == c + 1
  {
    j := MirrorWithNumber(plan, |plan.rows|, l, c);
    var k := MirrorWithNumber(plan, |plan.rows|, l, c + 1);
    if k <= j {
      plan.MirrorsGrow(k, j, l);
    }
    if j + 1 < k {
      assert plan.rows[j] <= plan.rows[j + 1] <= plan.rows[k];
      plan.MirrorsGrow(j + 2, k, l);
    }
  }

  lemma MarksInStep(plan: Layout, now: string)
    requires plan.Valid()
    ensures plan.InStep(now).marks == plan.StageMarks(|plan.rows|, 0, |now|)
  {
    ColumnsInStep(plan, 0, now);
    assert plan.InStep(now).marks.vars == plan.StageMarks(|plan.rows|, 0, |now|).vars;
  }

  lemma AroundGap(plan: Layout, j: nat, now: nat)
    requires plan.Valid() && j + 1 < |plan.rows| && plan.rows[j] == plan.rows[j + 1]
         && plan.Slot(j + 1) == plan.Slot(j) + 1
    requires plan.Slot(j + 1) < |plan.gaps[plan.rows[j]]| && plan.gaps[plan.rows[j]][plan.Slot(j + 1)] == ""
    ensures plan.Column(0, j, 0, now) == plan.Column(0, j + 1, 0, now)
    ensures plan.Column(|plan.rows|, j + 1, 0, now) == plan.Column(|plan.rows|, j, 0, now) + now
  {
    hide Layout.Slot;
    Distribute(0, now, plan.Slot(j));
  }

  lemma EmptyGapBetweenMirrors(plan: Layout, l: nat, g: nat, now: nat)
    requires plan.Valid() && l < |plan.gaps| && 1 <= g < plan.Slots(l) && plan.gaps[l][g] == "" && now > 0
    requires l == plan.line ==> g != plan.rank && g != plan.rank + 1
    ensures MarksFrom(plan.StageMarks(0, 0, now), 0, plan.line, 0 - now) != plan.StageMarks(|plan.rows|, 0, now)
  {
    hide MarksFrom, Layout.StageMarks, Layout.Column;
    var j := NextMirror(plan, l, if l == plan.line && g > plan.rank then g - 2 else g - 1);
    assert plan.Slot(j) == g - 1 && plan.Slot(j + 1) == g;
    AroundGap(plan, j, now);
    StayTogether(plan.StageMarks(0, 0, now), 0, j, plan.line, 0 - now);
  }

  lemma AtPlaceholder(plan: Layout, j: nat, now: nat)
    requires plan.Valid() && j < |plan.rows| && plan.rows[j] == plan.line && plan.Mirrors(j, plan.line) + 1 == plan.rank
    requires plan.gaps[plan.line][plan.rank] == ""
    ensures plan.Column(0, j, 0, now) == plan.StartColumn(0, 0, now) + 1
    ensures plan.Column(|plan.rows|, j, 0, now) + now == plan.StartColumn(|plan.rows|, 0, now) + 1
    ensures forall k | j < k < |plan.rows| && plan.rows[k] == plan.line ::
              plan.Column(0, k, 0, now) >= plan.Column(0, j, 0, now)
  {
    Distribute(0, now, plan.rank - 1);
    forall k | j < k < |plan.rows| && plan.rows[k] == plan.line
      ensures plan.Column(0, k, 0, now) >= plan.Column(0, j, 0, now)
    {
      plan.MirrorsGrow(j, k, plan.line);
      plan.SlotExists(k);
      GapsAhead(plan.gaps[plan.line], plan.Slot(j), plan.Slot(k));
    }
  }

  lemma EmptyGapBeforePlaceholder(plan: Layout, now: nat)
    requires plan.Valid() && 1 <= plan.rank && plan.gaps[plan.line][plan.rank] == "" && now > 0
    ensures MarksFrom(plan.StageMarks(0, 0, now), 0, plan.line, 0 - now) != plan.StageMarks(|plan.rows|, 0, now)
  {
    var j := MirrorWithNumber(plan, |plan.rows|, plan.line, plan.rank - 1);
    AtPlaceholder(plan, j, now);
    hide MarksFrom, Layout.Column, Layout.StartColumn;
    var m := plan.StageMarks(0, 0, now);
    assert m.startCol == plan.StartColumn(0, 0, now);
    assert plan.StageMarks(|plan.rows|, 0, now).startCol == plan.StartColumn(|plan.rows|, 0, now);
    StayOvertaken(m, plan.rows, 0, j, plan.line, now);
  }

  lemma UpdateDrifts(plan: Layout, now: string)
    requires plan.Valid() && !plan.Separated(0) && now != ""
    ensures ProcessFrom(plan.Stage(0, "", now), 0, plan.line, "", now) != plan.InStep(now)
  {
    hide ProcessFrom, MarksFrom, Layout.InStep, Layout.StageMarks, Layout.LineText, Layout.Sorted, Layout.Slot;
    MarksOfUpdate(plan.Stage(0, "", now), 0, plan.line, "", now);
    MarksInStep(plan, now);
    var l, g :| 0 <= l < |plan.gaps| && 1 <= g < plan.Slots(l) && !(l == plan.line && g == plan.rank + 1)
        && plan.gaps[l][g] == "";
    if l == plan.line && g == plan.rank {
      EmptyGapBeforePlaceholder(plan, |now|);
    } else {
      EmptyGapBetweenMirrors(plan, l, g, |now|);
    }
  }

  // ----- Two adjacent mirrors

  /** One line with two mirrors behind the placeholder. */
  function Twins(line: string, first: int, second: int): Text {
    Text([line], Marks([Position(0, first), Position(0, second)], 0))
  }

  lemma TwinsMoved(col: int, grown: int)
    requires col > 0
    ensures var twins, moved := [Position(0, col), Position(0, col)], Position(0, col + grown);
      && AfterVar(Marks(twins, 0), 0, 0, -grown) == Marks(twins[0 := moved], 0)
      && AfterVar(Marks(twins[0 := moved], 0), 1, 0, -grown) == Marks([moved, moved], 0)
  {
    var twins, moved := [Position(0, col), Position(0, col)], Position(0, col + grown);
    assert AfterVar(Marks(twins, 0), 0, 0, -grown).vars == twins[0 := moved];
    assert AfterVar(Marks(twins[0 := moved], 0), 1, 0, -grown).vars == [moved, moved];
  }

  lemma FirstTwin(line: string, was: string, now: string, col: int)
    requires col > 0
    ensures var moved := col + |now| - |was|;
      ProcessOne(Twins(line, col, col), 0, 0, was, now)
        == Twins(SubstituteAt(line, moved, was, now), moved, col)
  {
    hide SubstituteAt, AfterVar;
    TwinsMoved(col, |now| - |was|);
    assert [Position(0, col), Position(0, col)][0 := Position(0, col + |now| - |was|)]
      == [Position(0, col + |now| - |was|), Position(0, col)];
  }

  lemma SecondTwin(line: string, was: string, now: string, col: int)
    requires col > 0
    ensures var moved := col + |now| - |was|;
      ProcessOne(Twins(line, moved, col), 1, 0, was, now)
        == Twins(SubstituteAt(line, moved, was, now), moved, moved)
  {
    hide SubstituteAt, AfterVar;
    TwinsMoved(col, |now| - |was|);
    assert [Position(0, col), Position(0, col)][0 := Position(0, col + |now| - |was|)]
      == [Position(0, col + |now| - |was|), Position(0, col)];
  }

  /** Mirrors at one column: the word goes into the text twice at one place, and they stay at one column. */
  lemma TwinsUpdated(line: string, was: string, now: string, col: int)
    requires col > 0
    ensures var moved := col + |now| - |was|;
      ProcessFrom(Twins(line, col, col), 0, 0, was, now)
        == Twins(SubstituteAt(SubstituteAt(line, moved, was, now), moved, was, now), moved, moved)
  {
    hide SubstituteAt, ProcessOne, ProcessFrom;
    var moved := col + |now| - |was|;
    var middle := SubstituteAt(line, moved, was, now);
    FirstTwin(line, was, now, col);
    SecondTwin(middle, was, now, col);
    TwoRounds(Twins(line, col, col), Twins(middle, moved, col), was, now);
  }

  lemma TwoRounds(t: Text, u: Text, was: string, now: string)
    requires LinesExist(t) && |t.marks.vars| == 2 && ProcessOne(t, 0, 0, was, now) == u
    ensures ProcessFrom(t, 0, 0, was, now) == ProcessOne(u, 1, 0, was, now)
  {
    hide ProcessOne;
    var v := ProcessOne(u, 1, 0, was, now);
    assert ProcessFrom(u, 1, 0, was, now) == ProcessFrom(v, 2, 0, was, now);
  }

  lemma Splice(front: string, was: string, now: string, back: string)
    ensures SubstituteAt(front + was + back, |front| + 1, was, now) == front + now + back
  {
    var line := front + was + back;
    assert line[|front|..|front| + |was|] == was && line[..|front|] == front && line[|front| + |was|..] == back;
  }

  /** Some text before and after two adjacent mirrors, and the placeholder at the start of the line, emptied: the
      first word typed comes out right in the text, but both mirrors are recorded at one column. */
  lemma EmptiedTwins(between: string, after: string, x: string)
    requires x != ""
    ensures Stroke(Twins(between + after, |between| + 1, |between| + 1), 0, "", x)
         == Twins(x + between + x + x + after, |x| + |between| + 1, |x| + |between| + 1)
  {
    hide ProcessFrom, SubstituteAt;
    Splice("", "", x, between + after);
    Splice(x + between, "", x, after);
    Splice(x + between, "", x, x + after);
    TwinsUpdated(x + between + after, "", x, |between| + 1);
    assert "" + "" + (between + after) == between + after && "" + x + (between + after) == x + between + after;
    assert x + between + "" + after == x + between + after;
    assert x + between + "" + (x + after) == x + between + x + after;
    assert x + between + x + (x + after) == x + between + x + x + after;
    assert Typed(Twins(between + after, |between| + 1, |between| + 1), 0, "", x).lines == [x + between + after];
  }

  /** The next letter then goes wrong in the text: the second mirror is found inside the first one's new word. */
  lemma TwinsGoWrong(between: string, after: string, x: string, y: string)
    requires x != "" && y != ""
    ensures Stroke(Twins(x + between + x + x + after, |x| + |between| + 1, |x| + |between| + 1), 0, x, x + y)
         == Twins(x + y + between + x + y + y + x + after, |x| + |y| + |between| + 1, |x| + |y| + |between| + 1)
  {
    hide ProcessFrom, SubstituteAt;
    var line := x + between + x + x + after;
    var front := x + y + between;
    Splice("", x, x + y, between + x + x + after);
    Splice(front, x, x + y, x + after);
    Splice(front, x, x + y, y + x + after);
    TwinsUpdated(front + x + x + after, x, x + y, |x| + |between| + 1);
    assert "" + x + (between + x + x + after) == line;
    assert "" + (x + y) + (between + x + x + after) == front + x + x + after;
    assert front + x + (x + after) == front + x + x + after;
    assert front + (x + y) + (x + after) == front + x + (y + x + after);
    assert front + (x + y) + (y + x + after) == x + y + between + x + y + y + x + after;
    assert Typed(Twins(line, |x| + |between| + 1, |x| + |between| + 1), 0, x, x + y).lines
      == [front + x + x + after];
  }

  /** Taking letters back, `x + y` to `x`, then leaves the second mirror as it is when the word is not found at its
      column any more; when it is found there by accident, that text is replaced. */
  lemma TwinsTakenBack(between: string, after: string, x: string, y: string)
    requires x + y != "" && y != ""
    ensures var w, col := x + y, |x + y| + |between| + 1;
            Stroke(Twins(w + between + w + w + after, col, col), 0, w, x)
            == Twins(x + between + (if (x + w)[..|w|] == w then x + (x + w)[|w|..] else x + w) + after,
                     |x| + |between| + 1, |x| + |between| + 1)
  {
    hide ProcessFrom, SubstituteAt;
    var w, front := x + y, x + between;
    var line, rest := w + between + w + w + after, (x + w)[|w|..];
    Splice("", w, x, between + w + w + after);
    Splice(front, w, x, w + after);
    TwinsUpdated(front + w + w + after, w, x, |w| + |between| + 1);
    assert "" + w + (between + w + w + after) == line;
    assert "" + x + (between + w + w + after) == front + w + w + after;
    assert front + w + (w + after) == front + w + w + after;
    assert front + x + (w + after) == front + (x + w) + after;
    assert Typed(Twins(line, |w| + |between| + 1, |w| + |between| + 1), 0, w, x).lines == [front + w + w + after];
    if (x + w)[..|w|] == w {
      Splice(front, w, x, rest + after);
      assert x + w == w + rest;
      assert front + w + (rest + after) == front + (x + w) + after;
      assert front + x + (rest + after) == front + (x + rest) + after;
    } else {
      NotThere(front, w, x, x + w, after);
    }
  }

  lemma NotThere(front: string, was: string, now: string, here: string, back: string)
    requires |was| <= |here| && here[..|was|] != was
    ensures SubstituteAt(front + here + back, |front| + 1, was, now) == front + here + back
  {
    assert (front + here + back)[|front|..|front| + |was|] == here[..|was|];
  }
}
