/** Where the mirrors of a placeholder belong in a text, and the text and the recorded positions half-way
    through an update. */
module SnippetLayouts {
  import opened SnippetText
  import opened Snippets

  /** `rows[j]` is the line of mirror `j` and `gaps[l]` the fixed text of line `l`; the placeholder is on line
      `line`, behind `rank` of its mirrors. */
  datatype Layout = Layout(rows: seq<nat>, gaps: seq<seq<string>>, line: nat, rank: nat) {

    /** The number of mirrors among the first `t` that are on line `l`. */
    function Mirrors(t: nat, l: nat): (n: nat)
      requires t <= |rows|
      ensures n <= t
    {
      if t == 0 then 0 else Mirrors(t - 1, l) + if rows[t - 1] == l then 1 else 0
    }

    lemma {:induction false} MirrorsGrow(j: nat, t: nat, l: nat)
      requires j <= t <= |rows|
      ensures Mirrors(j, l) <= Mirrors(t, l)
      ensures j < t && rows[j] == l ==> Mirrors(j, l) + 1 <= Mirrors(t, l)
    {
      if j < t {
        MirrorsGrow(j, t - 1, l);
      }
    }

    predicate Sorted() {
      forall j, k | 0 <= j < k < |rows| :: rows[j] <= rows[k]
    }

    predicate Valid() {
      && Sorted()
      && line < |gaps|
      && rank <= Mirrors(|rows|, line)
      && (forall j | 0 <= j < |rows| :: rows[j] < |gaps|)
      && forall l | 0 <= l < |gaps| :: |gaps[l]| == Mirrors(|rows|, l) + 1 + if l == line then 1 else 0
    }

    function Slots(l: nat): (n: nat)
      requires Valid() && l < |gaps|
      ensures |gaps[l]| == n + 1
    {
      |gaps[l]| - 1
    }

    /** The slot of mirror `j` on its line; the placeholder has slot `rank`. */
    function Slot(j: nat): nat
      requires j < |rows|
    {
      var c := Mirrors(j, rows[j]);
      if rows[j] == line && c >= rank then c + 1 else c
    }

    lemma SlotExists(j: nat)
      requires Valid() && j < |rows|
      ensures Slot(j) < Slots(rows[j])
      ensures rows[j] == line ==> Slot(j) != rank
    {
      MirrorsGrow(j, |rows|, rows[j]);
    }

    /** The words on line `l` when the placeholder holds `now` and the first `t` mirrors were handled. */
    function Words(t: nat, l: nat, was: string, now: string): (r: seq<string>)
      requires Valid() && t <= |rows| && l < |gaps|
      ensures |r| == Slots(l)
    {
      seq(Slots(l), s requires 0 <= s < Slots(l) => WordIn(t, l, s, was, now))
    }

    function WordIn(t: nat, l: nat, s: nat, was: string, now: string): string
      requires t <= |rows|
    {
      if l == line && s == rank then now
      else if (if l == line && s > rank then s - 1 else s) < Mirrors(t, l) then now
      else was
    }

    function LineText(t: nat, l: nat, was: string, now: string): string
      requires Valid() && t <= |rows| && l < |gaps|
    {
      Render(gaps[l], Words(t, l, was, now))
    }

    /** The recorded column of mirror `j` then: handled mirrors stand where they belong with the new word, the
        others have moved by the handled mirrors of their line. */
    function Column(t: nat, j: nat, was: nat, now: nat): int
      requires Valid() && t <= |rows| && j < |rows|
    {
      SlotExists(j);
      1 + GapLength(gaps[rows[j]], Slot(j))
        + if j < t then now * Slot(j) else was * Slot(j) + (now - was) * Mirrors(t, rows[j])
    }

    function StartColumn(t: nat, was: nat, now: nat): int
      requires Valid() && t <= |rows|
    {
      var c := Mirrors(t, line);
      GapLength(gaps[line], rank) + was * rank + (now - was) * if c < rank then c else rank
    }

    /** The text and the positions half-way through an update from `was` to `now`: the first `t` mirrors are
        handled. */
    function Stage(t: nat, was: string, now: string): (r: Text)
      requires Valid() && t <= |rows|
      ensures LinesExist(r) && |r.marks.vars| == |rows|
    {
      Text(seq(|gaps|, l requires 0 <= l < |gaps| => LineText(t, l, was, now)), StageMarks(t, |was|, |now|))
    }

    function StageMarks(t: nat, was: nat, now: nat): (r: Marks)
      requires Valid() && t <= |rows|
      ensures |r.vars| == |rows|
      ensures forall j | 0 <= j < |rows| :: r.vars[j] == Position(rows[j], Column(t, j, was, now))
    {
      Marks(seq(|rows|, j requires 0 <= j < |rows| => Position(rows[j], Column(t, j, was, now))),
            StartColumn(t, was, now))
    }

    /** Text and positions in step: every slot holds `word`, and every position is that of its slot. */
    function InStep(word: string): (r: Text)
      requires Valid()
      ensures LinesExist(r) && |r.marks.vars| == |rows| && |r.lines| == |gaps|
    {
      Text(seq(|gaps|, l requires 0 <= l < |gaps| => Render(gaps[l], Same(l, word))),
           Marks(seq(|rows|, j requires 0 <= j < |rows| => Position(rows[j], TrueColumn(j, word) + 1)),
                 |Before(gaps[line], Same(line, word), rank)|))
    }

    function Same(l: nat, word: string): (r: seq<string>)
      requires Valid() && l < |gaps|
      ensures |r| == Slots(l)
    {
      seq(Slots(l), s => word)
    }

    function TrueColumn(j: nat, word: string): nat
      requires Valid() && j < |rows|
    {
      SlotExists(j);
      |Before(gaps[rows[j]], Same(rows[j], word), Slot(j))|
    }

    /** No two words of length `was` touch in a way the script cannot tell apart: only the gap right behind the
        placeholder may be empty, unless the words themselves are not. */
    predicate Separated(was: nat)
      requires Valid()
    {
      was > 0 || forall l, g | 0 <= l < |gaps| && 1 <= g < Slots(l) && !(l == line && g == rank + 1) :: gaps[l][g] != ""
    }
  }

  /** A key stroke replaces the word in the placeholder. */
  function Typed(t: Text, line: nat, was: string, now: string): Text {
    if line < |t.lines| then
      t.(lines := t.lines[line := SubstituteAt(t.lines[line], t.marks.startCol + 1, was, now)])
    else t
  }

  /** The effect of one key stroke: the new word appears in the placeholder, and `s:UpdateVars` runs. */
  function Stroke(t: Text, line: nat, was: string, now: string): (r: Text)
    requires LinesExist(t)
    ensures LinesExist(r)
  {
    var typed := Typed(t, line, was, now);
    if was == now then typed else ProcessFrom(typed, 0, line, was, now)
  }

  lemma WordsInStep(plan: Layout, l: nat, was: string, now: string)
    requires plan.Valid() && l < |plan.gaps|
    ensures plan.Words(|plan.rows|, l, was, now) == plan.Same(l, now)
    ensures l != plan.line ==> plan.Words(0, l, was, now) == plan.Same(l, was)
    ensures l == plan.line ==>
              plan.rank < plan.Slots(l) && plan.Words(0, l, was, now) == plan.Same(l, was)[plan.rank := now]
  {
  }

  lemma ColumnsInStep(plan: Layout, was: nat, word: string)
    requires plan.Valid()
    ensures forall j | 0 <= j < |plan.rows| ::
      plan.Column(|plan.rows|, j, was, |word|) == plan.TrueColumn(j, word) + 1 == plan.Column(0, j, |word|, was)
    ensures plan.StartColumn(|plan.rows|, was, |word|)
         == |Before(plan.gaps[plan.line], plan.Same(plan.line, word), plan.rank)|
    ensures plan.StartColumn(0, |word|, was) == plan.StartColumn(|plan.rows|, was, |word|)
  {
    forall j | 0 <= j < |plan.rows|
      ensures plan.Column(|plan.rows|, j, was, |word|) == plan.TrueColumn(j, word) + 1 == plan.Column(0, j, |word|, was)
    {
      plan.SlotExists(j);
      BeforeLength(plan.gaps[plan.rows[j]], plan.Same(plan.rows[j], word), plan.Slot(j), |word|);
    }
    BeforeLength(plan.gaps[plan.line], plan.Same(plan.line, word), plan.rank, |word|);
    Distribute(was, |word|, plan.rank);
  }

  lemma Distribute(was: nat, now: nat, c: nat)
    ensures was * c + (now - was) * c == now * c
    ensures (now - was) * (c + 1) == (now - was) * c + now - was
    ensures was * (c + 1) == was * c + was
    ensures now * (c + 1) == now * c + now
  {
  }

  /** When every mirror is handled, text and positions are in step with the new word. */
  lemma LastStage(plan: Layout, was: string, now: string)
    requires plan.Valid()
    ensures plan.Stage(|plan.rows|, was, now) == plan.InStep(now)
  {
    forall l | 0 <= l < |plan.gaps|
      ensures plan.LineText(|plan.rows|, l, was, now) == Render(plan.gaps[l], plan.Same(l, now))
    {
      WordsInStep(plan, l, was, now);
    }
    ColumnsInStep(plan, |was|, now);
    var a, b := plan.Stage(|plan.rows|, was, now), plan.InStep(now);
    assert a.lines == b.lines;
    assert a.marks.vars == b.marks.vars;
  }

  lemma FirstStageLines(plan: Layout, was: string, now: string)
    requires plan.Valid()
    ensures |Typed(plan.InStep(was), plan.line, was, now).lines| == |plan.gaps|
    ensures forall l | 0 <= l < |plan.gaps| ::
              plan.LineText(0, l, was, now) == Typed(plan.InStep(was), plan.line, was, now).lines[l]
  {
    hide SubstituteAt;
    forall l | 0 <= l < |plan.gaps|
      ensures plan.LineText(0, l, was, now) == Typed(plan.InStep(was), plan.line, was, now).lines[l]
    {
      WordsInStep(plan, l, was, now);
      if l == plan.line {
        SubstituteSlot(plan.gaps[l], plan.Same(l, was), plan.rank, now);
      }
    }
  }

  /** Typing into the placeholder of a text in step gives the text an update starts from. */
  lemma FirstStage(plan: Layout, was: string, now: string)
    requires plan.Valid()
    ensures Typed(plan.InStep(was), plan.line, was, now) == plan.Stage(0, was, now)
  {
    hide SubstituteAt, Layout.Valid;
    var a, b := plan.Stage(0, was, now), Typed(plan.InStep(was), plan.line, was, now);
    FirstStageLines(plan, was, now);
    assert a.lines == b.lines;
    ColumnsInStep(plan, |now|, was);
    assert a.marks.vars == b.marks.vars;
  }

  /** In step, each recorded position is that of a copy of the word, and so is `s:startCol`. */
  lemma PositionsAddressTheWord(plan: Layout, word: string)
    requires plan.Valid()
    ensures forall j | 0 <= j < |plan.rows| ::
      && 1 <= plan.InStep(word).marks.vars[j].col
      && Session.StrPart(plan.InStep(word).lines[plan.rows[j]], plan.InStep(word).marks.vars[j].col - 1, |word|) == word
    ensures Session.StrPart(plan.InStep(word).lines[plan.line], plan.InStep(word).marks.startCol, |word|) == word
  {
    forall j | 0 <= j < |plan.rows|
      ensures 1 <= plan.InStep(word).marks.vars[j].col
      ensures Session.StrPart(plan.InStep(word).lines[plan.rows[j]], plan.InStep(word).marks.vars[j].col - 1, |word|)
           == word
    {
      plan.SlotExists(j);
      WordInSlot(plan.gaps[plan.rows[j]], plan.Same(plan.rows[j], word), plan.Slot(j));
    }
    WordInSlot(plan.gaps[plan.line], plan.Same(plan.line, word), plan.rank);
  }

  lemma WordInSlot(gaps: seq<string>, words: seq<string>, s: nat)
    requires |gaps| == |words| + 1 && s < |words|
    ensures Session.StrPart(Render(gaps, words), |Before(gaps, words, s)|, |words[s]|) == words[s]
  {
    RenderAt(gaps, words, s);
    var a, b := Before(gaps, words, s), Behind(gaps, words, s);
    assert (a + words[s] + b)[|a|..|a| + |words[s]|] == words[s];
  }
}
