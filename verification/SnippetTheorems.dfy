/** When an update keeps a snippet in step, exactly. */
module SnippetTheorems {
  import opened SnippetText
  import opened Snippets
  import opened SnippetLayouts

  // ----- One mirror: the text

  /** The words before the slot of mirror `t` are the new one, and the slot itself holds the old one. */
  lemma WordsAtMirror(plan: Layout, t: nat, was: string, now: string)
    requires plan.Valid() && t < |plan.rows|
    ensures var l := plan.rows[t];
      && plan.Slot(t) < plan.Slots(l)
      && plan.Words(t, l, was, now)[plan.Slot(t)] == was
      && (forall s | 0 <= s < plan.Slot(t) :: plan.Words(t, l, was, now)[s] == now)
      && plan.Words(t + 1, l, was, now) == plan.Words(t, l, was, now)[plan.Slot(t) := now]
    ensures forall l | 0 <= l < |plan.gaps| && l != plan.rows[t] ::
              plan.Words(t + 1, l, was, now) == plan.Words(t, l, was, now)
  {
    plan.SlotExists(t);
  }

  lemma LineAfterMirror(plan: Layout, t: nat, was: string, now: string)
    requires plan.Valid() && t < |plan.rows|
    ensures var l := plan.rows[t];
      plan.LineText(t + 1, l, was, now)
        == SubstituteAt(plan.LineText(t, l, was, now), plan.Column(t + 1, t, |was|, |now|), was, now)
    ensures forall l | 0 <= l < |plan.gaps| && l != plan.rows[t] ::
              plan.LineText(t + 1, l, was, now) == plan.LineText(t, l, was, now)
  {
    hide SubstituteAt, Layout.Words;
    var l := plan.rows[t];
    var words, s := plan.Words(t, l, was, now), plan.Slot(t);
    WordsAtMirror(plan, t, was, now);
    BeforeLength(plan.gaps[l], words, s, |now|);
    SubstituteSlot(plan.gaps[l], words, s, now);
    assert plan.Column(t + 1, t, |was|, |now|) == |Before(plan.gaps[l], words, s)| + 1;
  }

  lemma LinesAfterMirror(plan: Layout, t: nat, was: string, now: string)
    requires plan.Valid() && t < |plan.rows|
    ensures plan.Stage(t + 1, was, now).lines ==
      var l, lines := plan.rows[t], plan.Stage(t, was, now).lines;
      lines[l := SubstituteAt(lines[l], plan.Column(t + 1, t, |was|, |now|), was, now)]
  {
    hide SubstituteAt, Layout.LineText, Layout.Column, Layout.StageMarks;
    LineAfterMirror(plan, t, was, now);
    var l, lines := plan.rows[t], plan.Stage(t, was, now).lines;
    assert plan.Stage(t + 1, was, now).lines
      == lines[l := SubstituteAt(lines[l], plan.Column(t + 1, t, |was|, |now|), was, now)];
  }

  // ----- One mirror: the positions

  lemma GapsBetween(plan: Layout, l: nat, s: nat, r: nat, was: nat)
    requires plan.Valid() && plan.Separated(was) && l < |plan.gaps| && s < r < plan.Slots(l)
    requires l == plan.line && s == plan.rank ==> s + 1 < r
    ensures GapLength(plan.gaps[l], s) + was * s < GapLength(plan.gaps[l], r) + was * r
  {
    GapsAhead(plan.gaps[l], s, r);
    WordsBetween(was, s, r);
    if was == 0 {
      var g := if l == plan.line && s == plan.rank then s + 2 else s + 1;
      assert plan.gaps[l][g] != "";
    }
  }

  lemma WordsBetween(was: nat, s: nat, r: nat)
    requires s < r
    ensures was * s <= was * r && (was > 0 ==> was * s < was * r)
  {
    assert was * (s + (r - s)) == was * s + was * (r - s);
    assert was > 0 ==> was * (r - s) >= 1;
  }

  /** Later mirrors on a line have later recorded columns. */
  lemma LaterMirrorBehind(plan: Layout, t: nat, j: nat, was: nat, now: nat)
    requires plan.Valid() && plan.Separated(was) && t < j < |plan.rows| && plan.rows[j] == plan.rows[t]
    ensures plan.Column(t, j, was, now) > plan.Column(t, t, was, now)
  {
    plan.MirrorsGrow(t, j, plan.rows[t]);
    plan.SlotExists(t);
    plan.SlotExists(j);
    GapsBetween(plan, plan.rows[t], plan.Slot(t), plan.Slot(j), was);
  }

  /** A mirror is recognised as standing before the placeholder exactly when it does. */
  lemma MirrorBeforePlaceholder(plan: Layout, t: nat, was: nat, now: nat)
    requires plan.Valid() && plan.Separated(was) && t < |plan.rows| && plan.rows[t] == plan.line
    ensures plan.Column(t, t, was, now) <= plan.StartColumn(t, was, now) <==> plan.Mirrors(t, plan.line) < plan.rank
  {
    var c, s := plan.Mirrors(t, plan.line), plan.Slot(t);
    plan.SlotExists(t);
    if c < plan.rank {
      GapsBetween(plan, plan.line, s, plan.rank, was);
    } else {
      GapsAhead(plan.gaps[plan.line], plan.rank, s);
      MoveApart(was, now, plan.rank, c);
    }
  }

  lemma MoveApart(was: nat, now: nat, rank: nat, c: nat)
    requires rank <= c
    ensures was * rank + (now - was) * rank <= was * (c + 1) + (now - was) * c
  {
    var apart := c - rank;
    assert now * (rank + apart) == now * rank + now * apart;
    assert was * rank + (now - was) * rank == now * rank;
    assert was * c + (now - was) * c == now * c;
    assert was * (c + 1) == was * c + was;
  }

  lemma ColumnAfterOwnStep(plan: Layout, t: nat, was: nat, now: nat)
    requires plan.Valid() && t < |plan.rows|
    ensures plan.Column(t + 1, t, was, now) == plan.Column(t, t, was, now) +
      if plan.rows[t] == plan.line && plan.Mirrors(t, plan.line) >= plan.rank then now - was else 0
  {
    Distribute(was, now, plan.Mirrors(t, plan.rows[t]));
    plan.SlotExists(t);
  }

  lemma ColumnAfterStep(plan: Layout, t: nat, j: nat, was: nat, now: nat)
    requires plan.Valid() && t < |plan.rows| && j < |plan.rows| && j != t
    ensures plan.Column(t + 1, j, was, now) == plan.Column(t, j, was, now) +
      if j > t && plan.rows[j] == plan.rows[t] then now - was else 0
  {
    Distribute(was, now, plan.Mirrors(t, plan.rows[t]));
  }

  lemma StartAfterStep(plan: Layout, t: nat, was: nat, now: nat)
    requires plan.Valid() && t < |plan.rows|
    ensures plan.StartColumn(t + 1, was, now) == plan.StartColumn(t, was, now) +
      if plan.rows[t] == plan.line && plan.Mirrors(t, plan.line) < plan.rank then now - was else 0
  {
    Distribute(was, now, plan.Mirrors(t, plan.line));
  }

  lemma PositionsAfterMirror(plan: Layout, t: nat, was: nat, now: nat)
    requires plan.Valid() && plan.Separated(was) && t < |plan.rows|
    ensures AfterVar(plan.StageMarks(t, was, now), t, plan.line, was - now) == plan.StageMarks(t + 1, was, now)
  {
    hide Layout.Column, Layout.StartColumn, Layout.Separated;
    var m := plan.StageMarks(t, was, now);
    var r := AfterVar(m, t, plan.line, was - now);
    StartAfterStep(plan, t, was, now);
    ColumnAfterOwnStep(plan, t, was, now);
    if plan.rows[t] == plan.line {
      MirrorBeforePlaceholder(plan, t, was, now);
    }
    forall j | 0 <= j < |plan.rows| ensures r.vars[j] == Position(plan.rows[j], plan.Column(t + 1, j, was, now)) {
      if j != t {
        ColumnAfterStep(plan, t, j, was, now);
        if j > t && plan.rows[j] == plan.rows[t] {
          LaterMirrorBehind(plan, t, j, was, now);
          assert Reached(m.vars, t, j, plan.rows[t]);
        }
      }
    }
    assert r.vars == plan.StageMarks(t + 1, was, now).vars;
  }

  // ----- A whole update

  lemma AfterVarUnchanged(m: Marks, i: nat, curLine: nat)
    requires i < |m.vars|
    ensures AfterVar(m, i, curLine, 0) == m
  {
    assert AfterVar(m, i, curLine, 0).vars == m.vars;
  }

  lemma StageAfterMirror(plan: Layout, t: nat, was: string, now: string)
    requires plan.Valid() && plan.Separated(|was|) && t < |plan.rows|
    ensures ProcessOne(plan.Stage(t, was, now), t, plan.line, was, now) == plan.Stage(t + 1, was, now)
  {
    hide SubstituteAt, AfterVar, Layout.Separated, Layout.Valid, Layout.StageMarks, Layout.LineText;
    PositionsAfterMirror(plan, t, |was|, |now|);
    AfterVarUnchanged(plan.StageMarks(t, |was|, |now|), t, plan.line);
    LinesAfterMirror(plan, t, was, now);
  }

  lemma {:induction false} UpdateFrom(plan: Layout, t: nat, was: string, now: string)
    requires plan.Valid() && plan.Separated(|was|) && t <= |plan.rows|
    ensures ProcessFrom(plan.Stage(t, was, now), t, plan.line, was, now) == plan.InStep(now)
    decreases |plan.rows| - t
  {
    hide Layout.Separated, Layout.Valid, Layout.Stage, Layout.InStep, ProcessOne;
    if t == |plan.rows| {
      LastStage(plan, was, now);
    } else {
      StageAfterMirror(plan, t, was, now);
      UpdateFrom(plan, t + 1, was, now);
    }
  }
}
