/** A run of typing into a placeholder: when the snippet stays in step, exactly, and what the script's
    bookkeeping of columns and line lengths does on the way. */
module SnippetTyping {
  import opened SnippetText
  import opened Snippets
  import opened SnippetLayouts
  import opened SnippetTheorems
  import opened SnippetDrift

  /** An update is right exactly when the places of the word are separated. */
  lemma UpdateKeepsStepIff(plan: Layout, was: string, now: string)
    requires plan.Valid() && was != now
    ensures ProcessFrom(Typed(plan.InStep(was), plan.line, was, now), 0, plan.line, was, now) == plan.InStep(now)
       <==> plan.Separated(|was|)
  {
    hide ProcessFrom, Layout.InStep, Layout.Stage, Typed, Layout.Valid;
    FirstStage(plan, was, now);
    if plan.Separated(|was|) {
      UpdateFrom(plan, 0, was, now);
    } else {
      assert was == "";
      UpdateDrifts(plan, now);
    }
  }

  lemma SubstituteSame(line: string, col: int, word: string)
    ensures SubstituteAt(line, col, word, word) == line
  {
  }

  /** A key stroke keeps the snippet in step exactly when it leaves the word as it was or the places of the old
      word are separated. */
  lemma StrokeKeepsStepIff(plan: Layout, was: string, now: string)
    requires plan.Valid()
    ensures Stroke(plan.InStep(was), plan.line, was, now) == plan.InStep(now) <==> was == now || plan.Separated(|was|)
  {
    hide ProcessFrom, Layout.InStep, Layout.Separated;
    if was == now {
      var t := plan.InStep(was);
      SubstituteSame(t.lines[plan.line], t.marks.startCol + 1, was);
      assert Typed(t, plan.line, was, was).lines == t.lines;
    } else {
      hide Typed;
      UpdateKeepsStepIff(plan, was, now);
    }
  }

  // ----- Runs

  /** The placeholder holds `words[0]` at first, and then one after the other of `words`. */
  function Typing(plan: Layout, words: seq<string>): (r: Text)
    requires plan.Valid() && words != []
    ensures LinesExist(r)
    decreases |words|
  {
    var n := |words| - 1;
    if n == 0 then plan.InStep(words[0]) else Stroke(Typing(plan, words[..n]), plan.line, words[n - 1], words[n])
  }

  /** The snippet is in step after every word of the run. */
  predicate AlwaysInStep(plan: Layout, words: seq<string>)
    requires plan.Valid()
  {
    forall k | 1 <= k <= |words| :: Typing(plan, words[..k]) == plan.InStep(words[k - 1])
  }

  /** A run of typing keeps the snippet in step all the way exactly when every word that is changed has separated
      places. */
  lemma {:induction false} TypingKeepsStepIff(plan: Layout, words: seq<string>)
    requires plan.Valid() && words != []
    ensures AlwaysInStep(plan, words)
       <==> forall i | 0 <= i < |words| - 1 :: words[i] == words[i + 1] || plan.Separated(|words[i]|)
    decreases |words|
  {
    hide Stroke, Layout.InStep, Layout.Separated, Layout.Valid;
    var n := |words| - 1;
    if n > 0 {
      TypingKeepsStepIff(plan, words[..n]);
      LastWord(plan, words);
      StrokeKeepsStepIff(plan, words[n - 1], words[n]);
      assert words[..n + 1] == words && words[..n][..n] == words[..n];
    } else {
      assert words[..1] == words;
    }
  }

  lemma LastWord(plan: Layout, words: seq<string>)
    requires plan.Valid() && |words| > 1
    ensures var n := |words| - 1;
      AlwaysInStep(plan, words) <==> AlwaysInStep(plan, words[..n]) && Typing(plan, words) == plan.InStep(words[n])
  {
    hide Typing, Layout.InStep, Layout.Valid;
    var n := |words| - 1;
    assert words[..n + 1] == words;
    assert forall k | 1 <= k <= n :: words[..n][..k] == words[..k];
  }

  // ----- A key stroke on a running session

  lemma TypedWordIsNew(plan: Layout, was: string, now: string)
    requires plan.Valid()
    ensures plan.line < |Typed(plan.InStep(was), plan.line, was, now).lines|
    ensures var t := Typed(plan.InStep(was), plan.line, was, now);
      Session.StrPart(t.lines[plan.line], t.marks.startCol, |now|) == now
  {
    var words := plan.Same(plan.line, was);
    SubstituteSlot(plan.gaps[plan.line], words, plan.rank, now);
    WordInSlot(plan.gaps[plan.line], words[plan.rank := now], plan.rank);
    BehindUpdate(plan.gaps[plan.line], words, plan.rank, now);
  }

  lemma TypedLength(plan: Layout, was: string, now: string)
    requires plan.Valid()
    ensures var t, u := plan.InStep(was), Typed(plan.InStep(was), plan.line, was, now);
      && u.marks == t.marks && |u.lines[plan.line]| == |t.lines[plan.line]| + |now| - |was|
      && 0 <= t.marks.startCol && t.marks.startCol + |was| <= |t.lines[plan.line]|
  {
    var words := plan.Same(plan.line, was);
    SubstituteSlot(plan.gaps[plan.line], words, plan.rank, now);
    RenderAt(plan.gaps[plan.line], words, plan.rank);
  }

  /** What the script knows between two key strokes: the columns of the placeholder and the length of its line.
      An end of -1 means that the end is not known, as after the placeholder was selected; but it is also the
      true end of an empty placeholder at the start of its line. */
  predicate Tracking(s: Session, plan: Layout)
    requires plan.Valid()
    reads s
  {
    && s.active && s.curLine == s.snipLine == plan.line && s.Current() == plan.InStep(s.oldWord)
    && s.wordLen == |s.oldWord|
    && (s.endCol == -1 || (s.endCol - s.startCol + 1 == |s.oldWord| && s.prevLen == |s.lines[s.curLine]| + 1))
  }

  /** Selecting the placeholder of a text in step starts the tracking. */
  method Select(s: Session, placeholderCol: int, ghost word: string, ghost plan: Layout)
    requires plan.Valid() && plan.rows != [] && s.active && s.curLine == s.snipLine == plan.line
    requires s.lines == plan.InStep(word).lines && s.vars == plan.InStep(word).marks.vars
    requires s.wordLen == |word| && placeholderCol == plan.InStep(word).marks.startCol + 1
    modifies s
    ensures Tracking(s, plan) && s.oldWord == word
  {
    hide Layout.InStep, Session.StrPart;
    PositionsAddressTheWord(plan, word);
    s.SelectWord(placeholderCol);
  }

  lemma TypedPart(plan: Layout, was: string, now: string, offset: nat)
    requires plan.Valid() && offset <= |now|
    ensures plan.line < |Typed(plan.InStep(was), plan.line, was, now).lines|
    ensures var t := Typed(plan.InStep(was), plan.line, was, now);
      && Session.StrPart(t.lines[plan.line], t.marks.startCol, |now|) == now
      && Session.StrPart(t.lines[plan.line], t.marks.startCol, offset) == now[..offset]
  {
    hide Layout.InStep, Typed, Layout.Valid;
    TypedWordIsNew(plan, was, now);
    TypedLength(plan, was, now);
    var t := Typed(plan.InStep(was), plan.line, was, now);
    PartOf(t.lines[plan.line], t.marks.startCol, now, offset);
  }

  lemma PartOf(line: string, start: int, word: string, offset: nat)
    requires Session.StrPart(line, start, |word|) == word && 0 <= start && start + |word| <= |line| && offset <= |word|
    ensures Session.StrPart(line, start, offset) == word[..offset]
  {
    assert line[start..start + |word|][..offset] == line[start..start + offset];
  }

  /** What `s:UpdateVars` makes of a text into which the user typed `now`, when it takes `word` to be the new word. */
  function Update(plan: Layout, was: string, now: string, word: string): Text
    requires plan.Valid()
  {
    var typed := Typed(plan.InStep(was), plan.line, was, now);
    if word == was then typed else ProcessFrom(typed, 0, plan.line, was, word)
  }

  /** A key stroke: the user changes the word in the placeholder and leaves the cursor in or right behind it, and
      `s:UpdateChangedSnip` runs. It never gives the snippet up. From the length of the line it finds the whole
      new word; but when it does not know the end, it takes the word to end at the cursor. The snippet stays in
      step exactly when it took the whole word and that word was the old one or the places of the old one are
      separated. */
  method Type(s: Session, now: string, offset: nat, entering: bool, ghost plan: Layout)
    requires plan.Valid() && plan.rows != [] && Tracking(s, plan) && offset <= |now|
    modifies s
    ensures s.active && s.curLine == plan.line < |s.lines| && s.wordLen == |s.oldWord|
    ensures s.cursorCol == s.startCol + offset + 1
    ensures old(s.endCol == -1) && entering ==>
              && s.endCol == -1 && s.oldWord == old(s.oldWord)
              && s.Current() == Typed(plan.InStep(old(s.oldWord)), plan.line, old(s.oldWord), now)
    ensures !(old(s.endCol == -1) && entering) ==>
              && s.oldWord == (if old(s.endCol) == -1 then now[..offset] else now)
              && s.endCol - s.startCol + 1 == |s.oldWord| && s.prevLen == |s.lines[s.curLine]| + 1
              && s.Current() == Update(plan, old(s.oldWord), now, s.oldWord)
              && (s.oldWord == now <==> old(s.endCol) != -1 || offset == |now|)
              && (Tracking(s, plan) && s.oldWord == now
                  <==> (old(s.endCol) != -1 || offset == |now|)
                       && (old(s.oldWord) == now || plan.Separated(|old(s.oldWord)|)))
  {
    hide ProcessFrom, SubstituteAt, Layout.InStep, Session.StrPart, Layout.Separated, Layout.Valid;
    ghost var was := s.oldWord;
    TypedPart(plan, was, now, offset);
    TypedLength(plan, was, now);
    StrokeKeepsStepIff(plan, was, now);
    s.lines := s.lines[s.curLine := SubstituteAt(s.lines[s.curLine], s.startCol + 1, s.oldWord, now)];
    s.cursorCol := s.startCol + offset + 1;
    s.UpdateChangedSnip(entering);
  }

  /** The cursor moves to another place without a change of text, and `s:UpdateChangedSnip` runs: the snippet goes
      on exactly when the cursor is on the line of the placeholder, no further left than its start, and no further
      right than its end, if that is known. With a known end nothing else happens. */
  method Move(s: Session, line: nat, column: nat, entering: bool, ghost plan: Layout)
    requires plan.Valid() && plan.rows != [] && Tracking(s, plan)
    requires line < |s.lines| && column <= |s.lines[line]|
    modifies s
    ensures old(s.endCol) == -1 && entering ==> s.active && s.Current() == old(s.Current())
    ensures old(s.endCol) == -1 && !entering ==> (s.active <==> line == plan.line && old(s.startCol) <= column)
    ensures old(s.endCol) != -1 ==>
              && (s.active <==> line == plan.line
                                && old(s.startCol) <= column <= old(s.startCol) + |old(s.oldWord)|)
              && s.Current() == old(s.Current()) && s.oldWord == old(s.oldWord)
              && (s.active ==> Tracking(s, plan) && s.endCol == old(s.endCol) && s.cursorCol == column + 1)
  {
    hide ProcessFrom, Layout.InStep, Session.StrPart, Layout.Valid;
    ghost var word := s.oldWord;
    SelectedWord(plan, word);
    s.curLine := line;
    s.cursorCol := column + 1;
    s.UpdateChangedSnip(entering);
  }

  lemma SelectedWord(plan: Layout, word: string)
    requires plan.Valid()
    ensures var t := plan.InStep(word);
      && Session.StrPart(t.lines[plan.line], t.marks.startCol, |word|) == word
      && 0 <= t.marks.startCol && t.marks.startCol + |word| <= |t.lines[plan.line]|
  {
    hide Layout.InStep, Session.StrPart;
    PositionsAddressTheWord(plan, word);
    TypedLength(plan, word, word);
  }

  /** A placeholder at the start of its line. */
  lemma AtLineStart(plan: Layout, word: string)
    requires plan.Valid() && plan.rank == 0
    ensures plan.InStep(word).marks.startCol == |plan.gaps[plan.line][0]|
  {
  }

  /** The two meanings of -1 meet: a placeholder at the start of its line is emptied, in step, and then a word is
      inserted that the cursor ends up inside. The script records and copies only the part before the cursor, and
      the snippet is out of step. */
  method EmptyThenInsert(s: Session, now: string, offset: nat, ghost plan: Layout)
    requires plan.Valid() && plan.rows != [] && plan.rank == 0 && plan.gaps[plan.line][0] == ""
    requires Tracking(s, plan) && (s.oldWord == "" || plan.Separated(|s.oldWord|))
    requires offset < |now|
    modifies s
    ensures s.active && s.oldWord == now[..offset]
    ensures s.Current() == Update(plan, "", now, now[..offset])
    ensures !(Tracking(s, plan) && s.oldWord == now)
  {
    hide Layout.InStep, Layout.Separated, Update, Typed;
    Type(s, "", 0, false, plan);
    AtLineStart(plan, "");
    assert s.endCol == -1;
    Type(s, now, offset, false, plan);
  }
}
