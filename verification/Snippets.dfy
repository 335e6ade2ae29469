/** Mirrored placeholders of a snippet: while a word is typed into the placeholder, the script replaces its
    mirrors and moves the recorded positions along. */
module Snippets {
  import opened SnippetText

  /** An entry of `g:snipPos[s:curPos][3]`: a line, counted from zero here, and a byte column counted from one. */
  datatype Position = Position(lnum: nat, col: int)

  /** The recorded positions of the mirrors, and `s:startCol`, the column of the placeholder counted from zero. */
  datatype Marks = Marks(vars: seq<Position>, startCol: int)

  datatype Text = Text(lines: seq<string>, marks: Marks)

  // ----- One round of the loop of `s:UpdateVars`

  /** The loop over the positions from `i` on reaches position `j`: it stops at the first one on a later line. */
  predicate Reached(vars: seq<Position>, i: nat, j: nat, lnum: nat)
    requires j < |vars|
  {
    i <= j && forall k | i <= k <= j :: vars[k].lnum <= lnum
  }

  /** The positions that loop leaves: those reached on line `lnum` behind `col` moved by the change of length. */
  function ShiftFollowing(vars: seq<Position>, i: nat, lnum: nat, col: int, changeLen: int): (r: seq<Position>)
    ensures |r| == |vars|
    ensures forall j | 0 <= j < |vars| :: r[j] == ShiftedOne(vars, j, i, lnum, col, changeLen)
  {
    seq(|vars|, j requires 0 <= j < |vars| => ShiftedOne(vars, j, i, lnum, col, changeLen))
  }

  function ShiftedOne(vars: seq<Position>, j: nat, i: nat, lnum: nat, col: int, changeLen: int): Position
    requires j < |vars|
  {
    var p := vars[j];
    if p.lnum == lnum && p.col > col && Reached(vars, i, j, lnum) then Position(p.lnum, p.col - changeLen) else p
  }

  /** The recorded positions after mirror `i` was handled. */
  function AfterVar(m: Marks, i: nat, curLine: nat, changeLen: int): (r: Marks)
    requires i < |m.vars|
    ensures |r.vars| == |m.vars|
    ensures forall j | 0 <= j < |m.vars| :: r.vars[j].lnum == m.vars[j].lnum
  {
    var Position(lnum, col) := m.vars[i];
    var startCol := if lnum == curLine && col <= m.startCol then m.startCol - changeLen else m.startCol;
    var shifted := ShiftFollowing(m.vars, i, lnum, col, changeLen);
    Marks(if lnum == curLine && col > m.startCol then shifted[i := Position(lnum, col - changeLen)] else shifted,
          startCol)
  }

  predicate LinesExist(t: Text) {
    forall j | 0 <= j < |t.marks.vars| :: t.marks.vars[j].lnum < |t.lines|
  }

  function ProcessOne(t: Text, i: nat, curLine: nat, oldWord: string, newWord: string): (r: Text)
    requires i < |t.marks.vars| && LinesExist(t)
    ensures |r.lines| == |t.lines| && |r.marks.vars| == |t.marks.vars| && LinesExist(r)
  {
    var changeLen := |oldWord| - |newWord|;
    var marks := if changeLen != 0 then AfterVar(t.marks, i, curLine, changeLen) else t.marks;
    var Position(lnum, col) := marks.vars[i];
    Text(t.lines[lnum := SubstituteAt(t.lines[lnum], col, oldWord, newWord)], marks)
  }

  function ProcessFrom(t: Text, i: nat, curLine: nat, oldWord: string, newWord: string): (r: Text)
    requires i <= |t.marks.vars| && LinesExist(t)
    ensures |r.lines| == |t.lines| && |r.marks.vars| == |t.marks.vars| && LinesExist(r)
    decreases |t.marks.vars| - i
  {
    if i == |t.marks.vars| then t
    else ProcessFrom(ProcessOne(t, i, curLine, oldWord, newWord), i + 1, curLine, oldWord, newWord)
  }

  // ----- What one round does, in the terms of the script

  /** The text: on the line of the mirror the old word at its new column, if it is there, is replaced; a line
      without the old word at that column stays, and so do all other lines. */
  lemma MirrorText(t: Text, i: nat, curLine: nat, oldWord: string, newWord: string)
    requires i < |t.marks.vars| && LinesExist(t)
    ensures var r := ProcessOne(t, i, curLine, oldWord, newWord);
            var lnum, from := t.marks.vars[i].lnum, r.marks.vars[i].col - 1;
            var line, to := t.lines[lnum], from + |oldWord|;
            && (forall l | 0 <= l < |t.lines| && l != lnum :: r.lines[l] == t.lines[l])
            && (0 <= from && to <= |line| && line[from..to] == oldWord ==>
                  r.lines[lnum] == line[..from] + newWord + line[to..])
            && (!(0 <= from && to <= |line| && line[from..to] == oldWord) ==> r.lines == t.lines)
  {
    hide AfterVar;
  }

  /** The positions: a mirror before the placeholder on its line moves the placeholder, the later mirrors of the
      line behind it move, up to the first one recorded on a later line, and a mirror behind the placeholder
      moves itself. Words of one length move nothing. */
  lemma MirrorPositions(t: Text, i: nat, curLine: nat, oldWord: string, newWord: string)
    requires i < |t.marks.vars| && LinesExist(t)
    ensures var r := ProcessOne(t, i, curLine, oldWord, newWord).marks;
            var vars, start, grown := t.marks.vars, t.marks.startCol, |newWord| - |oldWord|;
            var here := vars[i];
            && (grown == 0 ==> r == t.marks)
            && r.startCol == start + (if here.lnum == curLine && here.col <= start then grown else 0)
            && r.vars[i].lnum == here.lnum
            && r.vars[i].col == here.col + (if here.lnum == curLine && here.col > start then grown else 0)
            && (forall j | 0 <= j < i :: r.vars[j] == vars[j])
            && (forall j | i < j < |vars| && (vars[j].lnum != here.lnum || vars[j].col <= here.col) ::
                  r.vars[j] == vars[j])
            && (forall j, k | i < k < j < |vars| && vars[k].lnum > here.lnum :: r.vars[j] == vars[j])
            && (forall j | i < j < |vars| && vars[j].lnum == here.lnum && vars[j].col > here.col
                           && (forall k | i < k < j :: vars[k].lnum <= here.lnum) ::
                  r.vars[j] == Position(here.lnum, vars[j].col + grown))
  {
    hide SubstituteAt;
    var vars, here, changeLen := t.marks.vars, t.marks.vars[i], |oldWord| - |newWord|;
    if changeLen != 0 {
      var shifted := ShiftFollowing(vars, i, here.lnum, here.col, changeLen);
      assert shifted[i] == here;
      forall j | i < j < |vars| && vars[j].lnum == here.lnum && vars[j].col > here.col
                 && forall k | i < k < j :: vars[k].lnum <= here.lnum
        ensures shifted[j] == Position(here.lnum, vars[j].col - changeLen)
      {
        assert Reached(vars, i, j, here.lnum);
      }
    }
  }

  /** A whole update is a round for every mirror, in order, whatever the rounds find. */
  lemma {:induction false} UpdateTrace(t: Text, i: nat, curLine: nat, oldWord: string, newWord: string)
    returns (trace: seq<Text>)
    requires i <= |t.marks.vars| && LinesExist(t)
    ensures |trace| == |t.marks.vars| - i + 1 && trace[0] == t
    ensures forall k | 0 <= k < |trace| :: LinesExist(trace[k]) && |trace[k].marks.vars| == |t.marks.vars|
    ensures forall k | 0 <= k < |trace| - 1 :: trace[k + 1] == ProcessOne(trace[k], i + k, curLine, oldWord, newWord)
    ensures trace[|trace| - 1] == ProcessFrom(t, i, curLine, oldWord, newWord)
    decreases |t.marks.vars| - i
  {
    hide ProcessOne;
    if i == |t.marks.vars| {
      trace := [t];
    } else {
      var rest := UpdateTrace(ProcessOne(t, i, curLine, oldWord, newWord), i + 1, curLine, oldWord, newWord);
      trace := [t] + rest;
      forall k | 0 <= k < |trace| - 1
        ensures trace[k + 1] == ProcessOne(trace[k], i + k, curLine, oldWord, newWord)
      {
        if k > 0 {
          assert trace[k] == rest[k - 1] && trace[k + 1] == rest[(k - 1) + 1];
        }
      }
    }
  }

  /** The variables of the script while a placeholder with mirrors is being edited. */
  class Session {
    var lines: seq<string>
    var vars: seq<Position>
    var startCol: int
    var endCol: int
    var oldWord: string
    /** `g:snipPos[s:curPos][2]` */
    var wordLen: int
    /** `line('.')` and `col('.')` */
    var curLine: nat
    var cursorCol: int
    /** `s:prevLen[1]` */
    var prevLen: int
    /** `g:snipPos[s:curPos][0]` */
    var snipLine: nat
    /** Whether the snippet is still being edited. */
    var active: bool

    function Current(): Text
      reads this
    {
      Text(lines, Marks(vars, startCol))
    }

    /** `strpart(getline('.'), s:startCol, newWordLen)` */
    function TypedWord(): string
      requires curLine < |lines|
      reads this
    {
      StrPart(lines[curLine], startCol, endCol - startCol + 1)
    }

    static function StrPart(s: string, start: int, len: int): string {
      var from := if start < 0 then 0 else if start > |s| then |s| else start;
      var to := if start + len < from then from else if start + len > |s| then |s| else start + len;
      s[from..to]
    }

    /** The characters from `start` on, as far as the string and the length go. */
    static lemma StrPartAt(s: string, start: int, len: int)
      ensures var r, from := StrPart(s, start, len), if start < 0 then 0 else start;
              (forall k | 0 <= k < |r| :: from + k < |s| && r[k] == s[from + k])
      ensures 0 <= start && 0 <= len && start + len <= |s| ==> |StrPart(s, start, len)| == len
      ensures 0 <= start <= |s| && 0 <= len && start + len > |s| ==> |StrPart(s, start, len)| == |s| - start
      ensures start < 0 && 0 <= start + len <= |s| ==> |StrPart(s, start, len)| == start + len
      ensures start < 0 && start + len > |s| ==> StrPart(s, start, len) == s
      ensures len <= 0 || start >= |s| || start + len <= 0 ==> StrPart(s, start, len) == ""
    {
      var r, from := StrPart(s, start, len), if start < 0 then 0 else start;
      if r != [] {
        assert r == s[from..from + |r|];
      }
    }

    /** The inner loop over `g:snipPos[s:curPos][3][(i):]`. */
    method ShiftLaterMirrors(i: nat, lnum: nat, col: int, changeLen: int)
      modifies this`vars
      ensures vars == ShiftFollowing(old(vars), i, lnum, col, changeLen)
    {
      var j := i;
      while j < |vars|
        invariant |vars| == |old(vars)|
        invariant forall k | 0 <= k < |vars| ::
          vars[k] == if k < j then ShiftedOne(old(vars), k, i, lnum, col, changeLen) else old(vars)[k]
        invariant i <= j && forall k | i <= k < j && k < |vars| :: old(vars)[k].lnum <= lnum
      {
        if vars[j].lnum > lnum {
          break;
        }
        if vars[j].lnum == lnum && vars[j].col > col {
          vars := vars[j := Position(vars[j].lnum, vars[j].col - changeLen)];
        }
        j := j + 1;
      }
    }

    /** One round of the loop of `s:UpdateVars`. */
    method UpdateMirror(i: nat, newWord: string, changeLen: int)
      requires i < |vars| && LinesExist(Current()) && changeLen == |oldWord| - |newWord|
      modifies this`lines, this`vars, this`startCol, this`endCol
      ensures |lines| == |old(lines)| && |vars| == |old(vars)| && LinesExist(Current())
      ensures Current() == ProcessOne(old(Current()), i, curLine, oldWord, newWord)
      ensures endCol - startCol == old(endCol) - old(startCol)
    {
      hide SubstituteAt;
      var lnum, col := vars[i].lnum, vars[i].col;
      if changeLen != 0 {
        var start := startCol;
        if lnum == curLine && col <= start {
          startCol := startCol - changeLen;
          endCol := endCol - changeLen;
        }
        ShiftLaterMirrors(i, lnum, col, changeLen);
        if lnum == curLine && col > start {
          col := col - changeLen;
          vars := vars[i := Position(lnum, col)];
        }
        assert Marks(vars, startCol) == AfterVar(old(Current()).marks, i, curLine, changeLen);
      }
      lines := lines[lnum := SubstituteAt(lines[lnum], col, oldWord, newWord)];
    }

    /** `s:UpdateVars` */
    method UpdateVars()
      requires curLine < |lines| && LinesExist(Current())
      requires wordLen == |oldWord| && endCol - startCol + 1 == |TypedWord()|
      modifies this`lines, this`vars, this`startCol, this`endCol, this`oldWord, this`wordLen, this`cursorCol
      ensures |lines| == old(|lines|)
      ensures old(TypedWord()) == old(oldWord) || old(vars) == [] ==>
                && Current() == old(Current()) && endCol == old(endCol) && oldWord == old(oldWord)
                && wordLen == old(wordLen) && cursorCol == old(cursorCol)
      ensures old(TypedWord()) != old(oldWord) && old(vars) != [] ==>
                && Current() == ProcessFrom(old(Current()), 0, curLine, old(oldWord), old(TypedWord()))
                && endCol - startCol == old(endCol) - old(startCol)
                && oldWord == old(TypedWord()) && wordLen == |oldWord|
                && cursorCol == old(cursorCol) + startCol - old(startCol)
    {
      hide ProcessOne;
      var newWordLen := endCol - startCol + 1;
      var newWord := TypedWord();
      if newWord == oldWord || vars == [] {
        return;
      }
      var changeLen := wordLen - newWordLen;
      var oldStartSnip := startCol;
      ghost var result := ProcessFrom(Current(), 0, curLine, oldWord, newWord);
      for i := 0 to |vars|
        invariant |lines| == |old(lines)| && |vars| == |old(vars)| && LinesExist(Current())
        invariant ProcessFrom(Current(), i, curLine, oldWord, newWord) == result
        invariant endCol - startCol == old(endCol) - old(startCol)
        invariant curLine == old(curLine) && oldWord == old(oldWord) && wordLen == old(wordLen)
        invariant cursorCol == old(cursorCol)
      {
        UpdateMirror(i, newWord, changeLen);
      }
      if oldStartSnip != startCol {
        cursorCol := cursorCol + startCol - oldStartSnip;
      }
      oldWord := newWord;
      wordLen := newWordLen;
    }

    /** `s:SelectWord`, without the keys it types; `placeholderCol` is `g:snipPos[s:curPos][1]`. */
    method SelectWord(placeholderCol: int)
      requires curLine < |lines|
      modifies this`oldWord, this`prevLen, this`endCol, this`startCol
      ensures oldWord == StrPart(lines[curLine], placeholderCol - 1, wordLen)
      ensures prevLen == old(prevLen) - wordLen
      ensures vars != [] ==> endCol == -1 && startCol == placeholderCol - 1
      ensures vars == [] ==> endCol == old(endCol) && startCol == old(startCol)
    {
      oldWord := StrPart(lines[curLine], placeholderCol - 1, wordLen);
      prevLen := prevLen - wordLen;
      if vars != [] {
        endCol := -1;
        startCol := placeholderCol - 1;
      }
    }

    /** `s:UpdateChangedSnip` while a placeholder with mirrors is being edited. */
    method UpdateChangedSnip(entering: bool)
      requires active && curLine < |lines| && LinesExist(Current())
      requires wordLen == |oldWord| && 0 <= startCol
      requires 1 <= cursorCol <= |lines[curLine]| + 1 && (endCol != -1 ==> endCol + 1 < prevLen)
      modifies this
      ensures curLine == old(curLine) && snipLine == old(snipLine) && |lines| == |old(lines)|
      ensures old(endCol == -1 && entering) ==>
                && Current() == old(Current()) && active && endCol == -1 && oldWord == old(oldWord)
                && wordLen == old(wordLen) && cursorCol == old(cursorCol) && prevLen == old(prevLen)
      ensures var end := old(if endCol != -1 then endCol + |lines[curLine]| + 1 - prevLen else cursorCol - 2);
              var within := old(curLine == snipLine && startCol <= cursorCol - 1) && old(cursorCol) - 2 <= end;
              var newWord := StrPart(old(lines[curLine]), old(startCol), end - old(startCol) + 1);
              && (!old(endCol == -1 && entering) && !within ==>
                    && !active && Current() == old(Current()) && cursorCol == old(cursorCol)
                    && oldWord == old(oldWord) && wordLen == old(wordLen) && prevLen == old(prevLen))
              && (!old(endCol == -1 && entering) && within ==>
                    && active && prevLen == |lines[curLine]| + 1
                    && |newWord| == end - old(startCol) + 1 && endCol - startCol == end - old(startCol)
                    && cursorCol == old(cursorCol) + startCol - old(startCol)
                    && (newWord == old(oldWord) || old(vars) == [] ==>
                          Current() == old(Current()) && oldWord == old(oldWord) && wordLen == old(wordLen))
                    && (newWord != old(oldWord) && old(vars) != [] ==>
                          && Current() == ProcessFrom(old(Current()), 0, curLine, old(oldWord), newWord)
                          && oldWord == newWord && wordLen == |newWord|))
    {
      hide ProcessFrom;
      var col := cursorCol - 1;
      if endCol != -1 {
        var changeLen := |lines[curLine]| + 1 - prevLen;
        endCol := endCol + changeLen;
      } else {
        if entering {
          return;
        }
        endCol := col - 1;
      }
      if curLine != snipLine || col < startCol || col - 1 > endCol {
        active := false;
        return;
      }
      UpdateVars();
      prevLen := |lines[curLine]| + 1;
    }
  }
}
