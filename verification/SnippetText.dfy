/** Lines of text with slots: fixed text between the occurrences of a word. */
module SnippetText {

  /** The text of a line: `gaps[0] + words[0] + gaps[1] + ... + gaps[|words|]`. */
  function Render(gaps: seq<string>, words: seq<string>): string
    requires |gaps| == |words| + 1
    decreases |words|
  {
    if words == [] then gaps[0]
    else
      var n := |words| - 1;
      Render(gaps[..n + 1], words[..n]) + words[n] + gaps[n + 1]
  }

  /** The text before slot `s`. */
  function Before(gaps: seq<string>, words: seq<string>, s: nat): string
    requires |gaps| == |words| + 1 && s < |words|
  {
    Render(gaps[..s + 1], words[..s])
  }

  /** The text after slot `s`. */
  function Behind(gaps: seq<string>, words: seq<string>, s: nat): string
    requires |gaps| == |words| + 1 && s < |words|
    decreases |words|
  {
    var n := |words| - 1;
    if s == n then gaps[n + 1] else Behind(gaps[..n + 1], words[..n], s) + words[n] + gaps[n + 1]
  }

  lemma {:induction false} RenderAt(gaps: seq<string>, words: seq<string>, s: nat)
    requires |gaps| == |words| + 1 && s < |words|
    ensures Render(gaps, words) == Before(gaps, words, s) + words[s] + Behind(gaps, words, s)
    decreases |words|
  {
    var n := |words| - 1;
    if s < n {
      RenderAt(gaps[..n + 1], words[..n], s);
      assert gaps[..n + 1][..s + 1] == gaps[..s + 1] && words[..n][..s] == words[..s];
    }
  }

  lemma {:induction false} BehindUpdate(gaps: seq<string>, words: seq<string>, s: nat, x: string)
    requires |gaps| == |words| + 1 && s < |words|
    ensures Behind(gaps, words[s := x], s) == Behind(gaps, words, s)
    ensures Before(gaps, words[s := x], s) == Before(gaps, words, s)
    decreases |words|
  {
    var n := |words| - 1;
    assert words[s := x][..s] == words[..s];
    if s < n {
      BehindUpdate(gaps[..n + 1], words[..n], s, x);
      assert words[s := x][..n] == words[..n][s := x];
    }
  }

  /** `substitute(line, '\%' . col . 'c\V' . old, new, '')`: the word at byte column `col`, counted from one, is
      replaced if it is there. */
  function SubstituteAt(line: string, col: int, was: string, now: string): string {
    if 1 <= col && col - 1 + |was| <= |line| && line[col - 1..col - 1 + |was|] == was
    then line[..col - 1] + now + line[col - 1 + |was|..]
    else line
  }

  /** Substituting at the column of a slot replaces the word in that slot and nothing else. */
  lemma SubstituteSlot(gaps: seq<string>, words: seq<string>, s: nat, x: string)
    requires |gaps| == |words| + 1 && s < |words|
    ensures SubstituteAt(Render(gaps, words), |Before(gaps, words, s)| + 1, words[s], x) == Render(gaps, words[s := x])
  {
    var line, a, b := Render(gaps, words), Before(gaps, words, s), Behind(gaps, words, s);
    RenderAt(gaps, words, s);
    BehindUpdate(gaps, words, s, x);
    RenderAt(gaps, words[s := x], s);
    assert line == a + words[s] + b;
    assert line[|a|..|a| + |words[s]|] == words[s];
    assert line[..|a|] == a && line[|a| + |words[s]|..] == b;
  }

  /** The length of the fixed text up to slot `s`. */
  function GapLength(gaps: seq<string>, s: nat): nat
    requires s < |gaps|
  {
    |gaps[s]| + if s == 0 then 0 else GapLength(gaps, s - 1)
  }

  /** With words of one length in the earlier slots, the column of a slot is a sum of lengths. */
  lemma {:induction false} BeforeLength(gaps: seq<string>, words: seq<string>, s: nat, length: nat)
    requires |gaps| == |words| + 1 && s < |words|
    requires forall r | 0 <= r < s :: |words[r]| == length
    ensures |Before(gaps, words, s)| == GapLength(gaps, s) + length * s
  {
    if s > 0 {
      BeforeLength(gaps, words, s - 1, length);
      assert gaps[..s + 1][..s] == gaps[..s] && words[..s][..s - 1] == words[..s - 1];
      assert length * s == length * (s - 1) + length;
    }
  }

  lemma {:induction false} GapsAhead(gaps: seq<string>, s: nat, r: nat)
    requires s <= r < |gaps|
    ensures GapLength(gaps, s) <= GapLength(gaps, r)
    ensures forall g | s < g <= r :: GapLength(gaps, s) + |gaps[g]| <= GapLength(gaps, r)
  {
    if s < r {
      GapsAhead(gaps, s, r - 1);
    }
  }
}
