/** Chains of items threaded by index, as values: which items a chain visits and how updates of single next
    fields change it. */
module Chains {
  type u32 = n: nat | n < 0x1_0000_0000

  /** `INVALID_LIST_HEAD` */
  const INVALID: u32 := 0xffff_ffff

  predicate NoDuplicates(s: seq<nat>) {
    forall i, j | 0 <= i < j < |s| :: s[i] != s[j]
  }

  /** The item after position `k`, or the end mark. */
  function After(c: seq<nat>, k: int): nat
    requires 0 <= k < |c|
  {
    if k + 1 < |c| then c[k + 1] else INVALID
  }

  /** Following `links` from `head` visits exactly the items of `c`, in order, and ends in `INVALID`. */
  predicate IsChain(links: seq<u32>, head: u32, c: seq<nat>) {
    && NoDuplicates(c)
    && (forall k | 0 <= k < |c| :: c[k] < |links|)
    && head == (if c == [] then INVALID else c[0])
    && (forall k | 0 <= k < |c| :: links[c[k]] == After(c, k))
  }

  /** Where a walk along a chain goes from item `k`, and where it starts. */
  lemma ChainWalk(links: seq<u32>, head: u32, c: seq<nat>, k: int)
    requires IsChain(links, head, c) && |links| < INVALID
    ensures c == [] <==> head == INVALID
    ensures c != [] ==> head == c[0]
    ensures 0 <= k < |c| ==> c[k] < |links| && links[c[k]] == After(c, k) && (After(c, k) == INVALID <==> k + 1 == |c|)
  {
  }

  /** Only the next fields of its own items matter to a chain. */
  lemma ChainFrame(links: seq<u32>, links': seq<u32>, head: u32, c: seq<nat>)
    requires IsChain(links, head, c) && |links'| == |links|
    requires forall k | 0 <= k < |c| :: links'[c[k]] == links[c[k]]
    ensures IsChain(links', head, c)
  {
  }

  /** Linking a detached item after the last one. */
  lemma ChainAppend(links: seq<u32>, head: u32, c: seq<nat>, x: u32)
    requires IsChain(links, head, c) && c != []
    requires x < |links| && x !in c && x < INVALID
    ensures IsChain(links[c[|c| - 1] := x][x := INVALID], head, c + [x])
  {
    var last := c[|c| - 1];
    assert x != last;
    var updated := links[last := x][x := INVALID];
    var d := c + [x];
    forall k | 0 <= k < |d|
      ensures updated[d[k]] == After(d, k)
    {
      if k + 1 < |c| {
        assert c[k] != last && c[k] != x;
        assert links[c[k]] == After(c, k);
      }
    }
  }

  lemma ChainSingle(links: seq<u32>, x: u32)
    requires x < |links| && x < INVALID
    ensures IsChain(links[x := INVALID], x, [x])
  {
  }

  /** Linking an item that is in no other place of the chain: it ends the chain exactly when its own next field
      is clear. */
  lemma ChainAppendIff(links: seq<u32>, head: u32, c: seq<nat>, x: u32)
    requires IsChain(links, head, c) && x < |links| && x !in c && x < INVALID
    ensures IsChain(if c == [] then links else links[c[|c| - 1] := x], if c == [] then x else head, c + [x])
       <==> links[x] == INVALID
  {
    var d := c + [x];
    assert d[|c|] == x && After(d, |c|) == INVALID;
    assert c != [] ==> c[|c| - 1] in c;
    if links[x] == INVALID {
      assert links[x := INVALID] == links;
      if c == [] {
        ChainSingle(links, x);
      } else {
        var linked: seq<u32> := links[c[|c| - 1] := x];
        assert linked[x := INVALID] == linked;
        ChainAppend(links, head, c, x);
      }
    }
  }

  /** Taking the first item off and clearing its next field. */
  lemma ChainPop(links: seq<u32>, head: u32, c: seq<nat>)
    requires IsChain(links, head, c) && c != []
    ensures IsChain(links[c[0] := INVALID], links[c[0]], c[1..])
  {
    var d := c[1..];
    assert links[c[0]] == After(c, 0);
    forall k | 0 <= k < |d|
      ensures links[c[0] := INVALID][d[k]] == After(d, k)
    {
      assert d[k] == c[k + 1] != c[0];
      assert links[c[k + 1]] == After(c, k + 1);
    }
  }

  /** Taking item `k >= 1` out of the middle and clearing its next field. */
  lemma ChainRemove(links: seq<u32>, head: u32, c: seq<nat>, k: nat)
    requires IsChain(links, head, c) && 1 <= k < |c|
    ensures IsChain(links[c[k - 1] := links[c[k]]][c[k] := INVALID], head, Without(c, k))
  {
    var updated := links[c[k - 1] := links[c[k]]][c[k] := INVALID];
    var d := Without(c, k);
    WithoutAt(c, k);
    forall j | 0 <= j < |d|
      ensures d[j] < |links| && updated[d[j]] == After(d, j)
    {
      RemovedLink(links, head, c, k, j);
    }
    assert links[c[0]] == After(c, 0);
  }

  /** A sequence without its element `k`. */
  function Without(c: seq<nat>, k: nat): seq<nat>
    requires k < |c|
  {
    c[..k] + c[k + 1..]
  }

  lemma WithoutAt(c: seq<nat>, k: nat)
    requires k < |c| && NoDuplicates(c)
    ensures |Without(c, k)| == |c| - 1
    ensures forall j | 0 <= j < |c| - 1 :: Without(c, k)[j] == if j < k then c[j] else c[j + 1]
    ensures NoDuplicates(Without(c, k)) && c[k] !in Without(c, k)
  {
    var d := Without(c, k);
    forall i, j | 0 <= i < j < |d|
      ensures d[i] != d[j]
    {
      var p, q := if i < k then i else i + 1, if j < k then j else j + 1;
      assert c[p] != c[q];
    }
    forall j | 0 <= j < |d|
      ensures d[j] != c[k]
    {
      var p := if j < k then j else j + 1;
      assert c[p] != c[k];
    }
  }

  lemma RemovedLink(links: seq<u32>, head: u32, c: seq<nat>, k: nat, j: nat)
    requires IsChain(links, head, c) && 1 <= k < |c| && j < |c| - 1
    ensures var d := Without(c, k);
            && d[j] < |links|
            && links[c[k - 1] := links[c[k]]][c[k] := INVALID][d[j]] == After(d, j)
  {
    var p := if j < k then j else j + 1;
    WithoutNext(c, k, j);
    hide Without, After;
    assert links[c[p]] == After(c, p) && links[c[k]] == After(c, k);
    assert c[p] != c[k] && (p != k - 1 ==> c[p] != c[k - 1]);
  }

  /** In the shorter chain the item before the removed one is followed by the item after it. */
  lemma WithoutNext(c: seq<nat>, k: nat, j: nat)
    requires NoDuplicates(c) && 1 <= k < |c| && j < |c| - 1
    ensures var d, p := Without(c, k), if j < k then j else j + 1;
            |d| == |c| - 1 && d[j] == c[p] && After(d, j) == if p == k - 1 then After(c, k) else After(c, p)
  {
    WithoutAt(c, k);
    hide Without;
  }

  /** The items `0, 1, ..., n - 1`. */
  function Upto(n: nat): (s: seq<nat>)
    ensures |s| == n && forall k | 0 <= k < n :: s[k] == k
  {
    if n == 0 then [] else Upto(n - 1) + [n - 1]
  }
}
