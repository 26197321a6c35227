/**
 * The block list as a sequence of block handles, head first. These are the
 * list edits the allocator performs (push at the head, move one block to the
 * front, unlink one block, drop the empty blocks behind the head) and the
 * per-block tallies it keeps (how many blocks are empty, how many units are
 * handed out), with the facts that relate a tally before and after an edit.
 */
module BlockList {

  /** No block appears twice. */
  predicate Distinct<B(==)>(l: seq<B>)
  {
    forall i, j :: 0 <= i < j < |l| ==> l[i] != l[j]
  }

  /** Every block of `l` has a mask in `m`. */
  predicate Covered<B(==)>(l: seq<B>, m: map<B, bv64>)
  {
    forall b :: b in l ==> b in m
  }

  /** The block at position `k` unlinked and pushed at the head. */
  function MoveToFront<B>(l: seq<B>, k: nat): (r: seq<B>)
    requires k < |l|
    ensures |r| == |l| && r[0] == l[k]
  {
    [l[k]] + l[..k] + l[k + 1..]
  }

  /** Moving a block to the front keeps the same blocks. */
  lemma MoveToFrontSame<B>(l: seq<B>, k: nat)
    requires k < |l|
    ensures multiset(MoveToFront(l, k)) == multiset(l)
    ensures forall b :: b in MoveToFront(l, k) <==> b in l
  {
    var r := MoveToFront(l, k);
    assert l == l[..k] + [l[k]] + l[k + 1..];
    assert forall b :: b in r <==> b in multiset(r);
    assert forall b :: b in l <==> b in multiset(l);
  }

  /** Moving a block to the front keeps the other blocks in their order. */
  lemma MoveToFrontOrder<B>(l: seq<B>, k: nat)
    requires k < |l|
    ensures MoveToFront(l, k)[1..] == l[..k] + l[k + 1..]
  {
  }

  lemma MoveToFrontDistinct<B>(l: seq<B>, k: nat)
    requires k < |l| && Distinct(l)
    ensures Distinct(MoveToFront(l, k))
  {
    var r := MoveToFront(l, k);
    forall i, j | 0 <= i < j < |r| ensures r[i] != r[j] {
      var i' := if i == 0 then k else if i <= k then i - 1 else i;
      var j' := if j == 0 then k else if j <= k then j - 1 else j;
      assert r[i] == l[i'] && r[j] == l[j'] && i' != j';
    }
  }

  /** The block at position `k` unlinked; the others keep their order. */
  function RemoveAt<B(==)>(l: seq<B>, k: nat): (r: seq<B>)
    requires k < |l|
    ensures |r| == |l| - 1
    ensures multiset(r) + multiset{l[k]} == multiset(l)
  {
    assert l == l[..k] + [l[k]] + l[k + 1..];
    l[..k] + l[k + 1..]
  }

  lemma RemoveAtDistinct<B>(l: seq<B>, k: nat)
    requires k < |l| && Distinct(l)
    ensures Distinct(RemoveAt(l, k))
    ensures forall b :: b in RemoveAt(l, k) <==> b in l && b != l[k]
  {
    var r := RemoveAt(l, k);
    assert forall i :: 0 <= i < |r| ==> r[i] == l[if i < k then i else i + 1];
    forall b | b in l && b != l[k] ensures b in r {
      var i :| 0 <= i < |l| && l[i] == b;
      assert r[if i < k then i else i - 1] == b;
    }
  }

  /** The position of block `b` in a list that holds it. */
  function IndexOf<B(==)>(l: seq<B>, b: B): (k: nat)
    requires b in l
    ensures k < |l| && l[k] == b
    ensures forall j :: 0 <= j < k ==> l[j] != b
  {
    if l[0] == b then 0 else 1 + IndexOf(l[1..], b)
  }

  /** The part of `m` that holds masks of blocks of `l`. */
  function Restrict<B>(m: map<B, bv64>, l: seq<B>): map<B, bv64>
  {
    map b | b in l && b in m :: m[b]
  }

  /** The blocks of `l` whose mask is not all ones, in their order. */
  function NonEmpty<B(==)>(l: seq<B>, m: map<B, bv64>): (r: seq<B>)
    requires Covered(l, m)
    ensures |r| <= |l|
    ensures forall i :: 0 <= i < |r| ==> r[i] in l && m[r[i]] != 0xFFFF_FFFF_FFFF_FFFF
    ensures forall i :: 0 <= i < |l| && m[l[i]] != 0xFFFF_FFFF_FFFF_FFFF ==> l[i] in r
  {
    if |l| == 0 then []
    else (if m[l[0]] == 0xFFFF_FFFF_FFFF_FFFF then [] else [l[0]]) + NonEmpty(l[1..], m)
  }

  /** Walking one block further: the block at `j` is kept exactly when it is not empty. */
  lemma NonEmptyStep<B>(l: seq<B>, m: map<B, bv64>, j: nat)
    requires Covered(l, m) && j < |l|
    ensures Covered(l[j..], m) && Covered(l[j + 1..], m)
    ensures NonEmpty(l[j..], m) ==
      (if m[l[j]] == 0xFFFF_FFFF_FFFF_FFFF then [] else [l[j]]) + NonEmpty(l[j + 1..], m)
  {
    assert l[j..][1..] == l[j + 1..];
  }

  /** One step of a walk that collects the non-empty blocks of `l` behind those already `kept`. */
  lemma NonEmptyWalk<B>(l: seq<B>, m: map<B, bv64>, j: nat, kept: seq<B>, target: seq<B>)
    requires Covered(l, m) && j < |l|
    requires kept + NonEmpty(l[j..], m) == target
    ensures Covered(l[j + 1..], m)
    ensures m[l[j]] == 0xFFFF_FFFF_FFFF_FFFF ==> kept + NonEmpty(l[j + 1..], m) == target
    ensures m[l[j]] != 0xFFFF_FFFF_FFFF_FFFF ==> (kept + [l[j]]) + NonEmpty(l[j + 1..], m) == target
  {
    NonEmptyStep(l, m, j);
    var rest := NonEmpty(l[j + 1..], m);
    if m[l[j]] == 0xFFFF_FFFF_FFFF_FFFF {
      assert [] + rest == rest;
    } else {
      assert (kept + [l[j]]) + rest == kept + ([l[j]] + rest);
    }
  }

  /** Dropping blocks keeps the list free of repetitions. */
  lemma {:induction false} NonEmptyDistinct<B>(l: seq<B>, m: map<B, bv64>)
    requires Covered(l, m) && Distinct(l)
    ensures Distinct(NonEmpty(l, m))
    decreases |l|
  {
    if |l| > 0 {
      NonEmptyDistinct(l[1..], m);
      var t := NonEmpty(l[1..], m);
      assert l[0] !in t by {
        assert l[0] !in l[1..];
      }
    }
  }

  // ---------------------------------------------------------------------------
  // Per-block tallies

  /** The sum of `f` over the masks of the blocks of `l`. */
  function Sum<B(==)>(l: seq<B>, m: map<B, bv64>, f: bv64 -> nat): (n: nat)
    requires Covered(l, m)
  {
    if |l| == 0 then 0 else f(m[l[0]]) + Sum(l[1..], m, f)
  }

  lemma {:induction false} SumConcat<B>(a: seq<B>, b: seq<B>, m: map<B, bv64>, f: bv64 -> nat)
    requires Covered(a + b, m)
    ensures Sum(a + b, m, f) == Sum(a, m, f) + Sum(b, m, f)
    decreases |a|
  {
    if |a| == 0 {
      assert a + b == b;
    } else {
      assert (a + b)[1..] == a[1..] + b;
      SumConcat(a[1..], b, m, f);
    }
  }

  /** A tally only looks at the masks of the blocks in the list. */
  lemma {:induction false} SumFrame<B>(l: seq<B>, m: map<B, bv64>, m': map<B, bv64>, f: bv64 -> nat)
    requires Covered(l, m) && Covered(l, m')
    requires forall b :: b in l ==> m[b] == m'[b]
    ensures Sum(l, m, f) == Sum(l, m', f)
    decreases |l|
  {
    if |l| > 0 {
      SumFrame(l[1..], m, m', f);
    }
  }

  /** Changing the mask of one listed block changes the tally by its difference. */
  lemma {:induction false} SumUpdate<B>(l: seq<B>, m: map<B, bv64>, b: B, w: bv64, f: bv64 -> nat)
    requires Covered(l, m) && Distinct(l) && b in l
    ensures Sum(l, m[b := w], f) + f(m[b]) == Sum(l, m, f) + f(w)
    decreases |l|
  {
    if l[0] == b {
      assert b !in l[1..];
      SumFrame(l[1..], m, m[b := w], f);
    } else {
      SumUpdate(l[1..], m, b, w, f);
    }
  }

  lemma SumMoveToFront<B>(l: seq<B>, k: nat, m: map<B, bv64>, f: bv64 -> nat)
    requires k < |l| && Covered(l, m)
    ensures Sum(MoveToFront(l, k), m, f) == Sum(l, m, f)
  {
    assert l == l[..k] + [l[k]] + l[k + 1..];
    SumConcat(l[..k] + [l[k]], l[k + 1..], m, f);
    SumConcat(l[..k], [l[k]], m, f);
    SumConcat([l[k]] + l[..k], l[k + 1..], m, f);
    SumConcat([l[k]], l[..k], m, f);
  }

  lemma SumRemoveAt<B>(l: seq<B>, k: nat, m: map<B, bv64>, f: bv64 -> nat)
    requires k < |l| && Covered(l, m)
    ensures Sum(RemoveAt(l, k), m, f) + f(m[l[k]]) == Sum(l, m, f)
  {
    assert l == l[..k] + [l[k]] + l[k + 1..];
    SumConcat(l[..k] + [l[k]], l[k + 1..], m, f);
    SumConcat(l[..k], [l[k]], m, f);
    SumConcat(l[..k], l[k + 1..], m, f);
  }

  /** Dropping empty blocks leaves a tally unchanged when empty blocks weigh nothing. */
  lemma {:induction false} SumNonEmpty<B>(l: seq<B>, m: map<B, bv64>, f: bv64 -> nat)
    requires Covered(l, m) && f(0xFFFF_FFFF_FFFF_FFFF) == 0
    ensures Sum(NonEmpty(l, m), m, f) == Sum(l, m, f)
    decreases |l|
  {
    if |l| > 0 {
      SumNonEmpty(l[1..], m, f);
      var head := if m[l[0]] == 0xFFFF_FFFF_FFFF_FFFF then [] else [l[0]];
      SumConcat(head, NonEmpty(l[1..], m), m, f);
    }
  }

  /**
   * Keeping the head and the non-empty blocks behind it, with their masks,
   * leaves a tally unchanged when empty blocks weigh nothing.
   */
  lemma SumKeepHead<B>(l: seq<B>, m: map<B, bv64>, kept: seq<B>, m': map<B, bv64>, f: bv64 -> nat)
    requires |l| >= 1 && Covered(l, m) && f(0xFFFF_FFFF_FFFF_FFFF) == 0
    requires kept == [l[0]] + NonEmpty(l[1..], m)
    requires Covered(kept, m') && forall b :: b in kept ==> m'[b] == m[b]
    ensures Sum(kept, m', f) == Sum(l, m, f)
  {
    var ne := NonEmpty(l[1..], m);
    SumNonEmpty(l[1..], m, f);
    SumFrame(ne, m, m', f);
    assert l == [l[0]] + l[1..];
    SumConcat([l[0]], l[1..], m, f);
    SumConcat([l[0]], ne, m', f);
  }

  /** When `f` counts empty blocks: the dropped blocks are exactly the counted ones. */
  lemma {:induction false} SumNonEmptyCounts<B>(l: seq<B>, m: map<B, bv64>, f: bv64 -> nat)
    requires Covered(l, m)
    requires forall w :: f(w) == if w == 0xFFFF_FFFF_FFFF_FFFF then 1 else 0
    ensures Sum(NonEmpty(l, m), m, f) == 0
    ensures Sum(l, m, f) == |l| - |NonEmpty(l, m)|
    decreases |l|
  {
    if |l| > 0 {
      SumNonEmptyCounts(l[1..], m, f);
      var head := if m[l[0]] == 0xFFFF_FFFF_FFFF_FFFF then [] else [l[0]];
      SumConcat(head, NonEmpty(l[1..], m), m, f);
    }
  }
}
