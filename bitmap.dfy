/**
 * The free-block bitmap: BITMAP_MAX 32-bit words, bit k of the map is bit
 * k % 32 of word k / 32; 1 means the block is free, 0 that it is used.
 * SetBit, ClearBit and TestBit are the three macros of simplefs.c; the
 * first-fit scan is the loop that create and append run over the map.
 */
module Bitmap {
  import opened Layout

  type Word = bv32

  /** The position `k % 32` of block k's bit within its word. */
  function Pos(k: int): bv5
    requires k >= 0
  {
    (k % 32) as bv5
  }

  /** Is bit p of word w set? (`w & (1 << p)`) */
  predicate WordBit(w: Word, p: bv5)
  {
    w & ((1 as Word) << p) != 0
  }

  /** Word w with bit p set: `w | (1 << p)`. */
  function WordSet(w: Word, p: bv5): Word
  {
    w | ((1 as Word) << p)
  }

  /** Word w with bit p cleared: `w & ~(1 << p)`. */
  function WordClear(w: Word, p: bv5): Word
  {
    w & !((1 as Word) << p)
  }

  /** TestBit: is block k marked free? Its bit is bit k % 32 of word k / 32. */
  predicate Bit(bm: seq<Word>, k: int)
    requires 0 <= k < |bm| * 32
  {
    WordBit(bm[k / 32], Pos(k))
  }

  /** A map of the right size. */
  predicate WellSized(bm: seq<Word>)
  {
    |bm| == BITMAP_MAX
  }

  lemma ShiftsDisjoint(p: bv5, q: bv5)
    requires p != q
    ensures ((1 as Word) << p) & ((1 as Word) << q) == 0
  {
  }

  lemma OrOther(w: Word, a: Word, b: Word)
    requires a & b == 0
    ensures (w | a) & b == w & b
  {
  }

  lemma AndNotOther(w: Word, a: Word, b: Word)
    requires a & b == 0
    ensures (w & !a) & b == w & b
  {
  }

  /** Setting bit p of a word sets bit p ... */
  lemma WordSetSame(w: Word, p: bv5)
    ensures WordBit(WordSet(w, p), p)
  {
  }

  /** ... and leaves every other bit alone. */
  lemma WordSetOther(w: Word, p: bv5, q: bv5)
    requires p != q
    ensures WordBit(WordSet(w, p), q) == WordBit(w, q)
  {
    ShiftsDisjoint(p, q);
    OrOther(w, (1 as Word) << p, (1 as Word) << q);
  }

  /** Clearing bit p of a word clears bit p ... */
  lemma WordClearSame(w: Word, p: bv5)
    ensures !WordBit(WordClear(w, p), p)
  {
  }

  /** ... and leaves every other bit alone. */
  lemma WordClearOther(w: Word, p: bv5, q: bv5)
    requires p != q
    ensures WordBit(WordClear(w, p), q) == WordBit(w, q)
  {
    ShiftsDisjoint(p, q);
    AndNotOther(w, (1 as Word) << p, (1 as Word) << q);
  }

  lemma PosValue(x: int)
    requires 0 <= x < 32
    ensures (x as bv5) as int == x
  {
  }

  /** Two different blocks in the same word sit at different positions. */
  lemma NearPositions(j: int, k: int)
    requires 0 <= j && 0 <= k && j != k && j / 32 == k / 32
    ensures Pos(j) != Pos(k)
  {
    assert j % 32 != k % 32;
    PosValue(j % 32);
    PosValue(k % 32);
  }

  /** SetBit: marks block k free and leaves every other bit as it was. */
  function SetBit(bm: seq<Word>, k: int): (r: seq<Word>)
    requires 0 <= k < |bm| * 32
    ensures |r| == |bm|
    ensures forall j :: 0 <= j < |bm| * 32 ==> Bit(r, j) == (j == k || Bit(bm, j))
  {
    var r := bm[k / 32 := WordSet(bm[k / 32], Pos(k))];
    WordSetSame(bm[k / 32], Pos(k));
    forall j | 0 <= j < |bm| * 32 && j != k
      ensures Bit(r, j) == Bit(bm, j)
    {
      if j / 32 == k / 32 {
        NearPositions(j, k);
        WordSetOther(bm[k / 32], Pos(k), Pos(j));
      }
    }
    r
  }

  /** ClearBit: marks block k used and leaves every other bit as it was. */
  function ClearBit(bm: seq<Word>, k: int): (r: seq<Word>)
    requires 0 <= k < |bm| * 32
    ensures |r| == |bm|
    ensures forall j :: 0 <= j < |bm| * 32 ==> Bit(r, j) == (j != k && Bit(bm, j))
  {
    var r := bm[k / 32 := WordClear(bm[k / 32], Pos(k))];
    WordClearSame(bm[k / 32], Pos(k));
    forall j | 0 <= j < |bm| * 32 && j != k
      ensures Bit(r, j) == Bit(bm, j)
    {
      if j / 32 == k / 32 {
        NearPositions(j, k);
        WordClearOther(bm[k / 32], Pos(k), Pos(j));
      }
    }
    r
  }

  /** First-fit scan (the loops at simplefs.c lines 311-319 and 528-536): the lowest
      block below `limit` whose bit is set, or -1 when there is none. */
  method FindFreeBlock(bm: seq<Word>, limit: int) returns (k: int)
    requires 0 <= limit <= |bm| * 32
    ensures -1 <= k < limit
    ensures k == -1 <==> forall j :: 0 <= j < limit ==> !Bit(bm, j)
    ensures k != -1 ==> Bit(bm, k) && forall j :: 0 <= j < k ==> !Bit(bm, j)
  {
    var i := 0;
    while i < limit
      invariant 0 <= i <= limit
      invariant forall j :: 0 <= j < i ==> !Bit(bm, j)
    {
      if Bit(bm, i) {
        return i;
      }
      i := i + 1;
    }
    return -1;
  }

  /** Number of blocks below `hi` that the map marks free. */
  function CountFree(bm: seq<Word>, hi: int): (c: int)
    requires 0 <= hi <= |bm| * 32
    ensures 0 <= c <= hi
  {
    if hi == 0 then 0 else CountFree(bm, hi - 1) + (if Bit(bm, hi - 1) then 1 else 0)
  }

  /** The count is zero exactly when no block below `hi` is free. */
  lemma {:induction false} CountFreeZero(bm: seq<Word>, hi: int)
    requires 0 <= hi <= |bm| * 32
    ensures CountFree(bm, hi) == 0 <==> forall j :: 0 <= j < hi ==> !Bit(bm, j)
  {
    if hi > 0 {
      CountFreeZero(bm, hi - 1);
    }
  }

  /** Clearing a free bit takes one block off the free count; clearing a used one changes nothing. */
  lemma CountFreeClear(bm: seq<Word>, k: int, hi: int)
    requires 0 <= k < |bm| * 32 && 0 <= hi <= |bm| * 32
    ensures CountFree(ClearBit(bm, k), hi) == CountFree(bm, hi) - (if k < hi && Bit(bm, k) then 1 else 0)
  {
    CountFreeChange(bm, ClearBit(bm, k), k, hi);
  }

  /** Setting a used bit adds one block to the free count; setting a free one changes nothing. */
  lemma CountFreeSet(bm: seq<Word>, k: int, hi: int)
    requires 0 <= k < |bm| * 32 && 0 <= hi <= |bm| * 32
    ensures CountFree(SetBit(bm, k), hi) == CountFree(bm, hi) + (if k < hi && !Bit(bm, k) then 1 else 0)
  {
    CountFreeChange(bm, SetBit(bm, k), k, hi);
  }

  /** Two maps that differ at most in bit k have free counts that differ by that bit alone. */
  lemma {:induction false} CountFreeChange(bm: seq<Word>, r: seq<Word>, k: int, hi: int)
    requires |r| == |bm| && 0 <= k < |bm| * 32 && 0 <= hi <= |bm| * 32
    requires forall j :: 0 <= j < |bm| * 32 && j != k ==> Bit(r, j) == Bit(bm, j)
    ensures CountFree(r, hi) + (if k < hi && Bit(bm, k) then 1 else 0)
         == CountFree(bm, hi) + (if k < hi && Bit(r, k) then 1 else 0)
  {
    if hi > 0 {
      CountFreeChange(bm, r, k, hi - 1);
    }
  }

  /** Sets the bits of every block in `ks`, in order (delete's release loop). */
  function SetBits(bm: seq<Word>, ks: seq<int>): (r: seq<Word>)
    requires forall i :: 0 <= i < |ks| ==> 0 <= ks[i] < |bm| * 32
    ensures |r| == |bm|
    ensures forall j :: 0 <= j < |bm| * 32 ==> Bit(r, j) == (Bit(bm, j) || j in ks)
    decreases |ks|
  {
    if |ks| == 0 then bm
    else
      var pre := ks[..|ks| - 1];
      assert ks == pre + [ks[|ks| - 1]];
      SetBit(SetBits(bm, pre), ks[|ks| - 1])
  }

  /** Setting the bits of distinct used blocks adds their number to the free count. */
  lemma {:induction false} CountFreeSetBits(bm: seq<Word>, ks: seq<int>, hi: int)
    requires 0 <= hi <= |bm| * 32
    requires forall i :: 0 <= i < |ks| ==> 0 <= ks[i] < hi && !Bit(bm, ks[i])
    requires forall i, j :: 0 <= i < j < |ks| ==> ks[i] != ks[j]
    ensures CountFree(SetBits(bm, ks), hi) == CountFree(bm, hi) + |ks|
    decreases |ks|
  {
    if |ks| > 0 {
      var pre := ks[..|ks| - 1];
      var last := ks[|ks| - 1];
      CountFreeSetBits(bm, pre, hi);
      assert last !in pre;
      CountFreeSet(SetBits(bm, pre), last, hi);
    }
  }

  /** Clears the bits of every block in `ks`, in order (append's allocation loop). */
  function ClearBits(bm: seq<Word>, ks: seq<int>): (r: seq<Word>)
    requires forall i :: 0 <= i < |ks| ==> 0 <= ks[i] < |bm| * 32
    ensures |r| == |bm|
    decreases |ks|
  {
    if |ks| == 0 then bm
    else ClearBit(ClearBits(bm, ks[..|ks| - 1]), ks[|ks| - 1])
  }

  /** After clearing, exactly the blocks that were free and are not in `ks` are free. */
  lemma {:induction false} ClearBitsAt(bm: seq<Word>, ks: seq<int>)
    requires forall i :: 0 <= i < |ks| ==> 0 <= ks[i] < |bm| * 32
    ensures forall j :: 0 <= j < |bm| * 32 ==> Bit(ClearBits(bm, ks), j) == (Bit(bm, j) && j !in ks)
    decreases |ks|
  {
    if |ks| > 0 {
      var pre := ks[..|ks| - 1];
      ClearBitsAt(bm, pre);
      assert ks == pre + [ks[|ks| - 1]];
    }
  }

  /** Clearing one more bit is one more ClearBit. */
  lemma ClearBitsSnoc(bm: seq<Word>, ks: seq<int>, b: int)
    requires forall i :: 0 <= i < |ks| ==> 0 <= ks[i] < |bm| * 32
    requires 0 <= b < |bm| * 32
    ensures ClearBits(bm, ks + [b]) == ClearBit(ClearBits(bm, ks), b)
  {
    assert (ks + [b])[..|ks|] == ks;
  }

  /** k is the lowest block the map marks free. */
  predicate LowestFree(bm: seq<Word>, k: int)
  {
    0 <= k < |bm| * 32 && Bit(bm, k) && forall j :: 0 <= j < k ==> !Bit(bm, j)
  }

  /** ks is what first-fit allocation over the whole map takes, one block at a time: each
      block is the lowest free one once the blocks before it are taken. */
  predicate FirstFits(bm: seq<Word>, ks: seq<int>)
    decreases |ks|
  {
    && (forall i :: 0 <= i < |ks| ==> 0 <= ks[i] < |bm| * 32)
    && (|ks| == 0
        || (FirstFits(bm, ks[..|ks| - 1]) && LowestFree(ClearBits(bm, ks[..|ks| - 1]), ks[|ks| - 1])))
  }

  /** Taking the lowest free block extends a first-fit run. */
  lemma FirstFitsSnoc(bm: seq<Word>, ks: seq<int>, b: int)
    requires FirstFits(bm, ks) && LowestFree(ClearBits(bm, ks), b)
    ensures FirstFits(bm, ks + [b])
  {
    assert (ks + [b])[..|ks|] == ks;
  }

  /** The blocks of a first-fit run were free in the map, and no block is taken twice. */
  lemma {:induction false} FirstFitsFree(bm: seq<Word>, ks: seq<int>)
    requires FirstFits(bm, ks)
    ensures forall i :: 0 <= i < |ks| ==> Bit(bm, ks[i])
    ensures forall i, j :: 0 <= i < j < |ks| ==> ks[i] != ks[j]
    decreases |ks|
  {
    if |ks| > 0 {
      var pre, last := ks[..|ks| - 1], ks[|ks| - 1];
      FirstFitsFree(bm, pre);
      FreshBlock(bm, pre, last);
      assert ks == pre + [last];
    }
  }

  /** The block first-fit takes after `pre` was free and is not in `pre`. */
  lemma FreshBlock(bm: seq<Word>, pre: seq<int>, last: int)
    requires forall i :: 0 <= i < |pre| ==> 0 <= pre[i] < |bm| * 32
    requires LowestFree(ClearBits(bm, pre), last)
    ensures Bit(bm, last) && last !in pre
  {
    ClearBitsAt(bm, pre);
  }

  /** Clearing the bits of distinct free blocks takes their number off the free count. */
  lemma {:induction false} CountFreeClearBits(bm: seq<Word>, ks: seq<int>, hi: int)
    requires 0 <= hi <= |bm| * 32
    requires forall i :: 0 <= i < |ks| ==> 0 <= ks[i] < hi && Bit(bm, ks[i])
    requires forall i, j :: 0 <= i < j < |ks| ==> ks[i] != ks[j]
    ensures CountFree(ClearBits(bm, ks), hi) == CountFree(bm, hi) - |ks|
    decreases |ks|
  {
    if |ks| > 0 {
      var pre := ks[..|ks| - 1];
      var last := ks[|ks| - 1];
      CountFreeClearBits(bm, pre, hi);
      assert last !in pre;
      ClearBitsAt(bm, pre);
      CountFreeClear(ClearBits(bm, pre), last, hi);
    }
  }
}
