/**
 The bitmap of userprog/bitmap.cc: bits packed into 32-bit words, updated in place, proved against
 the set of the marked numbers.
 */
module BitMaps {
  import Sets

  const BitsInWord: nat := 32

  /** An unsigned int as its bits, the lowest first. */
  type Word = w: seq<bool> | |w| == BitsInWord witness seq(BitsInWord, _ => false)

  function One(shift: nat): Word {
    seq(BitsInWord, i => i == shift)
  }

  function Or(v: Word, w: Word): Word {
    seq(BitsInWord, i requires 0 <= i < BitsInWord => v[i] || w[i])
  }

  function And(v: Word, w: Word): Word {
    seq(BitsInWord, i requires 0 <= i < BitsInWord => v[i] && w[i])
  }

  function Not(w: Word): Word {
    seq(BitsInWord, i requires 0 <= i < BitsInWord => !w[i])
  }

  predicate NonZero(w: Word) {
    exists i :: 0 <= i < BitsInWord && w[i]
  }

  lemma TestOne(w: Word, b: nat)
    requires b < BitsInWord
    ensures NonZero(And(w, One(b))) <==> w[b]
  {
    assert w[b] ==> And(w, One(b))[b];
  }

  // ---------------------------------------------------------------- the specification

  ghost predicate Within(marked: set<nat>, n: nat) {
    forall i <- marked :: i < n
  }

  predicate IsMarked(ws: seq<Word>, i: nat)
    requires i < BitsInWord * |ws|
  {
    ws[i / BitsInWord][i % BitsInWord]
  }

  /** The numbers below n that the words mark. */
  function Marked(ws: seq<Word>, n: nat): set<nat>
    requires n <= BitsInWord * |ws|
  {
    set i: nat | i < n && IsMarked(ws, i)
  }

  lemma MarkSet(ws: seq<Word>, n: nat, which: nat)
    requires which < n <= BitsInWord * |ws|
    ensures var w := which / BitsInWord;
            Marked(ws[w := Or(ws[w], One(which % BitsInWord))], n) == Marked(ws, n) + {which}
  {
    var w := which / BitsInWord;
    var ws' := ws[w := Or(ws[w], One(which % BitsInWord))];
    forall i: nat | i < n ensures IsMarked(ws', i) <==> IsMarked(ws, i) || i == which {}
  }

  lemma ClearSet(ws: seq<Word>, n: nat, which: nat)
    requires which < n <= BitsInWord * |ws|
    ensures var w := which / BitsInWord;
            Marked(ws[w := And(ws[w], Not(One(which % BitsInWord)))], n) == Marked(ws, n) - {which}
  {
    var w := which / BitsInWord;
    var ws' := ws[w := And(ws[w], Not(One(which % BitsInWord)))];
    forall i: nat | i < n ensures IsMarked(ws', i) <==> IsMarked(ws, i) && i != which {}
  }

  ghost predicate IsLeastClear(marked: set<nat>, n: nat, r: nat) {
    r <= n && (r < n ==> r !in marked) && forall j: nat :: j < r ==> j in marked
  }

  lemma {:induction false} LeastClearExists(marked: set<nat>, n: nat)
    ensures exists r: nat :: IsLeastClear(marked, n, r)
  {
    if n == 0 {
      assert IsLeastClear(marked, 0, 0);
    } else {
      LeastClearExists(marked, n - 1);
      var r: nat :| IsLeastClear(marked, n - 1, r);
      assert IsLeastClear(marked, n, if r < n - 1 || r !in marked then r else n);
    }
  }

  /** The least clear number, or n if all below n are marked. */
  ghost function LeastClear(marked: set<nat>, n: nat): (r: nat)
    ensures IsLeastClear(marked, n, r)
  {
    LeastClearExists(marked, n);
    var r: nat :| IsLeastClear(marked, n, r);
    r
  }

  /** The numbers below n. */
  function Below(n: nat): (s: set<nat>)
    ensures forall i: nat :: i in s <==> i < n
    ensures |s| == n
  {
    if n == 0 then {} else Below(n - 1) + {n - 1}
  }

  /** There is a clear number exactly when fewer than n are marked. */
  lemma RoomMeansClear(marked: set<nat>, n: nat)
    requires Within(marked, n)
    ensures |marked| <= n
    ensures LeastClear(marked, n) < n <==> |marked| < n
  {
    var r := LeastClear(marked, n);
    Sets.SubsetSize(marked, Below(n));
    if r < n {
      Sets.SubsetSize(marked, Below(n) - {r});
    } else {
      assert marked == Below(n);
    }
  }

  /** The marked numbers below i. */
  function Upto(marked: set<nat>, i: nat): set<nat> {
    set x | x in marked && x < i
  }

  lemma CountStep(marked: set<nat>, i: nat)
    ensures |Upto(marked, i + 1)| == |Upto(marked, i)| + (if i in marked then 1 else 0)
  {
    assert Upto(marked, i + 1) == if i in marked then Upto(marked, i) + {i} else Upto(marked, i);
  }

  // ---------------------------------------------------------------- the class

  class BitMap {
    const numBits: nat
    const words: array<Word>

    ghost predicate Valid() {
      words.Length == (numBits + 31) / BitsInWord
    }

    ghost function View(): set<nat>
      requires Valid()
      reads words
    {
      Marked(words[..], numBits)
    }

    constructor (nitems: nat)
      ensures Valid() && numBits == nitems && fresh(words) && View() == {}
    {
      numBits := nitems;
      words := new Word[(nitems + 31) / BitsInWord];
      new;
      for i := 0 to nitems
        invariant forall x <- View() :: i <= x
      {
        Clear(i);
      }
    }

    method FetchFrom(file: seq<Word>)
      requires Valid() && |file| == words.Length
      modifies words
      ensures words[..] == file
    {
      forall i | 0 <= i < words.Length { words[i] := file[i]; }
    }

    method Mark(which: nat)
      requires Valid() && which < numBits
      modifies words
      ensures View() == old(View()) + {which}
    {
      ghost var was := words[..];
      var w := which / BitsInWord;
      words[w] := Or(words[w], One(which % BitsInWord));
      assert words[..] == was[w := Or(was[w], One(which % BitsInWord))];
      MarkSet(was, numBits, which);
    }

    method Clear(which: nat)
      requires Valid() && which < numBits
      modifies words
      ensures View() == old(View()) - {which}
    {
      ghost var was := words[..];
      var w := which / BitsInWord;
      words[w] := And(words[w], Not(One(which % BitsInWord)));
      assert words[..] == was[w := And(was[w], Not(One(which % BitsInWord)))];
      ClearSet(was, numBits, which);
    }

    method Test(which: nat) returns (marked: bool)
      requires Valid() && which < numBits
      ensures marked <==> which in View()
    {
      marked := NonZero(And(words[which / BitsInWord], One(which % BitsInWord)));
      TestOne(words[which / BitsInWord], which % BitsInWord);
      assert words[..][which / BitsInWord][which % BitsInWord] == IsMarked(words[..], which);
    }

    /** The least clear number, which is marked, or -1. */
    method Find() returns (found: int)
      requires Valid()
      modifies words
      ensures Within(View(), numBits) && Within(old(View()), numBits)
      ensures var r := LeastClear(old(View()), numBits);
              if r < numBits then found == r && View() == old(View()) + {r}
              else found == -1 && View() == old(View())
    {
      ghost var marked := View();
      for i := 0 to numBits
        invariant View() == marked && forall j: nat :: j < i ==> j in marked
      {
        var isMarked := Test(i);
        if !isMarked {
          assert IsLeastClear(marked, numBits, i);
          Mark(i);
          return i;
        }
      }
      return -1;
    }

    method NumClear() returns (count: nat)
      requires Valid()
      ensures Within(View(), numBits) && count == numBits - |View()|
    {
      ghost var marked := View();
      count := 0;
      for i := 0 to numBits
        invariant count == i - |Upto(marked, i)|
      {
        var isMarked := Test(i);
        if !isMarked { count := count + 1; }
        CountStep(marked, i);
      }
      assert Upto(marked, numBits) == marked;
    }
  }
}
