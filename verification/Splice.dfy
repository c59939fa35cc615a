/**
 * Replacing spans of a text.
 *
 * The source sorts its edits in descending order and rewrites the text once per
 * edit. For disjoint spans this is the text with all spans replaced at once
 * (`Weave`), whatever the order in which the edits were listed, and writing the
 * original slices back at the moved spans restores the text.
 */
module Splice {

  datatype Edit = Edit(start: nat, end: nat, text: string)

  predicate InBounds(e: Edit, n: nat) {
    e.start <= e.end <= n
  }

  /** In document order, each edit ending before the next one starts. */
  predicate Ordered(es: seq<Edit>, n: nat) {
    && (forall i :: 0 <= i < |es| ==> InBounds(es[i], n))
    && (forall i, j :: 0 <= i < j < |es| ==> es[i].end <= es[j].start)
  }

  /** Where the gap before the `k`-th edit begins. */
  function GapStart(es: seq<Edit>, k: nat): nat
    requires k <= |es|
  {
    if k == 0 then 0 else es[k - 1].end
  }

  /** The text from the gap before the `k`-th edit on, with every later span replaced at once. */
  function Weave(source: string, es: seq<Edit>, k: nat): string
    requires Ordered(es, |source|) && k <= |es|
    decreases |es| - k
  {
    if k == |es| then source[GapStart(es, k)..]
    else source[GapStart(es, k)..es[k].start] + es[k].text + Weave(source, es, k + 1)
  }

  // ----- Sorting -----

  /** Python's tuple order on (start, end); the callers have ruled out equal pairs. */
  predicate Lex(a: Edit, b: Edit) {
    a.start < b.start || (a.start == b.start && a.end < b.end)
  }

  predicate Ascending(es: seq<Edit>) {
    forall i, j :: 0 <= i < j < |es| ==> Lex(es[i], es[j])
  }

  predicate SameSpan(a: Edit, b: Edit) {
    a.start == b.start && a.end == b.end
  }

  function Insert(e: Edit, es: seq<Edit>): (r: seq<Edit>)
    requires Ascending(es) && forall i :: 0 <= i < |es| ==> !SameSpan(e, es[i])
    ensures |r| == |es| + 1
    ensures Ascending(r)
    ensures forall x :: x in r <==> x == e || x in es
  {
    if es == [] || Lex(e, es[0]) then [e] + es
    else
      var rest := Insert(e, es[1..]);
      assert forall i :: 0 <= i < |rest| ==> rest[i] in rest;
      assert !SameSpan(e, es[0]);
      assert forall i :: 0 <= i < |rest| ==> Lex(es[0], rest[i]);
      [es[0]] + rest
  }

  predicate DistinctSpans(es: seq<Edit>) {
    forall i, j :: 0 <= i < j < |es| ==> !SameSpan(es[i], es[j])
  }

  function Sort(es: seq<Edit>): (r: seq<Edit>)
    requires DistinctSpans(es)
    ensures |r| == |es|
    ensures Ascending(r)
    ensures forall x :: x in r <==> x in es
  {
    if es == [] then []
    else
      var n := |es| - 1;
      var rest := Sort(es[..n]);
      assert forall i :: 0 <= i < |rest| ==> rest[i] in es[..n];
      Insert(es[n], rest)
  }

  /** Any two spans lie apart. Empty spans may touch. */
  predicate Disjoint(es: seq<Edit>) {
    forall i, j :: 0 <= i < j < |es| ==> es[i].end <= es[j].start || es[j].end <= es[i].start
  }

  predicate Spliceable(es: seq<Edit>, n: nat) {
    (forall i :: 0 <= i < |es| ==> InBounds(es[i], n)) && Disjoint(es) && DistinctSpans(es)
  }

  /** Sorting disjoint spans puts them in document order. */
  lemma SortedIsOrdered(es: seq<Edit>, n: nat)
    requires Spliceable(es, n)
    ensures Ordered(Sort(es), n)
  {
    var asc := Sort(es);
    forall i | 0 <= i < |asc|
      ensures InBounds(asc[i], n)
    {
      assert asc[i] in es;
    }
    forall i, j | 0 <= i < j < |asc|
      ensures asc[i].end <= asc[j].start
    {
      assert asc[i] in es && asc[j] in es;
      var a :| 0 <= a < |es| && es[a] == asc[i];
      var b :| 0 <= b < |es| && es[b] == asc[j];
      assert Lex(es[a], es[b]);
    }
  }

  /** Two ascending lists with the same members are the same list. */
  lemma {:induction false} AscendingIsUnique(xs: seq<Edit>, ys: seq<Edit>)
    requires Ascending(xs) && Ascending(ys) && |xs| == |ys|
    requires forall e :: e in xs <==> e in ys
    ensures xs == ys
  {
    if xs != [] {
      assert xs[0] in ys && ys[0] in xs;
      assert xs[0] == ys[0];
      forall e
        ensures e in xs[1..] <==> e in ys[1..]
      {
        TailMembers(xs, e);
        TailMembers(ys, e);
      }
      AscendingIsUnique(xs[1..], ys[1..]);
      assert xs == [xs[0]] + xs[1..] && ys == [ys[0]] + ys[1..];
    }
  }

  lemma TailMembers(xs: seq<Edit>, e: Edit)
    requires Ascending(xs) && xs != []
    ensures e in xs[1..] <==> e in xs && e != xs[0]
  {
  }

  // ----- The rewriting loop -----

  /** The text with the spans of `es` replaced. */
  function Spliced(source: string, es: seq<Edit>): string
    requires Spliceable(es, |source|)
  {
    SortedIsOrdered(es, |source|);
    Weave(source, Sort(es), 0)
  }

  lemma CutConcat(a: string, b: string, i: nat)
    requires i <= |a|
    ensures (a + b)[..i] == a[..i] && (a + b)[|a|..] == b
  {
  }

  lemma SpliceStep(source: string, es: seq<Edit>, k: nat)
    requires Ordered(es, |source|) && k < |es|
    ensures var patched := source[..es[k].end] + Weave(source, es, k + 1);
      source[..GapStart(es, k)] + Weave(source, es, k) == patched[..es[k].start] + es[k].text + patched[es[k].end..]
  {
    var e, gap, rest := es[k], GapStart(es, k), Weave(source, es, k + 1);
    CutConcat(source[..e.end], rest, e.start);
    assert source[..e.end][..e.start] == source[..e.start];
    assert source[..gap] + (source[gap..e.start] + e.text + rest) == source[..e.start] + e.text + rest;
  }

  /** Rewrites the text from the last edit to the first. */
  method SpliceDescending(source: string, es: seq<Edit>) returns (patched: string)
    requires Spliceable(es, |source|)
    ensures patched == Spliced(source, es)
  {
    SortedIsOrdered(es, |source|);
    var asc := Sort(es);
    patched := source;
    var i := |asc|;
    assert source == source[..GapStart(asc, i)] + source[GapStart(asc, i)..];
    while i > 0
      invariant 0 <= i <= |asc|
      invariant patched == source[..GapStart(asc, i)] + Weave(source, asc, i)
    {
      i := i - 1;
      SpliceStep(source, asc, i);
      patched := patched[..asc[i].start] + asc[i].text + patched[asc[i].end..];
    }
    assert source[..0] == "";
  }

  /** The order in which the edits are listed does not matter. */
  lemma SplicedInAnyOrder(source: string, xs: seq<Edit>, ys: seq<Edit>)
    requires Spliceable(xs, |source|) && Spliceable(ys, |source|) && |xs| == |ys|
    requires forall e :: e in xs <==> e in ys
    ensures Spliced(source, xs) == Spliced(source, ys)
  {
    AscendingIsUnique(Sort(xs), Sort(ys));
  }

  // ----- Where the characters go -----

  function Growth(e: Edit): int {
    |e.text| - (e.end - e.start)
  }

  /** How far the gap before the `k`-th edit moves. */
  function Moved(es: seq<Edit>, k: nat): int
    requires k <= |es|
  {
    if k == 0 then 0 else Moved(es, k - 1) + Growth(es[k - 1])
  }

  lemma {:induction false} GapInBounds(source: string, es: seq<Edit>, k: nat)
    requires Ordered(es, |source|) && k <= |es|
    ensures 0 <= GapStart(es, k) + Moved(es, k)
  {
    if k > 0 {
      GapInBounds(source, es, k - 1);
    }
  }

  /** The tail of the woven text, at the place where a gap ends up, is the tail woven from that gap. */
  lemma {:induction false} WovenTail(source: string, es: seq<Edit>, k: nat)
    requires Ordered(es, |source|) && k <= |es|
    ensures 0 <= GapStart(es, k) + Moved(es, k) <= |Weave(source, es, 0)|
    ensures Weave(source, es, 0)[GapStart(es, k) + Moved(es, k)..] == Weave(source, es, k)
  {
    GapInBounds(source, es, k);
    if k > 0 {
      WovenTail(source, es, k - 1);
      var whole, from := Weave(source, es, 0), GapStart(es, k - 1) + Moved(es, k - 1);
      var step := |source[GapStart(es, k - 1)..es[k - 1].start] + es[k - 1].text|;
      assert whole[from + step..] == whole[from..][step..];
      assert Weave(source, es, k - 1)[step..] == Weave(source, es, k);
    }
  }

  /** Every character outside the spans is kept, each gap moved as a whole. */
  lemma GapsAreKept(source: string, es: seq<Edit>, k: nat, i: nat)
    requires Ordered(es, |source|) && k <= |es|
    requires GapStart(es, k) <= i < if k < |es| then es[k].start else |source|
    ensures 0 <= i + Moved(es, k) < |Weave(source, es, 0)|
    ensures Weave(source, es, 0)[i + Moved(es, k)] == source[i]
  {
    WovenTail(source, es, k);
    var tail := Weave(source, es, 0)[GapStart(es, k) + Moved(es, k)..];
    assert tail[i - GapStart(es, k)] == source[i];
  }

  // ----- Undoing -----

  /** The edit that puts the original slice back where the new text of the `k`-th edit ended up. */
  function UndoEdit(source: string, es: seq<Edit>, k: nat): Edit
    requires Ordered(es, |source|) && k < |es|
  {
    GapInBounds(source, es, k);
    var start := es[k].start + Moved(es, k);
    Edit(start, start + |es[k].text|, source[es[k].start..es[k].end])
  }

  function Undo(source: string, es: seq<Edit>): (r: seq<Edit>)
    requires Ordered(es, |source|)
    ensures |r| == |es|
    ensures forall k :: 0 <= k < |es| ==> r[k] == UndoEdit(source, es, k)
  {
    seq(|es|, k requires 0 <= k < |es| => UndoEdit(source, es, k))
  }

  lemma {:induction false} UndoKeepsOrder(source: string, es: seq<Edit>, i: nat, j: nat)
    requires Ordered(es, |source|) && i < j < |es|
    ensures UndoEdit(source, es, i).end <= UndoEdit(source, es, j).start
    decreases j
  {
    if i < j - 1 {
      UndoKeepsOrder(source, es, i, j - 1);
    }
  }

  lemma UndoIsOrdered(source: string, es: seq<Edit>)
    requires Ordered(es, |source|)
    ensures Ordered(Undo(source, es), |Weave(source, es, 0)|)
  {
    var n := |Weave(source, es, 0)|;
    forall k | 0 <= k < |es|
      ensures InBounds(UndoEdit(source, es, k), n)
    {
      WovenTail(source, es, k + 1);
    }
    forall i, j | 0 <= i < j < |es|
      ensures Undo(source, es)[i].end <= Undo(source, es)[j].start
    {
      UndoKeepsOrder(source, es, i, j);
    }
  }

  lemma MidSlice(pre: string, mid: string, post: string)
    ensures (pre + (mid + post))[|pre|..|pre| + |mid|] == mid
  {
  }

  lemma Reassociate(pre: string, gap: string, text: string, post: string)
    ensures pre + (gap + text + post) == pre + (gap + (text + post)) == (pre + gap + text) + post
  {
  }

  /** Weaving the original slices back into the woven text gives the original text. */
  lemma {:induction false} WeaveUndo(source: string, es: seq<Edit>, pre: string, patched: string, back: seq<Edit>, k: nat)
    requires Ordered(es, |source|) && k <= |es|
    requires patched == pre + Weave(source, es, k) && |pre| == GapStart(es, k) + Moved(es, k)
    requires back == Undo(source, es) && Ordered(back, |patched|)
    ensures Weave(patched, back, k) == source[GapStart(es, k)..]
    decreases |es| - k
  {
    assert GapStart(back, k) == |pre|;
    if k == |es| {
      CutConcat(pre, Weave(source, es, k), 0);
    } else {
      var gap := source[GapStart(es, k)..es[k].start];
      var rest := Weave(source, es, k + 1);
      Reassociate(pre, gap, es[k].text, rest);
      MidSlice(pre, gap, es[k].text + rest);
      WeaveUndo(source, es, pre + gap + es[k].text, patched, back, k + 1);
      SliceInThree(source, GapStart(es, k), es[k].start, es[k].end);
    }
  }

  lemma SliceInThree(s: string, a: nat, b: nat, c: nat)
    requires a <= b <= c <= |s|
    ensures s[a..b] + s[b..c] + s[c..] == s[a..]
  {
  }

  // ----- Undoing, for edits in any order -----

  /** How far the text of `e` moves: the growth of all the edits that come before it. */
  function Shift(es: seq<Edit>, e: Edit): int {
    if es == [] then 0
    else
      var n := |es| - 1;
      Shift(es[..n], e) + if Lex(es[n], e) then Growth(es[n]) else 0
  }

  lemma {:induction false} ShiftCons(x: Edit, es: seq<Edit>, e: Edit)
    ensures Shift([x] + es, e) == Shift(es, e) + if Lex(x, e) then Growth(x) else 0
  {
    if es == [] {
      assert ([x] + es)[..0] == [];
      assert Shift([x] + es, e) == Shift([], e) + if Lex(x, e) then Growth(x) else 0;
    } else {
      var n := |es| - 1;
      assert ([x] + es)[..n + 1] == [x] + es[..n];
      ShiftCons(x, es[..n], e);
    }
  }

  lemma {:induction false} ShiftInsert(x: Edit, es: seq<Edit>, e: Edit)
    requires Ascending(es) && forall i :: 0 <= i < |es| ==> !SameSpan(x, es[i])
    ensures Shift(Insert(x, es), e) == Shift(es, e) + if Lex(x, e) then Growth(x) else 0
  {
    if es == [] || Lex(x, es[0]) {
      ShiftCons(x, es, e);
    } else {
      ShiftInsert(x, es[1..], e);
      ShiftCons(es[0], Insert(x, es[1..]), e);
      ShiftCons(es[0], es[1..], e);
      assert es == [es[0]] + es[1..];
    }
  }

  lemma {:induction false} ShiftSort(es: seq<Edit>, e: Edit)
    requires DistinctSpans(es)
    ensures Shift(Sort(es), e) == Shift(es, e)
  {
    if es != [] {
      var n := |es| - 1;
      ShiftSort(es[..n], e);
      var rest := Sort(es[..n]);
      assert forall i :: 0 <= i < |rest| ==> rest[i] in es[..n];
      ShiftInsert(es[n], rest, e);
    }
  }

  lemma {:induction false} ShiftIsMoved(es: seq<Edit>, k: nat, m: nat)
    requires Ascending(es) && k < |es| && m <= |es|
    ensures Shift(es[..m], es[k]) == Moved(es, if m < k then m else k)
  {
    if m > 0 {
      ShiftIsMoved(es, k, m - 1);
      assert es[..m][..m - 1] == es[..m - 1];
    }
  }

  /** `back` puts the original slice of every edit back, at the span where its new text ended up. */
  predicate Undoes(source: string, es: seq<Edit>, back: seq<Edit>)
    requires Spliceable(es, |source|)
  {
    && |back| == |es|
    && forall i :: 0 <= i < |es| ==>
         && back[i].start == es[i].start + Shift(es, es[i])
         && back[i].end == back[i].start + |es[i].text|
         && back[i].text == source[es[i].start..es[i].end]
  }

  lemma ShiftInSorted(es: seq<Edit>, k: nat)
    requires DistinctSpans(es) && k < |es|
    ensures Shift(es, Sort(es)[k]) == Moved(Sort(es), k)
  {
    var asc := Sort(es);
    ShiftSort(es, asc[k]);
    ShiftIsMoved(asc, k, |asc|);
    assert asc[..|asc|] == asc;
  }

  lemma UndoneMember(source: string, es: seq<Edit>, back: seq<Edit>, i: nat, k: nat)
    requires Spliceable(es, |source|) && Undoes(source, es, back) && k < |es| && i < |es| && es[i] == Sort(es)[k]
    ensures Ordered(Sort(es), |source|)
    ensures back[i] == Undo(source, Sort(es))[k]
  {
    SortedIsOrdered(es, |source|);
    ShiftInSorted(es, k);
    IsUndoEdit(source, Sort(es), k, back[i]);
  }

  lemma IsUndoEdit(source: string, asc: seq<Edit>, k: nat, b: Edit)
    requires Ordered(asc, |source|) && k < |asc|
    requires b.start == asc[k].start + Moved(asc, k) && b.end == b.start + |asc[k].text|
    requires b.text == source[asc[k].start..asc[k].end]
    ensures b == Undo(source, asc)[k]
  {
  }

  lemma SameMember(xs: seq<Edit>, ys: seq<Edit>, k: nat) returns (i: nat)
    requires k < |ys| && forall e :: e in ys ==> e in xs
    ensures i < |xs| && xs[i] == ys[k]
  {
    assert ys[k] in ys;
    i :| 0 <= i < |xs| && xs[i] == ys[k];
  }

  /** Edits that undo a list of edits restore the text, character for character. */
  lemma SplicedBack(source: string, es: seq<Edit>, back: seq<Edit>)
    requires Spliceable(es, |source|) && Undoes(source, es, back)
    requires Spliceable(back, |Spliced(source, es)|)
    ensures Spliced(Spliced(source, es), back) == source
  {
    SortedIsOrdered(es, |source|);
    var asc := Sort(es);
    var undo := Undo(source, asc);
    UndoIsOrdered(source, asc);
    WeaveUndo(source, asc, "", Weave(source, asc, 0), undo, 0);
    UndoIsAscending(source, es, back);
    UndoMembers(source, es, back);
    AscendingIsUnique(Sort(back), undo);
    assert source[0..] == source;
  }

  lemma UndoIsAscending(source: string, es: seq<Edit>, back: seq<Edit>)
    requires Spliceable(es, |source|) && Undoes(source, es, back) && DistinctSpans(back)
    ensures Ordered(Sort(es), |source|)
    ensures Ascending(Undo(source, Sort(es)))
  {
    SortedIsOrdered(es, |source|);
    var undo := Undo(source, Sort(es));
    forall i, j | 0 <= i < j < |undo|
      ensures Lex(undo[i], undo[j])
    {
      UndoKeepsOrder(source, Sort(es), i, j);
      var a := SameMember(es, Sort(es), i);
      var b := SameMember(es, Sort(es), j);
      UndoneMember(source, es, back, a, i);
      UndoneMember(source, es, back, b, j);
      assert Lex(es[a], es[b]);
      assert a != b;
    }
  }

  lemma UndoMembers(source: string, es: seq<Edit>, back: seq<Edit>)
    requires Spliceable(es, |source|) && Undoes(source, es, back)
    ensures Ordered(Sort(es), |source|)
    ensures forall e :: e in Undo(source, Sort(es)) <==> e in back
  {
    SortedIsOrdered(es, |source|);
    var undo := Undo(source, Sort(es));
    forall i | 0 <= i < |back|
      ensures back[i] in undo
    {
      var k := SameMember(Sort(es), es, i);
      UndoneMember(source, es, back, i, k);
    }
    forall k | 0 <= k < |undo|
      ensures undo[k] in back
    {
      var i := SameMember(es, Sort(es), k);
      UndoneMember(source, es, back, i, k);
    }
  }

  // ----- Undoing is always possible -----

  /** Two undoing edits of texts that are not empty lie apart. */
  lemma UndoneApart(source: string, es: seq<Edit>, back: seq<Edit>, i: nat, j: nat)
    requires Spliceable(es, |source|) && Undoes(source, es, back) && i < |es| && j < |es| && i != j
    ensures back[i].end <= back[j].start || back[j].end <= back[i].start
  {
    SortedIsOrdered(es, |source|);
    var a := SameMember(Sort(es), es, i);
    var b := SameMember(Sort(es), es, j);
    UndoneMember(source, es, back, i, a);
    UndoneMember(source, es, back, j, b);
    if a < b {
      UndoKeepsOrder(source, Sort(es), a, b);
    } else if b < a {
      UndoKeepsOrder(source, Sort(es), b, a);
    } else {
      assert SameSpan(es[i], es[j]);
      assert false;
    }
  }

  /** Edits that undo a list of edits can be spliced when no written text is empty. */
  lemma UndoingIsSpliceable(source: string, es: seq<Edit>, back: seq<Edit>)
    requires Spliceable(es, |source|) && Undoes(source, es, back)
    requires forall i :: 0 <= i < |es| ==> es[i].text != ""
    ensures Spliceable(back, |Spliced(source, es)|)
  {
    SortedIsOrdered(es, |source|);
    UndoIsOrdered(source, Sort(es));
    forall i | 0 <= i < |back|
      ensures InBounds(back[i], |Spliced(source, es)|)
    {
      var k := SameMember(Sort(es), es, i);
      UndoneMember(source, es, back, i, k);
    }
    forall i, j | 0 <= i < j < |back|
      ensures back[i].end <= back[j].start || back[j].end <= back[i].start
      ensures !SameSpan(back[i], back[j])
    {
      UndoneApart(source, es, back, i, j);
    }
  }
}
