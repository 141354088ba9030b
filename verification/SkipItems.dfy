/** The skip list as a strictly sorted sequence of (score, member) pairs. */
module SkipItems {
  import opened Keys

  datatype Item = Item(score: int, member: Key)

  /** The test of the search loops: a smaller score, or the same score and a smaller member. */
  predicate Precedes(a: Item, b: Item)
  {
    a.score < b.score || (a.score == b.score && KeyLess(a.member, b.member))
  }

  lemma PrecedesTotal(a: Item, b: Item)
    ensures a != b ==> Precedes(a, b) || Precedes(b, a)
    ensures !(Precedes(a, b) && Precedes(b, a))
    ensures !Precedes(a, a)
  {
    KeyLessTotal(a.member, b.member);
    KeyLessTotal(a.member, a.member);
  }

  lemma PrecedesTransitive(a: Item, b: Item, c: Item)
    requires Precedes(a, b) && Precedes(b, c)
    ensures Precedes(a, c)
  {
    if a.score == b.score == c.score { KeyLessTransitive(a.member, b.member, c.member); }
  }

  ghost predicate Sorted(s: seq<Item>)
  {
    forall i, j :: 0 <= i < j < |s| ==> Precedes(s[i], s[j])
  }

  /** How many items of `s` come before `x`. */
  ghost function Position(s: seq<Item>, x: Item): (p: nat)
    ensures p <= |s|
  {
    if s == [] || !Precedes(s[0], x) then 0 else 1 + Position(s[1..], x)
  }

  lemma {:induction false} PositionSplits(s: seq<Item>, x: Item)
    requires Sorted(s)
    ensures forall i :: 0 <= i < |s| ==> (Precedes(s[i], x) <==> i < Position(s, x))
  {
    if s != [] && Precedes(s[0], x) {
      PositionSplits(s[1..], x);
      assert forall i :: 0 < i < |s| ==> s[i] == s[1..][i - 1];
    } else if s != [] {
      forall i | 0 <= i < |s|
        ensures !Precedes(s[i], x)
      {
        if i > 0 && Precedes(s[i], x) { PrecedesTransitive(s[0], s[i], x); }
      }
    }
  }

  lemma {:induction false} PositionIs(s: seq<Item>, x: Item, p: nat)
    requires p <= |s| && (forall i :: 0 <= i < p ==> Precedes(s[i], x)) && (p < |s| ==> !Precedes(s[p], x))
    ensures Position(s, x) == p
  {
    if p > 0 { PositionIs(s[1..], x, p - 1); }
  }

  /** The item at the position of `x` is `x` itself whenever `x` is there at all. */
  lemma FoundAtPosition(s: seq<Item>, x: Item)
    requires Sorted(s)
    ensures x in s <==> Position(s, x) < |s| && s[Position(s, x)] == x
  {
    PrecedesTotal(x, x);
    if i :| 0 <= i < |s| && s[i] == x {
      PositionIs(s, x, i);
    }
  }

  /** Insertion into the sorted sequence. */
  ghost function InsertItem(s: seq<Item>, x: Item): seq<Item>
  {
    s[..Position(s, x)] + [x] + s[Position(s, x)..]
  }

  lemma InsertSorted(s: seq<Item>, x: Item)
    requires Sorted(s) && x !in s
    ensures Sorted(InsertItem(s, x))
  {
    PositionSplits(s, x);
    var p := Position(s, x);
    forall i | p <= i < |s|
      ensures Precedes(x, s[i])
    {
      PrecedesTotal(s[i], x);
    }
  }

  /** The items at places `p` to `q - 1` taken out. */
  ghost function Cut(s: seq<Item>, p: nat, q: nat): seq<Item>
    requires p <= q <= |s|
  {
    s[..p] + s[q..]
  }

  lemma CutMore(s: seq<Item>, p: nat, n: nat)
    requires p + n < |s|
    ensures p < |Cut(s, p, p + n)| && Cut(Cut(s, p, p + n), p, p + 1) == Cut(s, p, p + n + 1)
  {
    assert s[..p] + s[p + n..] == s[..p] + [s[p + n]] + s[p + n + 1..];
  }

  lemma CutNothing(s: seq<Item>, p: nat)
    requires p <= |s|
    ensures Cut(s, p, p) == s
  {}

  /** A sorted sequence holds no item twice. */
  lemma SortedDistinct(s: seq<Item>, i: nat, j: nat)
    requires Sorted(s) && i < |s| && j < |s| && s[i] == s[j]
    ensures i == j
  {
    PrecedesTotal(s[i], s[j]);
  }

  /** Removal from the sorted sequence. */
  ghost function RemoveItem(s: seq<Item>, x: Item): seq<Item>
    requires Sorted(s)
  {
    if x in s then FoundAtPosition(s, x); Cut(s, Position(s, x), Position(s, x) + 1) else s
  }

  lemma RemovedAt(s: seq<Item>, x: Item)
    requires Sorted(s) && x in s
    ensures var p := Position(s, x); p < |s| && s[p] == x && RemoveItem(s, x) == Cut(s, p, p + 1)
  {
    FoundAtPosition(s, x);
  }

  lemma InsertAdds(s: seq<Item>, x: Item)
    ensures forall y :: y in InsertItem(s, x) <==> y in s || y == x
  {
    assert s == s[..Position(s, x)] + s[Position(s, x)..];
  }

  lemma RemoveTakes(s: seq<Item>, x: Item)
    requires Sorted(s)
    ensures Sorted(RemoveItem(s, x))
    ensures forall y :: y in RemoveItem(s, x) <==> y in s && y != x
  {
    hide Precedes, Position;
    FoundAtPosition(s, x);
    if x in s {
      var p := Position(s, x);
      forall i | 0 <= i < |s| && s[i] == x
        ensures i == p
      {
        SortedDistinct(s, i, p);
      }
      TakenOut(s, p);
    }
  }

  /** Taking out an item that is there once. */
  lemma TakenOut(s: seq<Item>, p: nat)
    requires p < |s| && forall i :: 0 <= i < |s| && s[i] == s[p] ==> i == p
    ensures forall y :: y in Cut(s, p, p + 1) <==> y in s && y != s[p]
  {
    assert s == s[..p] + [s[p]] + s[p + 1..];
  }

  /** A new score that keeps the item strictly between the scores of its neighbours leaves it in its place. */
  lemma RescoredInPlace(s: seq<Item>, p: nat, score: int)
    requires Sorted(s) && p < |s|
    requires p > 0 ==> s[p - 1].score < score
    requires p + 1 < |s| ==> score < s[p + 1].score
    ensures var x := Item(score, s[p].member); InsertItem(Cut(s, p, p + 1), x) == s[p := x] && Sorted(s[p := x])
  {
    var x := Item(score, s[p].member);
    forall i | 0 <= i < |s| && i != p
      ensures if i < p then Precedes(s[i], x) else Precedes(x, s[i])
    {
      assert i < p - 1 ==> Precedes(s[i], s[p - 1]);
      assert i > p + 1 ==> Precedes(s[p + 1], s[i]);
    }
    Between(s, p, x);
  }

  /** An item between its neighbours. */
  lemma Between(s: seq<Item>, p: nat, x: Item)
    requires Sorted(s) && p < |s|
    requires forall i :: 0 <= i < |s| && i != p ==> if i < p then Precedes(s[i], x) else Precedes(x, s[i])
    ensures InsertItem(Cut(s, p, p + 1), x) == s[p := x] && Sorted(s[p := x])
  {
    if p + 1 < |s| { PrecedesTotal(s[p + 1], x); }
    hide Precedes;
    PositionIs(Cut(s, p, p + 1), x, p);
  }

  // ---------------------------------------------------------------- score ranges

  /** `m_zrangespec` */
  datatype Range = Range(min: int, max: int, minex: bool, maxex: bool)

  /** `m_zslValueGteMin` */
  predicate GteMin(value: int, range: Range)
  {
    if range.minex then value > range.min else value >= range.min
  }

  /** `m_zslValueLteMax` */
  predicate LteMax(value: int, range: Range)
  {
    if range.maxex then value < range.max else value <= range.max
  }

  predicate InRange(x: Item, range: Range)
  {
    GteMin(x.score, range) && LteMax(x.score, range)
  }

  /** A score is in the range when it lies strictly between the ends, or at an end that is not excluded. */
  lemma InRangeExact(x: Item, min: int, max: int, minex: bool, maxex: bool)
    ensures InRange(x, Range(min, max, minex, maxex)) <==>
      (min < x.score || (x.score == min && !minex)) && (x.score < max || (x.score == max && !maxex))
  {}

  /** The items outside a range, in their order. */
  ghost function Outside(s: seq<Item>, range: Range): seq<Item>
  {
    if s == [] then [] else (if InRange(s[0], range) then [] else [s[0]]) + Outside(s[1..], range)
  }

  lemma {:induction false} OutsideExact(s: seq<Item>, range: Range, x: Item)
    ensures x in Outside(s, range) <==>
      && x in s
      && (x.score < range.min || (x.score == range.min && range.minex)
          || x.score > range.max || (x.score == range.max && range.maxex))
  {
    if s != [] {
      OutsideExact(s[1..], range, x);
      assert x in s <==> x == s[0] || x in s[1..];
    }
  }

  lemma {:induction false} OutsideOfNone(s: seq<Item>, range: Range)
    requires forall i :: 0 <= i < |s| ==> !InRange(s[i], range)
    ensures Outside(s, range) == s
  {
    if s != [] { OutsideOfNone(s[1..], range); }
  }

  /** When the items in the range are those at places `p` to `q - 1`, those outside are the rest. */
  lemma {:induction false} OutsideIsCut(s: seq<Item>, range: Range, p: nat, q: nat)
    requires p <= q <= |s| && forall i :: 0 <= i < |s| ==> (InRange(s[i], range) <==> p <= i < q)
    ensures Outside(s, range) == Cut(s, p, q)
  {
    hide InRange;
    if q == 0 || p == q {
      OutsideOfNone(s, range);
      assert Cut(s, p, q) == s;
    } else if p > 0 {
      OutsideIsCut(s[1..], range, p - 1, q - 1);
      assert Cut(s, p, q) == [s[0]] + Cut(s[1..], p - 1, q - 1);
    } else {
      OutsideIsCut(s[1..], range, 0, q - 1);
      assert Cut(s, p, q) == Cut(s[1..], 0, q - 1);
    }
  }

  /** How many items lie below a range. */
  ghost function Below(s: seq<Item>, range: Range): (p: nat)
    ensures p <= |s|
  {
    if s == [] || GteMin(s[0].score, range) then 0 else 1 + Below(s[1..], range)
  }

  lemma {:induction false} BelowSplits(s: seq<Item>, range: Range)
    requires Sorted(s)
    ensures forall i :: 0 <= i < |s| ==> (!GteMin(s[i].score, range) <==> i < Below(s, range))
  {
    if s != [] && !GteMin(s[0].score, range) {
      BelowSplits(s[1..], range);
      assert forall i :: 0 < i < |s| ==> s[i] == s[1..][i - 1];
    } else if s != [] {
      assert forall i :: 0 < i < |s| ==> Precedes(s[0], s[i]);
    }
  }

  /** How many items lie below the end of a range. */
  ghost function Through(s: seq<Item>, range: Range): (p: nat)
    ensures p <= |s|
  {
    if s == [] || !LteMax(s[0].score, range) then 0 else 1 + Through(s[1..], range)
  }

  lemma {:induction false} ThroughSplits(s: seq<Item>, range: Range)
    requires Sorted(s)
    ensures forall i :: 0 <= i < |s| ==> (LteMax(s[i].score, range) <==> i < Through(s, range))
  {
    if s != [] && LteMax(s[0].score, range) {
      ThroughSplits(s[1..], range);
      assert forall i :: 0 < i < |s| ==> s[i] == s[1..][i - 1];
    } else if s != [] {
      assert forall i :: 0 < i < |s| ==> Precedes(s[0], s[i]);
    }
  }

  /** `zslIsInRange`: the range is not empty, the last item is not below it, and the first is not above. */
  predicate MayMeet(s: seq<Item>, range: Range)
  {
    && !(range.min > range.max || (range.min == range.max && (range.minex || range.maxex)))
    && s != [] && GteMin(s[|s| - 1].score, range) && LteMax(s[0].score, range)
  }

  /** Items in the range are between those below and those above; there are none unless the quick test passes. */
  lemma RangeIsSlice(s: seq<Item>, range: Range)
    requires Sorted(s)
    ensures forall i :: 0 <= i < |s| ==> (InRange(s[i], range) <==> Below(s, range) <= i < Through(s, range))
    ensures !MayMeet(s, range) ==> Through(s, range) <= Below(s, range)
    ensures MayMeet(s, range) ==> Below(s, range) < |s| && Through(s, range) > 0
  {
    BelowSplits(s, range);
    ThroughSplits(s, range);
    var p := Below(s, range);
    if p < Through(s, range) {
      assert InRange(s[p], range);
      assert p < |s| - 1 ==> Precedes(s[p], s[|s| - 1]);
      assert p > 0 ==> Precedes(s[0], s[p]);
    }
  }

  /** Some item is in the range exactly when the quick test passes and the first item that is not below the range is not
      above it either. */
  lemma MeetsExactly(s: seq<Item>, range: Range)
    requires Sorted(s)
    ensures (exists i :: 0 <= i < |s| && InRange(s[i], range))
      <==> MayMeet(s, range) && Below(s, range) < |s| && LteMax(s[Below(s, range)].score, range)
  {
    RangeIsSlice(s, range);
    ThroughSplits(s, range);
    if Below(s, range) < |s| && LteMax(s[Below(s, range)].score, range) {
      assert InRange(s[Below(s, range)], range);
    }
  }

  /** The quick test alone can pass although no item is in the range: it looks only at the two ends. */
  lemma QuickTestTooWide(member: Key)
    ensures var s, range := [Item(1, member), Item(10, member)], Range(4, 6, false, false);
      Sorted(s) && MayMeet(s, range) && forall i :: 0 <= i < |s| ==> !InRange(s[i], range)
  {}
}
