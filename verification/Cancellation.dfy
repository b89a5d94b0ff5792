/** Cancelling equal terms of a sum. Terms are compared by a key. */
module Cancellation {
  datatype Term<T> = Term(item: T, plus: bool)

  /** The value of a sum, given the value of each key. */
  function Sum<T, K>(ts: seq<Term<T>>, key: T -> K, val: K -> real): real {
    if ts == [] then 0.0 else Signed(ts[0], key, val) + Sum(ts[1..], key, val)
  }

  function Signed<T, K>(t: Term<T>, key: T -> K, val: K -> real): real {
    if t.plus then val(key(t.item)) else -val(key(t.item))
  }

  function Positive<T>(ts: seq<Term<T>>): seq<Term<T>> {
    if ts == [] then [] else if ts[0].plus then [ts[0]] + Positive(ts[1..]) else Positive(ts[1..])
  }

  /** The position of the first kept term with this key, whatever its sign; the length if there is none. */
  function FirstWith<T, K(==)>(kept: seq<Term<T>>, key: T -> K, k: K): (i: nat)
    ensures i <= |kept|
    ensures i < |kept| ==> key(kept[i].item) == k
    ensures forall j | 0 <= j < i :: key(kept[j].item) != k
  {
    if kept == [] || key(kept[0].item) == k then 0 else 1 + FirstWith(kept[1..], key, k)
  }

  function RemoveAt<T>(ts: seq<T>, i: nat): seq<T>
    requires i < |ts|
  {
    ts[..i] + ts[i + 1..]
  }

  /** A negative term removes the first kept term with its key, or else is kept itself. */
  function CancelOne<T, K(==)>(kept: seq<Term<T>>, key: T -> K, t: Term<T>): seq<Term<T>> {
    var i := FirstWith(kept, key, key(t.item));
    if i < |kept| then RemoveAt(kept, i) else kept + [t]
  }

  /** The negative terms among `rest`, one after the other. */
  function CancelRest<T, K(==)>(kept: seq<Term<T>>, key: T -> K, rest: seq<Term<T>>): seq<Term<T>>
    decreases rest
  {
    if rest == [] then kept
    else CancelRest(if rest[0].plus then kept else CancelOne(kept, key, rest[0]), key, rest[1..])
  }

  function Cancel<T, K(==)>(ts: seq<Term<T>>, key: T -> K): seq<Term<T>> {
    CancelRest(Positive(ts), key, ts)
  }

  // ---- counting ----

  function Count<T, K(==)>(ts: seq<Term<T>>, key: T -> K, k: K, plus: bool): nat {
    if ts == [] then 0
    else (if ts[0].plus == plus && key(ts[0].item) == k then 1 else 0) + Count(ts[1..], key, k, plus)
  }

  lemma {:induction false} CountSplit<T, K>(a: seq<Term<T>>, b: seq<Term<T>>, key: T -> K, k: K, plus: bool)
    ensures Count(a + b, key, k, plus) == Count(a, key, k, plus) + Count(b, key, k, plus)
  {
    if a == [] { assert a + b == b; } else {
      assert (a + b)[1..] == a[1..] + b && (a + b)[0] == a[0];
      CountSplit(a[1..], b, key, k, plus);
    }
  }

  lemma {:induction false} SumSplit<T, K>(a: seq<Term<T>>, b: seq<Term<T>>, key: T -> K, val: K -> real)
    ensures Sum(a + b, key, val) == Sum(a, key, val) + Sum(b, key, val)
  {
    if a == [] { assert a + b == b; } else {
      assert (a + b)[1..] == a[1..] + b && (a + b)[0] == a[0];
      SumSplit(a[1..], b, key, val);
    }
  }

  lemma RemovedTail<T>(ts: seq<T>, i: nat)
    requires i < |ts|
    ensures i == 0 ==> RemoveAt(ts, i) == ts[1..]
    ensures i > 0 ==> RemoveAt(ts, i) != [] && RemoveAt(ts, i)[0] == ts[0]
    ensures i > 0 ==> RemoveAt(ts, i)[1..] == RemoveAt(ts[1..], i - 1)
  {}

  lemma {:induction false} SumRemoved<T, K>(ts: seq<Term<T>>, i: nat, key: T -> K, val: K -> real)
    requires i < |ts|
    ensures Sum(RemoveAt(ts, i), key, val) == Sum(ts, key, val) - Signed(ts[i], key, val)
  {
    RemovedTail(ts, i);
    if i > 0 { SumRemoved(ts[1..], i - 1, key, val); }
  }

  lemma {:induction false} CountRemoved<T, K>(ts: seq<Term<T>>, i: nat, key: T -> K, k: K, plus: bool)
    requires i < |ts|
    ensures Count(RemoveAt(ts, i), key, k, plus)
         == Count(ts, key, k, plus) - if ts[i].plus == plus && key(ts[i].item) == k then 1 else 0
  {
    RemovedTail(ts, i);
    if i > 0 { CountRemoved(ts[1..], i - 1, key, k, plus); }
  }

  lemma CountAppended<T, K>(ts: seq<Term<T>>, t: Term<T>, key: T -> K, k: K, plus: bool)
    ensures Count(ts + [t], key, k, plus)
         == Count(ts, key, k, plus) + if t.plus == plus && key(t.item) == k then 1 else 0
  {
    CountSplit(ts, [t], key, k, plus);
    assert [t][1..] == [];
  }

  lemma {:induction false} CountNone<T, K>(ts: seq<Term<T>>, key: T -> K, k: K, plus: bool)
    requires forall j | 0 <= j < |ts| :: key(ts[j].item) != k
    ensures Count(ts, key, k, plus) == 0
  {
    if ts == [] {
    } else {
      CountNone(ts[1..], key, k, plus);
    }
  }

  lemma {:induction false} PositiveCounts<T, K>(ts: seq<Term<T>>, key: T -> K, k: K)
    ensures Count(Positive(ts), key, k, true) == Count(ts, key, k, true) && Count(Positive(ts), key, k, false) == 0
    decreases ts
  {
    if ts == [] {
    } else {
      PositiveCounts(ts[1..], key, k);
      if ts[0].plus { assert Positive(ts)[1..] == Positive(ts[1..]); }
    }
  }

  /** The sum of the negative terms. */
  function Negatives<T, K>(ts: seq<Term<T>>, key: T -> K, val: K -> real): real {
    if ts == [] then 0.0 else (if ts[0].plus then 0.0 else Signed(ts[0], key, val)) + Negatives(ts[1..], key, val)
  }

  lemma {:induction false} PositivesAndNegatives<T, K>(ts: seq<Term<T>>, key: T -> K, val: K -> real)
    ensures Sum(Positive(ts), key, val) + Negatives(ts, key, val) == Sum(ts, key, val)
    decreases ts
  {
    if ts == [] {
    } else {
      PositivesAndNegatives(ts[1..], key, val);
      if ts[0].plus { assert Positive(ts)[1..] == Positive(ts[1..]); }
    }
  }

  // ---- when cancelling is right ----

  /** Kept positive terms stand before kept negative ones. */
  predicate Ordered<T>(kept: seq<Term<T>>) {
    forall i, j | 0 <= i < j < |kept| :: kept[j].plus ==> kept[i].plus
  }

  /** No key is subtracted more than once beyond its additions. */
  ghost predicate Covered<T, K(!new)>(kept: seq<Term<T>>, rest: seq<Term<T>>, key: T -> K) {
    forall k: K :: Count(kept, key, k, false) + Count(rest, key, k, false) <= Count(kept, key, k, true) + 1
  }

  lemma OneCancelled<T, K(!new)>(kept: seq<Term<T>>, rest: seq<Term<T>>, key: T -> K, val: K -> real)
    requires rest != [] && !rest[0].plus && Ordered(kept) && Covered(kept, rest, key)
    ensures var next := CancelOne(kept, key, rest[0]);
            && Ordered(next) && Covered(next, rest[1..], key)
            && Sum(next, key, val) == Sum(kept, key, val) + Signed(rest[0], key, val)
  {
    var t := rest[0];
    var i := FirstWith(kept, key, key(t.item));
    var next := CancelOne(kept, key, t);
    if i < |kept| {
      if !kept[i].plus { FirstIsNegative(kept, key, key(t.item)); }
      SumRemoved(kept, i, key, val);
      forall k: K
        ensures Count(next, key, k, false) + Count(rest[1..], key, k, false) <= Count(next, key, k, true) + 1
      {
        CountRemoved(kept, i, key, k, true);
        CountRemoved(kept, i, key, k, false);
      }
    } else {
      SumSplit(kept, [t], key, val);
      assert [t][1..] == [];
      forall k: K
        ensures Count(next, key, k, false) + Count(rest[1..], key, k, false) <= Count(next, key, k, true) + 1
      {
        CountAppended(kept, t, key, k, true);
        CountAppended(kept, t, key, k, false);
      }
    }
  }

  /** If the first term with a key is negative, then no positive term has that key. */
  lemma {:induction false} FirstIsNegative<T, K>(kept: seq<Term<T>>, key: T -> K, k: K)
    requires Ordered(kept) && FirstWith(kept, key, k) < |kept| && !kept[FirstWith(kept, key, k)].plus
    ensures Count(kept, key, k, true) == 0 && Count(kept, key, k, false) >= 1
    decreases kept
  {
    if key(kept[0].item) == k {
      assert forall j | 0 < j < |kept| :: !kept[j].plus;
      NoneAreOfSign(kept, key, k);
    } else {
      FirstIsNegative(kept[1..], key, k);
    }
  }

  lemma {:induction false} NoneAreOfSign<T, K>(ts: seq<Term<T>>, key: T -> K, k: K)
    requires forall j | 0 <= j < |ts| :: !ts[j].plus
    ensures Count(ts, key, k, true) == 0
  {
    if ts == [] {
    } else {
      NoneAreOfSign(ts[1..], key, k);
    }
  }

  lemma {:induction false} RestCancelled<T, K(!new)>(kept: seq<Term<T>>, rest: seq<Term<T>>, key: T -> K,
                                                     val: K -> real)
    requires Ordered(kept) && Covered(kept, rest, key)
    ensures Sum(CancelRest(kept, key, rest), key, val) == Sum(kept, key, val) + Negatives(rest, key, val)
    decreases rest
  {
    if rest == [] {
    } else {
      var next := if rest[0].plus then kept else CancelOne(kept, key, rest[0]);
      if !rest[0].plus { OneCancelled(kept, rest, key, val); }
      RestCancelled(next, rest[1..], key, val);
    }
  }

  // ---- and when it is not ----

  /** At most one negative term of each key is ever kept. */
  lemma {:induction false} FewNegativesKept<T, K>(kept: seq<Term<T>>, rest: seq<Term<T>>, key: T -> K, k: K)
    requires Count(kept, key, k, false) <= 1
    ensures Count(CancelRest(kept, key, rest), key, k, false) <= 1
    decreases rest
  {
    if rest == [] {
    } else {
      var next := if rest[0].plus then kept else CancelOne(kept, key, rest[0]);
      if !rest[0].plus {
        var i := FirstWith(kept, key, key(rest[0].item));
        if i < |kept| {
          CountRemoved(kept, i, key, k, false);
        } else {
          CountAppended(kept, rest[0], key, k, false);
          if key(rest[0].item) == k { CountNone(kept, key, k, false); }
        }
      }
      FewNegativesKept(next, rest[1..], key, k);
    }
  }

  function Only<K(==)>(k: K): K -> real { x => if x == k then 1.0 else 0.0 }

  lemma {:induction false} SumOfOnly<T, K>(ts: seq<Term<T>>, key: T -> K, k: K)
    ensures Sum(ts, key, Only(k)) == (Count(ts, key, k, true) - Count(ts, key, k, false)) as real
  {
    if ts == [] {
    } else {
      SumOfOnly(ts[1..], key, k);
    }
  }

  /** Cancelling keeps the sum under every valuation exactly when no key is subtracted more than
      once beyond its additions. */
  lemma CancelKeepsSumExactly<T, K(!new)>(ts: seq<Term<T>>, key: T -> K)
    ensures (forall k: K :: Count(ts, key, k, false) <= Count(ts, key, k, true) + 1) <==>
            forall val: K -> real :: Sum(Cancel(ts, key), key, val) == Sum(ts, key, val)
  {
    if forall k: K :: Count(ts, key, k, false) <= Count(ts, key, k, true) + 1 {
      forall val: K -> real ensures Sum(Cancel(ts, key), key, val) == Sum(ts, key, val) {
        CancelKeepsSum(ts, key, val);
      }
    } else {
      var k: K :| Count(ts, key, k, false) > Count(ts, key, k, true) + 1;
      PositiveCounts(ts, key, k);
      FewNegativesKept(Positive(ts), ts, key, k);
      SumOfOnly(ts, key, k);
      SumOfOnly(Cancel(ts, key), key, k);
    }
  }

  lemma CancelKeepsSum<T, K(!new)>(ts: seq<Term<T>>, key: T -> K, val: K -> real)
    requires forall k: K :: Count(ts, key, k, false) <= Count(ts, key, k, true) + 1
    ensures Sum(Cancel(ts, key), key, val) == Sum(ts, key, val)
  {
    forall k: K
      ensures Count(Positive(ts), key, k, false) + Count(ts, key, k, false) <= Count(Positive(ts), key, k, true) + 1
    {
      PositiveCounts(ts, key, k);
    }
    PositiveAreOrdered(ts);
    RestCancelled(Positive(ts), ts, key, val);
    PositivesAndNegatives(ts, key, val);
  }

  lemma {:induction false} PositiveAreOrdered<T>(ts: seq<Term<T>>)
    ensures forall i | 0 <= i < |Positive(ts)| :: Positive(ts)[i].plus
  {
    if ts == [] {
    } else {
      PositiveAreOrdered(ts[1..]);
    }
  }

  /** No key is left with both signs. */
  lemma CancelLeavesNoPair<T, K>(ts: seq<Term<T>>, key: T -> K, k: K)
    ensures Count(Cancel(ts, key), key, k, true) == 0 || Count(Cancel(ts, key), key, k, false) == 0
  {
    PositiveCounts(ts, key, k);
    RestLeavesNoPair(Positive(ts), ts, key, k);
  }

  lemma {:induction false} RestLeavesNoPair<T, K>(kept: seq<Term<T>>, rest: seq<Term<T>>, key: T -> K, k: K)
    requires Count(kept, key, k, true) == 0 || Count(kept, key, k, false) == 0
    ensures var all := CancelRest(kept, key, rest); Count(all, key, k, true) == 0 || Count(all, key, k, false) == 0
    decreases rest
  {
    if rest == [] {
    } else {
      var t := rest[0];
      if !t.plus {
        var i := FirstWith(kept, key, key(t.item));
        if i < |kept| {
          CountRemoved(kept, i, key, k, true);
          CountRemoved(kept, i, key, k, false);
        } else {
          CountAppended(kept, t, key, k, true);
          CountAppended(kept, t, key, k, false);
          if key(t.item) == k { CountNone(kept, key, k, true); }
        }
      }
      RestLeavesNoPair(if t.plus then kept else CancelOne(kept, key, t), rest[1..], key, k);
    }
  }
}
