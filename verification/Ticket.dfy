/**
 Numbering by "atomic add, then separate read", as used for captured message ids
 and for certificate serial numbers: a caller first increments a shared counter and
 only afterwards, in a second step, reads it back.

 A trace lists the add and read steps of all callers in the order they happened.
 The value a caller draws is the number of adds that precede its read.
 */
module Ticket {
  datatype Tick = Add(who: nat) | Load(who: nat) | Idle

  function Adds(tr: seq<Tick>): nat {
    if tr == [] then 0
    else Adds(tr[..|tr| - 1]) + if tr[|tr| - 1].Add? then 1 else 0
  }

  function AddSet(tr: seq<Tick>): set<nat> {
    set i | 0 <= i < |tr| && tr[i].Add? :: tr[i].who
  }

  function LoadSet(tr: seq<Tick>): set<nat> {
    set i | 0 <= i < |tr| && tr[i].Load? :: tr[i].who
  }

  /** Each caller adds once, and reads once after its own add. */
  ghost predicate Disciplined(tr: seq<Tick>) {
    tr == [] ||
    (var front := tr[..|tr| - 1];
     Disciplined(front) &&
     match tr[|tr| - 1]
     case Add(w) => w !in AddSet(front)
     case Load(w) => w in AddSet(front) && w !in LoadSet(front)
     case Idle => true)
  }

  /** The value caller w has drawn. */
  function Drawn(tr: seq<Tick>, w: nat): nat
    requires w in LoadSet(tr)
  {
    if tr[|tr| - 1] == Load(w) then Adds(tr[..|tr| - 1])
    else DrawnEarlier(tr, w); Drawn(tr[..|tr| - 1], w)
  }

  lemma DrawnEarlier(tr: seq<Tick>, w: nat)
    requires w in LoadSet(tr) && tr[|tr| - 1] != Load(w)
    ensures w in LoadSet(tr[..|tr| - 1])
  {
    var i :| 0 <= i < |tr| && tr[i].Load? && tr[i].who == w;
    assert tr[..|tr| - 1][i] == tr[i];
  }

  /** w2's add happens between w1's add and w1's read. */
  ghost predicate AddInside(tr: seq<Tick>, w1: nat, w2: nat) {
    exists i, k, j :: 0 <= i < k < j < |tr| && tr[i] == Add(w1) && tr[k] == Add(w2) && tr[j] == Load(w1)
  }

  ghost predicate Overlap(tr: seq<Tick>, w1: nat, w2: nat) {
    AddInside(tr, w1, w2) || AddInside(tr, w2, w1)
  }

  // ---- How the trace functions grow by one step ----

  lemma Snoc(tr: seq<Tick>, x: Tick)
    ensures (tr + [x])[..|tr|] == tr
    ensures Adds(tr + [x]) == Adds(tr) + if x.Add? then 1 else 0
    ensures AddSet(tr + [x]) == AddSet(tr) + if x.Add? then {x.who} else {}
    ensures LoadSet(tr + [x]) == LoadSet(tr) + if x.Load? then {x.who} else {}
    ensures forall w | w in LoadSet(tr) && x != Load(w) :: Drawn(tr + [x], w) == Drawn(tr, w)
    ensures x.Load? ==> Drawn(tr + [x], x.who) == Adds(tr)
  {
    var all := tr + [x];
    assert all[..|tr|] == tr;
    forall w ensures w in AddSet(all) <==> w in AddSet(tr) || (x.Add? && w == x.who) {
      SnocMembers(tr, x, w);
    }
    forall w ensures w in LoadSet(all) <==> w in LoadSet(tr) || (x.Load? && w == x.who) {
      SnocMembers(tr, x, w);
    }
  }

  lemma SnocMembers(tr: seq<Tick>, x: Tick, w: nat)
    ensures w in AddSet(tr + [x]) <==> w in AddSet(tr) || (x.Add? && w == x.who)
    ensures w in LoadSet(tr + [x]) <==> w in LoadSet(tr) || (x.Load? && w == x.who)
  {
    var all := tr + [x];
    assert all[|tr|] == x;
    assert forall i | 0 <= i < |tr| :: all[i] == tr[i];
    if w in AddSet(tr) {
      var i :| 0 <= i < |tr| && tr[i].Add? && tr[i].who == w;
      assert all[i] == tr[i];
    }
    if w in LoadSet(tr) {
      var i :| 0 <= i < |tr| && tr[i].Load? && tr[i].who == w;
      assert all[i] == tr[i];
    }
  }

  // ---- Counting adds over stretches of a trace ----

  lemma {:induction false} AddsBetween(tr: seq<Tick>, i: nat, j: nat)
    requires i <= j <= |tr|
    ensures Adds(tr[..i]) <= Adds(tr[..j])
    ensures Adds(tr[..i]) == Adds(tr[..j]) <==> forall k | i <= k < j :: !tr[k].Add?
    decreases j - i
  {
    if i < j {
      AddsBetween(tr, i, j - 1);
      assert tr[..j][..j - 1] == tr[..j - 1];
    }
  }

  lemma {:induction false} DrawnAt(tr: seq<Tick>, j: nat)
    requires Disciplined(tr) && j < |tr| && tr[j].Load?
    ensures tr[j].who in LoadSet(tr) && Drawn(tr, tr[j].who) == Adds(tr[..j])
  {
    var front := tr[..|tr| - 1];
    if j < |tr| - 1 {
      assert front[j] == tr[j];
      DrawnAt(front, j);
      assert front[..j] == tr[..j];
      assert tr[|tr| - 1] != Load(tr[j].who);
    }
  }

  lemma {:induction false} LoadPosition(tr: seq<Tick>, w: nat) returns (i: nat, j: nat)
    requires Disciplined(tr) && w in LoadSet(tr)
    ensures i < j < |tr| && tr[i] == Add(w) && tr[j] == Load(w)
  {
    var front := tr[..|tr| - 1];
    if tr[|tr| - 1] == Load(w) {
      j := |tr| - 1;
      i :| 0 <= i < |front| && front[i].Add? && front[i].who == w;
    } else {
      DrawnEarlier(tr, w);
      i, j := LoadPosition(front, w);
    }
  }

  /** Every add was made by a different caller, so counting adds counts callers. */
  lemma {:induction false} AddsCountCallers(tr: seq<Tick>)
    requires Disciplined(tr)
    ensures |AddSet(tr)| == Adds(tr)
  {
    if tr == [] {
      assert AddSet(tr) == {};
    } else {
      var front := tr[..|tr| - 1];
      AddsCountCallers(front);
      assert tr == front + [tr[|tr| - 1]];
      Snoc(front, tr[|tr| - 1]);
    }
  }

  lemma LoadsAreAdded(tr: seq<Tick>, w: nat)
    requires Disciplined(tr) && w in LoadSet(tr)
    ensures w in AddSet(tr)
  {
    var i, j := LoadPosition(tr, w);
  }

  // ---- Main results ----

  /** Two callers draw the same value exactly when nobody adds between their two reads. */
  lemma DuplicateIffNoAddBetween(tr: seq<Tick>, j1: nat, j2: nat)
    requires Disciplined(tr) && j1 < j2 < |tr| && tr[j1].Load? && tr[j2].Load?
    ensures tr[j1].who in LoadSet(tr) && tr[j2].who in LoadSet(tr)
    ensures Drawn(tr, tr[j1].who) == Drawn(tr, tr[j2].who) <==> forall k | j1 < k < j2 :: !tr[k].Add?
  {
    DrawnAt(tr, j1);
    DrawnAt(tr, j2);
    AddsBetween(tr, j1, j2);
    assert !tr[j1].Add?;
  }

  /** Equal values are only possible when one add falls inside the other's add-to-read window. */
  lemma DuplicateNeedsOverlap(tr: seq<Tick>, w1: nat, w2: nat)
    requires Disciplined(tr) && w1 != w2 && w1 in LoadSet(tr) && w2 in LoadSet(tr)
    requires Drawn(tr, w1) == Drawn(tr, w2)
    ensures Overlap(tr, w1, w2)
  {
    var i1, j1 := LoadPosition(tr, w1);
    var i2, j2 := LoadPosition(tr, w2);
    if j1 < j2 {
      DuplicateIffNoAddBetween(tr, j1, j2);
      if i1 < i2 { assert AddInside(tr, w1, w2); } else { assert AddInside(tr, w2, w1); }
    } else {
      DuplicateIffNoAddBetween(tr, j2, j1);
      if i1 < i2 { assert AddInside(tr, w1, w2); } else { assert AddInside(tr, w2, w1); }
    }
  }

  /** A drawn value exceeds the counter as it stood before the caller's own add, and never exceeds the counter now. */
  lemma DrawnBounds(tr: seq<Tick>, w: nat, i: nat)
    requires Disciplined(tr) && w in LoadSet(tr) && i < |tr| && tr[i] == Add(w)
    ensures Adds(tr[..i]) < Drawn(tr, w) <= Adds(tr)
  {
    var i', j := LoadPosition(tr, w);
    UniqueAdd(tr, i, i');
    DrawnAt(tr, j);
    AddsBetween(tr, i, j);
    AddsBetween(tr, j, |tr|);
    assert tr[..|tr|] == tr;
  }

  lemma {:induction false} UniqueAdd(tr: seq<Tick>, i: nat, k: nat)
    requires Disciplined(tr) && i < |tr| && k < |tr| && tr[i].Add? && tr[i] == tr[k]
    ensures i == k
  {
    var front := tr[..|tr| - 1];
    if i < |tr| - 1 && k < |tr| - 1 {
      UniqueAdd(front, i, k);
    }
  }

  /** When no window contains another caller's add, all drawn values are distinct. */
  lemma DistinctWhenSerial(tr: seq<Tick>)
    requires Disciplined(tr)
    requires forall w1, w2 | w1 in LoadSet(tr) && w2 in LoadSet(tr) && w1 != w2 :: !Overlap(tr, w1, w2)
    ensures forall w1, w2 | w1 in LoadSet(tr) && w2 in LoadSet(tr) && w1 != w2 :: Drawn(tr, w1) != Drawn(tr, w2)
  {
    forall w1, w2 | w1 in LoadSet(tr) && w2 in LoadSet(tr) && w1 != w2
      ensures Drawn(tr, w1) != Drawn(tr, w2)
    {
      if Drawn(tr, w1) == Drawn(tr, w2) {
        DuplicateNeedsOverlap(tr, w1, w2);
      }
    }
  }

  /** The overlap is really possible: both callers add before either reads, and both draw 2. */
  lemma DuplicateWitness()
    ensures var tr := [Add(0), Add(1), Load(0), Load(1)];
            Disciplined(tr) && Drawn(tr, 0) == 2 && Drawn(tr, 1) == 2
  {
    var t0: seq<Tick> := [];
    Snoc(t0, Add(0));
    var t1 := t0 + [Add(0)];
    Snoc(t1, Add(1));
    var t2 := t1 + [Add(1)];
    Snoc(t2, Load(0));
    var t3 := t2 + [Load(0)];
    Snoc(t3, Load(1));
    assert t3 + [Load(1)] == [Add(0), Add(1), Load(0), Load(1)];
    assert Disciplined(t0) && Disciplined(t1) && Disciplined(t2) && Disciplined(t3);
  }
}
