/** The recency bookkeeping of the main window's session pool, as values:
    the recency list `lru` (least recently used first) and the set of ids
    that own a live session (the keys of the session dictionary).  The
    main window's methods are proved to compute exactly these functions. */
module Lru {
  import opened Wrappers
  import opened Seqs

  /** MaxAliveWebViews. */
  const MaxAliveWebViews: nat := 5

  /** MarkWebViewUsed: `id` moves to the most recently used end. */
  function MarkUsed(lru: seq<string>, id: string): (r: seq<string>)
    ensures |r| > 0 && r[|r| - 1] == id
    ensures Elems(r) == Elems(lru) + {id}
    ensures Distinct(lru) ==> Distinct(r)
  {
    var rest := Without(lru, id);
    assert Elems(rest + [id]) == Elems(rest) + {id};
    rest + [id]
  }

  /** After MarkUsed the id occurs exactly once, at the end; the other
      ids keep their relative order; an id not yet listed is appended. */
  lemma MarkUsedMovesToEnd(lru: seq<string>, id: string)
    requires Distinct(lru)
    ensures forall i :: 0 <= i < |MarkUsed(lru, id)| - 1 ==> MarkUsed(lru, id)[i] != id
    ensures Without(MarkUsed(lru, id), id) == Without(lru, id)
    ensures id !in lru ==> MarkUsed(lru, id) == lru + [id]
  {
    var rest := Without(lru, id);
    WithoutConcat(rest, [id], id);
    WithoutTwice(lru, id);
    assert Without([id], id) == [];
    assert rest + [] == rest;
  }

  /** Marking the same id twice is marking it once. */
  lemma MarkUsedIdempotent(lru: seq<string>, id: string)
    ensures MarkUsed(MarkUsed(lru, id), id) == MarkUsed(lru, id)
  {
    var rest := Without(lru, id);
    WithoutConcat(rest, [id], id);
    WithoutTwice(lru, id);
    assert Without([id], id) == [];
    assert rest + [] == rest;
  }

  /** The pool keys together with the recency list. */
  datatype Residency = Residency(pool: set<string>, lru: seq<string>)

  /** One pass through the body of the eviction loop, as written: the
      oldest id is rotated to the end when it is the selected tab, and
      otherwise leaves the list and the pool. */
  function EvictStep(s: Residency, selected: Option<string>): Residency
    requires s.lru != []
  {
    var head := s.lru[0];
    if selected == Some(head) then Residency(s.pool, s.lru[1..] + [head])
    else Residency(s.pool - {head}, s.lru[1..])
  }

  /** The guard of the loop as written: `while count > 5`, left by the
      `if (oldest == null) break` only when the list is empty. */
  predicate LoopContinues(s: Residency) {
    |s.pool| > MaxAliveWebViews && s.lru != []
  }

  /** The state after at most `n` iterations of the loop as written. */
  function RunAsWritten(s: Residency, selected: Option<string>, n: nat): Residency
    decreases n
  {
    if n == 0 || !LoopContinues(s) then s
    else RunAsWritten(EvictStep(s, selected), selected, n - 1)
  }

  /** The loop as written never exits when the pool is over capacity and
      the selected id is the only one in the recency list: every pass
      rotates that id onto itself. */
  lemma {:induction false} EvictAsWrittenSpins(s: Residency, x: string, n: nat)
    requires s.lru == [x] && |s.pool| > MaxAliveWebViews
    ensures RunAsWritten(s, Some(x), n) == s
    ensures LoopContinues(RunAsWritten(s, Some(x), n))
  {
    if n > 0 {
      assert s.lru[1..] + [x] == [x];
      assert EvictStep(s, Some(x)) == s;
      EvictAsWrittenSpins(s, x, n - 1);
    }
  }

  /** A concrete such state: six sessions, five of them still being
      initialised (or left out of the list after a failed navigation),
      and the selected one the only id in the list. */
  lemma SpinWitness(n: nat)
    ensures var s := Residency({"A", "B", "C", "D", "E", "F"}, ["A"]);
            LoopContinues(RunAsWritten(s, Some("A"), n))
  {
    var s := Residency({"A", "B", "C", "D", "E", "F"}, ["A"]);
    assert |s.pool| == 6;
    EvictAsWrittenSpins(s, "A", n);
  }

  /** The corrected loop stops, besides the source's exits, when the only
      id left to inspect is the selected one. */
  predicate Stops(s: Residency, selected: Option<string>) {
    |s.pool| <= MaxAliveWebViews || s.lru == []
    || (selected == Some(s.lru[0]) && |s.lru| == 1)
  }

  /** Two per listed id, one more while the selected id is at the head. */
  function Measure(s: Residency, selected: Option<string>): nat {
    2 * |s.lru| + (if s.lru != [] && selected == Some(s.lru[0]) then 1 else 0)
  }

  lemma StepShrinks(s: Residency, selected: Option<string>)
    requires Distinct(s.lru) && !Stops(s, selected)
    ensures Distinct(EvictStep(s, selected).lru)
    ensures Measure(EvictStep(s, selected), selected) < Measure(s, selected)
  {
    var head := s.lru[0];
    assert s.lru == [head] + s.lru[1..];
    if selected == Some(head) {
      var l := s.lru[1..] + [head];
      assert l[0] == s.lru[1];
      assert forall i, j :: 0 <= i < j < |l| ==> l[i] != l[j] by {
        forall i, j | 0 <= i < j < |l| ensures l[i] != l[j] {
          if j < |l| - 1 {
            assert l[i] == s.lru[i + 1] && l[j] == s.lru[j + 1];
          } else {
            assert l[i] == s.lru[i + 1];
          }
        }
      }
    }
  }

  /** EvictIfNeeded with the scan bounded: the corrected loop. */
  function Evict(s: Residency, selected: Option<string>): Residency
    requires Distinct(s.lru)
    decreases Measure(s, selected)
  {
    if Stops(s, selected) then s
    else
      StepShrinks(s, selected);
      Evict(EvictStep(s, selected), selected)
  }

  /** What one pass changes: a rotation changes neither the pool nor the
      listed ids; an eviction removes the head from both. */
  lemma StepFacts(s: Residency, selected: Option<string>)
    requires Distinct(s.lru) && !Stops(s, selected)
    ensures var t := EvictStep(s, selected);
      && (selected == Some(s.lru[0]) ==> t.pool == s.pool && Elems(t.lru) == Elems(s.lru))
      && (selected != Some(s.lru[0]) ==>
            t.pool == s.pool - {s.lru[0]} && Elems(t.lru) == Elems(s.lru) - {s.lru[0]}
            && s.lru[0] in Elems(s.lru))
  {
    var head := s.lru[0];
    var tail := s.lru[1..];
    assert s.lru == [head] + tail;
    assert Elems(s.lru) == {head} + Elems(tail);
    if selected == Some(head) {
      assert Elems(tail + [head]) == Elems(tail) + {head};
    } else {
      assert head !in tail;
    }
  }

  /** Set algebra for chaining two removal steps. */
  lemma RemovalChains(p0: set<string>, p1: set<string>, p2: set<string>,
                      e0: set<string>, e1: set<string>, e2: set<string>)
    requires e2 <= e1 <= e0
    requires p1 == p0 - (e0 - e1) && p2 == p1 - (e1 - e2)
    ensures p2 == p0 - (e0 - e2)
  {
  }

  /** Eviction removes ids from the pool and the list together, never adds
      one, keeps the list duplicate-free, and changes nothing when the pool
      is within capacity. */
  lemma {:induction false} EvictRemovesTogether(s: Residency, selected: Option<string>)
    requires Distinct(s.lru)
    ensures var r := Evict(s, selected);
      && r.pool <= s.pool
      && Elems(r.lru) <= Elems(s.lru)
      && r.pool == s.pool - (Elems(s.lru) - Elems(r.lru))
      && Distinct(r.lru)
      && (|s.pool| <= MaxAliveWebViews ==> r == s)
    decreases Measure(s, selected)
  {
    if !Stops(s, selected) {
      StepShrinks(s, selected);
      StepFacts(s, selected);
      var t := EvictStep(s, selected);
      var r := Evict(t, selected);
      assert Evict(s, selected) == r;
      EvictRemovesTogether(t, selected);
      assert t.pool == s.pool - (Elems(s.lru) - Elems(t.lru));
      RemovalChains(s.pool, t.pool, r.pool, Elems(s.lru), Elems(t.lru), Elems(r.lru));
    }
  }

  /** The selected id is never evicted: if it is resident it stays
      resident, and if it is listed it stays listed. */
  lemma {:induction false} EvictKeepsSelected(s: Residency, x: string)
    requires Distinct(s.lru)
    ensures x in s.pool ==> x in Evict(s, Some(x)).pool
    ensures x in s.lru ==> x in Evict(s, Some(x)).lru
    decreases Measure(s, Some(x))
  {
    if !Stops(s, Some(x)) {
      StepShrinks(s, Some(x));
      var t := EvictStep(s, Some(x));
      if x in s.lru && s.lru[0] != x {
        assert s.lru == [s.lru[0]] + s.lru[1..];
      }
      EvictKeepsSelected(t, x);
    }
  }

  /** Without the selected id, the list after eviction is the list before
      it with a prefix removed: the evicted ids are the least recently used
      ones. */
  function Others(lru: seq<string>, selected: Option<string>): seq<string> {
    if selected.Some? then Without(lru, selected.value) else lru
  }

  /** A rotation leaves the other ids as they are; an eviction takes the
      first of them. */
  lemma OthersStep(s: Residency, selected: Option<string>)
    requires Distinct(s.lru) && !Stops(s, selected)
    ensures selected == Some(s.lru[0]) ==>
              Others(EvictStep(s, selected).lru, selected) == Others(s.lru, selected)
    ensures selected != Some(s.lru[0]) ==>
              Others(s.lru, selected) == [s.lru[0]] + Others(EvictStep(s, selected).lru, selected)
  {
    var head := s.lru[0];
    var tail := s.lru[1..];
    assert s.lru == [head] + tail;
    if selected == Some(head) {
      WithoutConcat(tail, [head], head);
      WithoutConcat([head], tail, head);
      assert Without([head], head) == [];
      assert Without(tail, head) + [] == Without(tail, head);
      assert [] + Without(tail, head) == Without(tail, head);
    } else if selected.Some? {
      WithoutConcat([head], tail, selected.value);
      assert Without([head], selected.value) == [head];
    }
  }

  lemma {:induction false} EvictDropsOldest(s: Residency, selected: Option<string>)
    requires Distinct(s.lru)
    ensures exists k :: 0 <= k <= |Others(s.lru, selected)|
              && Others(Evict(s, selected).lru, selected) == Others(s.lru, selected)[k..]
    decreases Measure(s, selected)
  {
    var o := Others(s.lru, selected);
    if Stops(s, selected) {
      assert o[0..] == o;
    } else {
      StepShrinks(s, selected);
      OthersStep(s, selected);
      var t := EvictStep(s, selected);
      assert Evict(s, selected) == Evict(t, selected);
      EvictDropsOldest(t, selected);
      var ot := Others(t.lru, selected);
      var k :| 0 <= k <= |ot| && Others(Evict(t, selected).lru, selected) == ot[k..];
      if selected != Some(s.lru[0]) {
        assert o[k + 1..] == ot[k..];
      }
    }
  }

  /** While every listed id is resident and every resident id is listed,
      eviction brings an over-full pool down to exactly the capacity, and
      the two stay in step. */
  lemma {:induction false} EvictRestoresCapacity(s: Residency, selected: Option<string>)
    requires Distinct(s.lru) && Elems(s.lru) == s.pool
    ensures Elems(Evict(s, selected).lru) == Evict(s, selected).pool
    ensures |Evict(s, selected).pool| == if |s.pool| <= MaxAliveWebViews then |s.pool| else MaxAliveWebViews
    decreases Measure(s, selected)
  {
    if !Stops(s, selected) {
      StepShrinks(s, selected);
      StepFacts(s, selected);
      var t := EvictStep(s, selected);
      assert Evict(s, selected) == Evict(t, selected);
      assert |t.pool| >= |s.pool| - 1;
      EvictRestoresCapacity(t, selected);
    } else if |s.pool| > MaxAliveWebViews {
      SingletonElems(s.lru);
    }
  }

  /** A one-element list lists one id. */
  lemma SingletonElems(l: seq<string>)
    requires |l| == 1
    ensures |Elems(l)| == 1
  {
    assert l == [l[0]];
    assert Elems(l) == {l[0]};
  }

  /** When the selected id is the most recently used one, eviction leaves
      it at the end of the list: it reaches the head only once every other
      id is gone. */
  lemma {:induction false} EvictKeepsLast(s: Residency, x: string)
    requires Distinct(s.lru) && s.lru != [] && s.lru[|s.lru| - 1] == x
    ensures Evict(s, Some(x)).lru != [] && Evict(s, Some(x)).lru[|Evict(s, Some(x)).lru| - 1] == x
    decreases Measure(s, Some(x))
  {
    if !Stops(s, Some(x)) {
      StepShrinks(s, Some(x));
      var t := EvictStep(s, Some(x));
      assert Evict(s, Some(x)) == Evict(t, Some(x));
      assert s.lru[0] != x by {
        assert s.lru[0] == s.lru[|s.lru| - 1] ==> |s.lru| == 1;
      }
      assert t.lru == s.lru[1..];
      EvictKeepsLast(t, x);
    }
  }

  /** A resident hit, or a completed initialisation, followed by eviction:
      if the list held every resident id except possibly the one marked,
      afterwards the list and the pool agree, the pool is within capacity,
      and the marked id is resident and the most recently used. */
  lemma MarkThenEvict(pool: set<string>, lru: seq<string>, id: string)
    requires Distinct(lru) && Elems(lru) + {id} == pool
    ensures var r := Evict(Residency(pool, MarkUsed(lru, id)), Some(id));
      && Elems(r.lru) == r.pool
      && |r.pool| <= MaxAliveWebViews
      && id in r.pool
      && r.lru != [] && r.lru[|r.lru| - 1] == id
  {
    var s := Residency(pool, MarkUsed(lru, id));
    EvictRestoresCapacity(s, Some(id));
    EvictKeepsSelected(s, id);
    EvictKeepsLast(s, id);
  }

  /** A resident id that is missing from the list (a session whose
      navigation threw) is never evicted. */
  lemma OrphanNeverEvicted(s: Residency, selected: Option<string>, x: string)
    requires Distinct(s.lru) && x in s.pool && x !in s.lru
    ensures x in Evict(s, selected).pool
  {
    EvictRemovesTogether(s, selected);
  }
}
