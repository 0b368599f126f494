/**
 The search of ext2fs_new_range in libext2fs/alloc.c, on the list of blocks that are clear: what one turn
 of its loop does, when the loop ends, and what it has found then.
 */
module RangeSearch {

  datatype Outcome =
    | Found(start: nat, len: nat)
    | Fail
    | Again(next: nat, looped: bool)

  /** `EXT2_NEWRANGE_FIXED_GOAL` and `EXT2_NEWRANGE_MIN_LENGTH`. */
  datatype Flags = Flags(fixedGoal: bool, minLength: bool)

  /** The first place from i on, before end, that is like v; or end. */
  function FirstLike(s: seq<bool>, v: bool, i: nat, end: nat): (z: nat)
    requires i <= end <= |s|
    ensures i <= z <= end && (z < end ==> s[z] == v)
    ensures forall k :: i <= k < z ==> s[k] == !v
    decreases end - i
  {
    if i == end || s[i] == v then i else FirstLike(s, v, i + 1, end)
  }

  function Min(a: nat, b: nat): nat { if a < b then a else b }

  /** One turn of the loop. */
  function Turn(s: seq<bool>, first: nat, fl: Flags, goal: nat, len: nat, start: nat, looped: bool): (o: Outcome)
    requires first <= start < |s| && len > 0
  {
    var z := FirstLike(s, true, start, |s|);
    if z == |s| then
      if fl.fixedGoal || start == first then Fail else Again(first, looped)
    else if fl.fixedGoal && z != goal then Fail
    else TurnAt(s, first, fl, len, z, looped)
  }

  /** The second half of a turn: z is clear. */
  function TurnAt(s: seq<bool>, first: nat, fl: Flags, len: nat, z: nat, looped: bool): (o: Outcome)
    requires z < |s|
  {
    var e := FirstLike(s, false, z, Min(z + len, |s|));
    if !fl.minLength || e - z >= len then Found(z, e - z)
    else if fl.fixedGoal then Fail
    else if e < |s| then Again(e, looped)
    else if looped then Fail
    else Again(first, true)
  }

  ghost predicate RunAt(s: seq<bool>, p: nat, len: nat) {
    p + len <= |s| && forall k :: p <= k < p + len ==> s[k]
  }

  /** No run of len clear blocks begins in lo..hi. */
  ghost predicate NoRun(s: seq<bool>, len: nat, lo: nat, hi: nat) {
    forall p: nat :: lo <= p < hi ==> !RunAt(s, p, len)
  }

  ghost predicate NoneIn(s: seq<bool>, lo: nat, hi: nat) {
    hi <= |s| && forall k :: lo <= k < hi ==> !s[k]
  }

  /**
   The loop does not end: a minimum length, no fixed goal, some block clear but not the last one, and no
   run that is long enough.
   */
  ghost predicate Hangs(s: seq<bool>, first: nat, fl: Flags, len: nat)
    requires first < |s|
  {
    && fl.minLength && !fl.fixedGoal && !s[|s| - 1] && !NoneIn(s, first, |s|) && NoRun(s, len, first, |s|)
  }

  /** Under that condition every turn asks for another, without noticing that it has been round. */
  lemma HangsOn(s: seq<bool>, first: nat, fl: Flags, goal: nat, len: nat, start: nat)
    requires first <= start < |s| && len > 0 && Hangs(s, first, fl, len)
    ensures var o := Turn(s, first, fl, goal, len, start, false); o.Again? && !o.looped && first <= o.next < |s|
  {
    var z := FirstLike(s, true, start, |s|);
    if z < |s| {
      assert !RunAt(s, z, len);
    }
  }

  /** The state after n turns, as long as the loop goes on. */
  function After(s: seq<bool>, first: nat, fl: Flags, goal: nat, len: nat, n: nat): (o: Outcome)
    requires first <= goal < |s| && len > 0
    ensures o.Again? ==> first <= o.next < |s|
  {
    if n == 0 then Again(goal, false)
    else
      var o := After(s, first, fl, goal, len, n - 1);
      if o.Again? && (!o.looped || o.next <= goal) then Turn(s, first, fl, goal, len, o.next, o.looped)
      else if o.Again? then Fail
      else o
  }

  /** However many turns: the loop is not done. */
  lemma {:induction false} HangsForever(s: seq<bool>, first: nat, fl: Flags, goal: nat, len: nat, n: nat)
    requires first <= goal < |s| && len > 0 && Hangs(s, first, fl, len)
    ensures var o := After(s, first, fl, goal, len, n); o.Again? && !o.looped
  {
    if n > 0 {
      HangsForever(s, first, fl, goal, len, n - 1);
      HangsOn(s, first, fl, goal, len, After(s, first, fl, goal, len, n - 1).next);
    }
  }

  /** Three blocks, the middle one clear: a run of two is never found, and never given up. */
  lemma HangsExample()
    ensures Hangs([false, true, false], 0, Flags(false, true), 2)
  {
    var s := [false, true, false];
    assert s[1] && !s[0] && !s[2];
    assert forall p: nat :: 0 <= p < 3 ==> !RunAt(s, p, 2) by {
      assert !s[0] && !s[2];
    }
  }

  // ----- When it does end -----

  /** What is known when the loop stands at start; `again` tells that it has begun anew from the first block. */
  ghost predicate Searching(s: seq<bool>, first: nat, fl: Flags, goal: nat, len: nat, start: nat, looped: bool, again: bool)
  {
    && first <= goal < |s| && first <= start < |s| && len > 0
    && (looped ==> again && fl.minLength)
    && (!again ==> goal <= start && NoRun(s, len, goal, start))
    && (again ==> !fl.fixedGoal && NoRun(s, len, goal, |s|) && NoRun(s, len, first, start))
    && (again && !looped ==> !s[|s| - 1])
    && (again && looped ==> s[|s| - 1])
    && (start != first && again ==> !NoneIn(s, first, |s|))
    && (!fl.minLength || fl.fixedGoal ==> start == if again then first else goal)
    && (!fl.minLength && again ==> NoneIn(s, goal, |s|))
  }

  /** No run of len comes before start, from the goal on and then from the first block on. */
  ghost predicate FirstRun(s: seq<bool>, len: nat, first: nat, goal: nat, start: nat) {
    if goal <= start then NoRun(s, len, goal, start) else NoRun(s, len, goal, |s|) && NoRun(s, len, first, start)
  }

  /** The answers the search may give. */
  ghost predicate Right(s: seq<bool>, first: nat, fl: Flags, goal: nat, len: nat, o: Outcome)
    requires first <= goal < |s|
  {
    match o
    case Found(start, n) =>
      && first <= start && 0 < n <= len && RunAt(s, start, n)
      && (fl.minLength ==> n == len) && (fl.fixedGoal ==> start == goal)
      && (n < len ==> start + n == |s| || !s[start + n])
      && FirstRun(s, if fl.minLength then len else 1, first, goal, start)
    case Fail =>
      if fl.fixedGoal then !s[goal] || (fl.minLength && !RunAt(s, goal, len))
      else if fl.minLength then NoRun(s, len, first, |s|)
      else NoneIn(s, first, |s|)
    case Again(_, _) => false
  }

  /** From a gap on, up to the end of the next run, no run of len begins if that one is shorter. */
  lemma ShortRun(s: seq<bool>, len: nat, start: nat, z: nat, e: nat)
    requires start <= z <= e <= |s| && e - z < len && len > 0
    requires (forall k :: start <= k < z ==> !s[k]) && (e < |s| ==> !s[e])
    ensures NoRun(s, len, start, e)
  {
    forall p: nat | start <= p < e ensures !RunAt(s, p, len) {
      if p < z {
        assert !s[p];
      } else if e < |s| {
        assert !s[e];
      }
    }
  }

  lemma RunsJoin(s: seq<bool>, len: nat, lo: nat, mid: nat, hi: nat)
    requires NoRun(s, len, lo, mid) && NoRun(s, len, mid, hi)
    ensures NoRun(s, len, lo, hi)
  {
  }

  /** A run that is too short brings the search behind it. */
  lemma RunTooShort(s: seq<bool>, len: nat, first: nat, start: nat, z: nat, e: nat)
    requires first <= start < |s| && len > 0 && NoRun(s, len, first, start) && z == FirstLike(s, true, start, |s|) < |s|
    requires e == FirstLike(s, false, z, Min(z + len, |s|)) && e - z < len
    ensures start < e <= |s| && NoRun(s, len, first, e) && !NoneIn(s, first, |s|)
  {
    ShortRun(s, len, start, z, e);
    RunsJoin(s, len, first, start, e);
    assert s[z];
  }

  lemma NoneNoRun(s: seq<bool>, len: nat, lo: nat, hi: nat)
    requires NoneIn(s, lo, hi) && len > 0
    ensures NoRun(s, len, lo, hi)
  {
    forall p: nat | lo <= p < hi ensures !RunAt(s, p, len) {
      assert !s[p];
    }
  }

  /** No block from start on is clear. */
  lemma TurnNone(s: seq<bool>, first: nat, fl: Flags, goal: nat, len: nat, start: nat, looped: bool, again: bool)
    requires Searching(s, first, fl, goal, len, start, looped, again) && !Hangs(s, first, fl, len)
    requires NoneIn(s, start, |s|)
    ensures var o := Turn(s, first, fl, goal, len, start, looped);
            if o.Again? then !again && Searching(s, first, fl, goal, len, o.next, o.looped, true)
            else Right(s, first, fl, goal, len, o)
  {
    assert FirstLike(s, true, start, |s|) == |s|;
    assert !s[|s| - 1];
    NoneNoRun(s, len, start, |s|);
    RunsJoin(s, len, if again then first else goal, start, |s|);
  }

  /** The next run is too short. */
  lemma TurnShort(s: seq<bool>, first: nat, fl: Flags, goal: nat, len: nat, start: nat, looped: bool, again: bool, z: nat, e: nat)
    requires Searching(s, first, fl, goal, len, start, looped, again)
    requires z == FirstLike(s, true, start, |s|) < |s| && e == FirstLike(s, false, z, Min(z + len, |s|))
    requires fl.minLength && e - z < len
    ensures var o := Turn(s, first, fl, goal, len, start, looped);
            if o.Again? then
              && Searching(s, first, fl, goal, len, o.next, o.looped, again || o.looped)
              && (again || !o.looped ==> o.next > start)
            else Right(s, first, fl, goal, len, o)
  {
    ShortRun(s, len, start, z, e);
    RunsJoin(s, len, if again then first else goal, start, e);
    assert s[z] && s[e - 1];
  }

  /** What the turn finds is the first that is long enough. */
  lemma TurnFirst(s: seq<bool>, first: nat, fl: Flags, goal: nat, len: nat, start: nat, looped: bool, again: bool, z: nat)
    requires Searching(s, first, fl, goal, len, start, looped, again) && z == FirstLike(s, true, start, |s|) < |s|
    requires fl.fixedGoal ==> z == goal
    requires fl.minLength ==> RunAt(s, z, len)
    ensures FirstRun(s, if fl.minLength then len else 1, first, goal, z)
  {
    var need := if fl.minLength then len else 1;
    assert RunAt(s, z, need);
    NoneNoRun(s, need, start, z);
    if again {
      if !fl.minLength {
        NoneNoRun(s, 1, goal, |s|);
      }
      RunsJoin(s, need, first, start, z);
    } else {
      RunsJoin(s, need, goal, start, z);
    }
  }

  /** The next run is long enough. */
  lemma TurnLong(s: seq<bool>, first: nat, fl: Flags, goal: nat, len: nat, start: nat, looped: bool, again: bool, z: nat, e: nat)
    requires Searching(s, first, fl, goal, len, start, looped, again)
    requires z == FirstLike(s, true, start, |s|) < |s| && e == FirstLike(s, false, z, Min(z + len, |s|))
    requires !fl.minLength || e - z >= len
    ensures var o := Turn(s, first, fl, goal, len, start, looped); !o.Again? && Right(s, first, fl, goal, len, o)
  {
    if !fl.fixedGoal || z == goal {
      TurnFirst(s, first, fl, goal, len, start, looped, again, z);
    } else {
      assert !s[goal];
    }
  }

  /** A turn gives a right answer, or leads to the next place to stand at. */
  lemma TurnRight(s: seq<bool>, first: nat, fl: Flags, goal: nat, len: nat, start: nat, looped: bool, again: bool)
    returns (again': bool)
    requires Searching(s, first, fl, goal, len, start, looped, again) && !Hangs(s, first, fl, len)
    ensures var o := Turn(s, first, fl, goal, len, start, looped);
            if o.Again? then Searching(s, first, fl, goal, len, o.next, o.looped, again') &&
                             (if again' == again then o.next > start else again')
            else Right(s, first, fl, goal, len, o)
  {
    var o, z := Turn(s, first, fl, goal, len, start, looped), FirstLike(s, true, start, |s|);
    again' := again || z == |s| || (o.Again? && o.looped);
    if z == |s| {
      TurnNone(s, first, fl, goal, len, start, looped, again);
    } else {
      var e := FirstLike(s, false, z, Min(z + len, |s|));
      if fl.minLength && e - z < len {
        TurnShort(s, first, fl, goal, len, start, looped, again, z, e);
      } else {
        TurnLong(s, first, fl, goal, len, start, looped, again, z, e);
      }
    }
  }

  /** The loop is left behind the goal after it has been round: all runs have been looked at. */
  lemma LoopEnds(s: seq<bool>, first: nat, fl: Flags, goal: nat, len: nat, start: nat)
    requires Searching(s, first, fl, goal, len, start, true, true) && goal < start
    ensures Right(s, first, fl, goal, len, Fail)
  {
  }
}
