/** Value-level model of the voice pool that each registered sound effect owns.

    A pool has a fixed number N of voice slots, numbered 0 .. N-1. Every slot has a
    countdown (`time`), and sits in exactly one of two collections: the idle set
    (the keys of the C# `stockList`) or the active list (the indices of the C#
    `playingList`, in insertion order). The imperative classes in module
    SoundControl are proved against the functions of this module. */
module VoicePool {

  datatype Option<T> = None | Some(value: T)

  /** time[i] is the countdown of slot i; idle and active hold slot indices. */
  datatype Pool = Pool(time: seq<real>, idle: set<int>, active: seq<int>)

  /** Result of taking a voice: the new pool and the slot taken, if any. */
  datatype Acquired = Acquired(pool: Pool, slot: Option<int>)

  /** Intermediate state of the expiry sweep over the active list. */
  datatype Sweep = Sweep(time: seq<real>, idle: set<int>, kept: seq<int>)

  predicate Distinct(s: seq<int>) {
    forall j, k :: 0 <= j < k < |s| ==> s[j] != s[k]
  }

  /** The slot indices 0 .. n-1. */
  function Range(n: nat): (r: set<int>)
    ensures forall i :: i in r <==> 0 <= i < n
    ensures |r| == n
  {
    if n == 0 then {} else Range(n - 1) + {n - 1}
  }

  /** The bookkeeping invariant of a pool of |time| slots: indices in range, no slot
      both idle and active, no slot active twice, and idle + active == N. */
  predicate Inv(p: Pool) {
    (forall i :: i in p.idle ==> 0 <= i < |p.time|) &&
    (forall j :: 0 <= j < |p.active| ==> 0 <= p.active[j] < |p.time| && p.active[j] !in p.idle) &&
    Distinct(p.active) &&
    |p.idle| + |p.active| == |p.time|
  }

  /** A freshly created pool: every slot idle, countdown 0, nothing active. */
  function Init(n: nat): (p: Pool)
    ensures Inv(p) && |p.time| == n && p.active == []
    ensures forall i :: i in p.idle <==> 0 <= i < n
    ensures forall i :: 0 <= i < n ==> p.time[i] == 0.0
  {
    Pool(seq(n, _ => 0.0), Range(n), [])
  }

  /** The least element of a non-empty set: `Values[0]` of a SortedList. */
  ghost function Min(s: set<int>): (m: int)
    requires s != {}
    ensures m in s && forall y :: y in s ==> m <= y
  {
    if forall y :: y !in s then assert false; 0
    else
      var x :| x in s;
      var rest := s - {x};
      assert forall y :: y in s ==> y == x || y in rest;
      if forall y :: y !in rest then x
      else
        var r := Min(rest);
        if x <= r then x else r
  }

  /** Start a voice of duration len: the lowest idle slot becomes the last active one.
      What this means slot by slot is AcquireSpec. */
  ghost function Acquire(p: Pool, len: real): (r: Acquired)
    requires Inv(p)
    ensures Inv(r.pool)
  {
    if p.idle == {} then Acquired(p, None)
    else
      var i := Min(p.idle);
      Acquired(Pool(p.time[i := len], p.idle - {i}, p.active + [i]), Some(i))
  }

  /** Acquire takes a slot iff one is idle, and then the idle slot with the least
      index: it leaves the idle set, joins the end of the active list and gets
      countdown len; no other countdown changes. With no idle slot nothing changes. */
  lemma AcquireSpec(p: Pool, len: real)
    requires Inv(p)
    ensures var r := Acquire(p, len);
      |r.pool.time| == |p.time| &&
      (r.slot.None? <==> p.idle == {}) &&
      (r.slot.None? ==> r.pool == p) &&
      (r.slot.Some? ==>
        var i := r.slot.value;
        i in p.idle && i !in p.active && (forall j :: j in p.idle ==> i <= j) &&
        r.pool.idle == p.idle - {i} && r.pool.active == p.active + [i] &&
        r.pool.time[i] == len &&
        (forall k :: 0 <= k < |p.time| && k != i ==> r.pool.time[k] == p.time[k]))
  {
  }

  /** The active slots that survive a tick of dt, in their original order. */
  function Survivors(act: seq<int>, time: seq<real>, dt: real): (r: seq<int>)
    ensures forall x :: x in r <==> x in act && 0 <= x < |time| && time[x] - dt > 0.0
    ensures Distinct(act) ==> Distinct(r)
  {
    if act == [] then []
    else
      var keep := if 0 <= act[0] < |time| && time[act[0]] - dt > 0.0 then [act[0]] else [];
      assert Distinct(act) ==> act[0] !in act[1..];
      keep + Survivors(act[1..], time, dt)
  }

  /** The active slots whose countdown runs out in a tick of dt. */
  function Expired(act: seq<int>, time: seq<real>, dt: real): set<int> {
    set j | j in act && 0 <= j < |time| && time[j] - dt <= 0.0
  }

  /** One step of the expiry loop: slot j loses dt, then stays active if its
      countdown is still positive and returns to idle otherwise. */
  function SweepStep(w: Sweep, j: int, dt: real): Sweep {
    if 0 <= j < |w.time| then
      var t := w.time[j] - dt;
      if t > 0.0 then Sweep(w.time[j := t], w.idle, w.kept + [j])
      else Sweep(w.time[j := t], w.idle + {j}, w.kept)
    else w
  }

  /** The expiry loop over act as the source runs it, one slot after the other. */
  function SweepFrom(time: seq<real>, idle: set<int>, act: seq<int>, dt: real): Sweep
    decreases |act|
  {
    if act == [] then Sweep(time, idle, [])
    else SweepStep(SweepFrom(time, idle, act[..|act| - 1], dt), act[|act| - 1], dt)
  }

  lemma SweepSnoc(time: seq<real>, idle: set<int>, act: seq<int>, j: int, dt: real)
    ensures SweepFrom(time, idle, act + [j], dt) == SweepStep(SweepFrom(time, idle, act, dt), j, dt)
  {
    assert (act + [j])[..|act|] == act;
  }

  /** One frame of the pool: the whole sweep, whose kept list replaces the active list. */
  function Tick(p: Pool, dt: real): Pool {
    var w := SweepFrom(p.time, p.idle, p.active, dt);
    Pool(w.time, w.idle, w.kept)
  }

  lemma {:induction false} SurvivorsSnoc(act: seq<int>, x: int, time: seq<real>, dt: real)
    ensures Survivors(act + [x], time, dt) ==
      Survivors(act, time, dt) + (if 0 <= x < |time| && time[x] - dt > 0.0 then [x] else [])
  {
    if act == [] {
      assert act + [x] == [x];
      assert [x][1..] == [];
    } else {
      assert (act + [x])[1..] == act[1..] + [x];
      SurvivorsSnoc(act[1..], x, time, dt);
    }
  }

  /** Slot indices that can be swept over a countdown table of n slots. */
  predicate Sweepable(act: seq<int>, n: nat) {
    Distinct(act) && forall j :: 0 <= j < |act| ==> 0 <= act[j] < n
  }

  lemma SnocSplit(act: seq<int>)
    requires act != [] && Distinct(act)
    ensures var pre := act[..|act| - 1];
      act == pre + [act[|act| - 1]] && Distinct(pre) && act[|act| - 1] !in pre &&
      forall k :: 0 <= k < |pre| ==> pre[k] == act[k]
  {
  }

  /** One step of the sweep takes dt off the countdown of slot j only. */
  lemma SweepStepTime(w: Sweep, j: int, dt: real)
    requires 0 <= j < |w.time|
    ensures SweepStep(w, j, dt).time == w.time[j := w.time[j] - dt]
  {
  }

  /** The sweep takes dt off every swept countdown and touches no other slot. */
  lemma {:induction false} SweepTime(time: seq<real>, idle: set<int>, act: seq<int>, dt: real)
    requires Sweepable(act, |time|)
    ensures var w := SweepFrom(time, idle, act, dt);
      |w.time| == |time| &&
      (forall j :: 0 <= j < |act| ==> w.time[act[j]] == time[act[j]] - dt) &&
      (forall i :: 0 <= i < |time| && i !in act ==> w.time[i] == time[i])
  {
    if act != [] {
      var pre := act[..|act| - 1];
      var j := act[|act| - 1];
      SnocSplit(act);
      SweepTime(time, idle, pre, dt);
      var w0 := SweepFrom(time, idle, pre, dt);
      SweepStepTime(w0, j, dt);
      var w := SweepFrom(time, idle, act, dt);
      assert w == SweepStep(w0, j, dt);
      forall k | 0 <= k < |act|
        ensures w.time[act[k]] == time[act[k]] - dt
      {
        if k < |pre| {
          assert act[k] == pre[k] != j;
        }
      }
      forall i | 0 <= i < |time| && i !in act
        ensures w.time[i] == time[i]
      {
        assert i !in pre && i != j;
      }
    }
  }

  /** One step of the sweep keeps slot j iff its countdown stays positive. */
  lemma SweepStepKept(w: Sweep, j: int, dt: real)
    requires 0 <= j < |w.time|
    ensures SweepStep(w, j, dt).kept == w.kept + (if w.time[j] - dt > 0.0 then [j] else [])
  {
  }

  /** The sweep keeps exactly the survivors, in their original order. */
  lemma {:induction false} SweepKept(time: seq<real>, idle: set<int>, act: seq<int>, dt: real)
    requires Sweepable(act, |time|)
    ensures SweepFrom(time, idle, act, dt).kept == Survivors(act, time, dt)
  {
    if act != [] {
      var pre := act[..|act| - 1];
      var j := act[|act| - 1];
      SnocSplit(act);
      SweepKept(time, idle, pre, dt);
      SweepTime(time, idle, pre, dt);
      var w0 := SweepFrom(time, idle, pre, dt);
      assert w0.time[j] == time[j];
      SweepStepKept(w0, j, dt);
      SurvivorsSnoc(pre, j, time, dt);
      assert SweepFrom(time, idle, act, dt) == SweepStep(w0, j, dt);
    }
  }

  /** One step of the sweep returns slot j to idle iff its countdown runs out. */
  lemma SweepStepIdle(w: Sweep, j: int, dt: real)
    requires 0 <= j < |w.time|
    ensures SweepStep(w, j, dt).idle == w.idle + (if w.time[j] - dt > 0.0 then {} else {j})
  {
  }

  lemma ExpiredSnoc(act: seq<int>, j: int, time: seq<real>, dt: real)
    requires 0 <= j < |time|
    ensures Expired(act + [j], time, dt) ==
      Expired(act, time, dt) + (if time[j] - dt > 0.0 then {} else {j})
  {
  }

  /** The sweep returns exactly the expired slots to idle. */
  lemma {:induction false} SweepIdle(time: seq<real>, idle: set<int>, act: seq<int>, dt: real)
    requires Sweepable(act, |time|)
    ensures SweepFrom(time, idle, act, dt).idle == idle + Expired(act, time, dt)
  {
    if act != [] {
      var pre := act[..|act| - 1];
      var j := act[|act| - 1];
      SnocSplit(act);
      SweepIdle(time, idle, pre, dt);
      SweepTime(time, idle, pre, dt);
      var w0 := SweepFrom(time, idle, pre, dt);
      assert w0.time[j] == time[j];
      SweepStepIdle(w0, j, dt);
      ExpiredSnoc(pre, j, time, dt);
      assert SweepFrom(time, idle, act, dt) == SweepStep(w0, j, dt);
    }
  }

  /** No slot is lost or duplicated: every swept slot ends up kept or idle, once. */
  lemma {:induction false} SweepCount(time: seq<real>, idle: set<int>, act: seq<int>, dt: real)
    requires Sweepable(act, |time|)
    requires forall j :: 0 <= j < |act| ==> act[j] !in idle
    ensures var w := SweepFrom(time, idle, act, dt);
      |w.idle| + |w.kept| == |idle| + |act|
  {
    if act != [] {
      var pre := act[..|act| - 1];
      var j := act[|act| - 1];
      SnocSplit(act);
      SweepCount(time, idle, pre, dt);
      SweepIdle(time, idle, pre, dt);
      SweepTime(time, idle, pre, dt);
      assert j !in SweepFrom(time, idle, pre, dt).idle;
    }
  }

  /** Tick moves dt off every active countdown, leaves the other slots alone, keeps
      the survivors in order, and returns every expired slot to idle. */
  lemma TickSpec(p: Pool, dt: real)
    requires Inv(p)
    ensures var q := Tick(p, dt);
      |q.time| == |p.time| &&
      (forall j :: 0 <= j < |p.active| ==> q.time[p.active[j]] == p.time[p.active[j]] - dt) &&
      (forall i :: 0 <= i < |p.time| && i !in p.active ==> q.time[i] == p.time[i]) &&
      q.active == Survivors(p.active, p.time, dt) &&
      q.idle == p.idle + Expired(p.active, p.time, dt)
  {
    SweepTime(p.time, p.idle, p.active, dt);
    SweepKept(p.time, p.idle, p.active, dt);
    SweepIdle(p.time, p.idle, p.active, dt);
  }

  /** Tick keeps the bookkeeping invariant. */
  lemma TickPreservesInv(p: Pool, dt: real)
    requires Inv(p)
    ensures Inv(Tick(p, dt))
  {
    var q := Tick(p, dt);
    assert |q.time| == |p.time| by {
      SweepTime(p.time, p.idle, p.active, dt);
    }
    assert q.idle == p.idle + Expired(p.active, p.time, dt) by {
      SweepIdle(p.time, p.idle, p.active, dt);
    }
    assert q.active == Survivors(p.active, p.time, dt) by {
      SweepKept(p.time, p.idle, p.active, dt);
    }
    assert |q.idle| + |q.active| == |q.time| by {
      SweepCount(p.time, p.idle, p.active, dt);
    }
    forall j | 0 <= j < |q.active|
      ensures 0 <= q.active[j] < |q.time| && q.active[j] !in q.idle
    {
      assert q.active[j] in Survivors(p.active, p.time, dt);
    }
  }

  /** The expiry rule, slot by slot: an active slot stays active iff its countdown
      after the tick is still positive, and otherwise it is idle. Idle slots stay
      idle and keep their countdown. */
  lemma TickExpiryRule(p: Pool, dt: real)
    requires Inv(p)
    ensures var q := Tick(p, dt);
      |q.time| == |p.time| &&
      (forall j :: 0 <= j < |p.active| ==>
        var i := p.active[j];
        q.time[i] == p.time[i] - dt &&
        (i in q.active <==> q.time[i] > 0.0) &&
        (i in q.idle <==> q.time[i] <= 0.0)) &&
      (forall i :: i in p.idle ==> i in q.idle && i !in q.active && q.time[i] == p.time[i])
  {
    TickSpec(p, dt);
    TickPreservesInv(p, dt);
  }

  lemma {:induction false} DistinctToSet(s: seq<int>)
    requires Distinct(s)
    ensures |set x | x in s| == |s|
  {
    if s != [] {
      var t := s[..|s| - 1];
      var x := s[|s| - 1];
      SnocSplit(s);
      assert (set y | y in s) == (set y | y in t) + {x};
      DistinctToSet(t);
    }
  }

  /** Under the invariant every slot of the pool is in exactly one of the two
      collections. */
  lemma Partition(p: Pool)
    requires Inv(p)
    ensures forall i :: 0 <= i < |p.time| ==> (i in p.idle <==> i !in p.active)
  {
    var a := set x | x in p.active;
    DistinctToSet(p.active);
    var all := Range(|p.time|);
    var u := p.idle + a;
    assert p.idle !! a;
    assert |u| == |p.time|;
    assert u <= all;
    assert |all - u| == |all| - |u|;
    assert all - u == {};
    forall i | 0 <= i < |p.time|
      ensures i in p.idle <==> i !in p.active
    {
      assert i in all;
    }
  }

  /** C#'s  a^i  for a natural exponent i (Mathf.Pow at integral exponents). */
  function Pow(a: real, i: nat): real {
    if i == 0 then 1.0 else a * Pow(a, i - 1)
  }

  /** The volume of slot i: the first voice plays at initVolume, each further
      concurrent voice is attenuated once more. */
  function Volume(initVolume: real, attenuate: real, i: nat): real {
    initVolume * Pow(attenuate, i)
  }

  lemma {:induction false} PowAntitone(a: real, i: nat, j: nat)
    requires 0.0 <= a <= 1.0 && i <= j
    ensures 0.0 <= Pow(a, j) <= Pow(a, i)
  {
    if i < j {
      PowAntitone(a, i, j - 1);
      assert Pow(a, j) == a * Pow(a, j - 1);
      assert a * Pow(a, j - 1) <= Pow(a, j - 1);
    } else if j > 0 {
      PowAntitone(a, 0, j - 1);
    }
  }

  /** Lower slot indices are at least as loud, and slot 0 plays at initVolume, when
      the attenuation ratio lies in [0, 1]. */
  lemma VolumesNonIncreasing(initVolume: real, attenuate: real, i: nat, j: nat)
    requires 0.0 <= initVolume && 0.0 <= attenuate <= 1.0 && i <= j
    ensures Volume(initVolume, attenuate, 0) == initVolume
    ensures Volume(initVolume, attenuate, j) <= Volume(initVolume, attenuate, i)
  {
    PowAntitone(attenuate, i, j);
  }

  /** Acquire is determined by the least idle slot: it takes that slot and nothing else. */
  lemma AcquireLeast(p: Pool, len: real, i: int)
    requires Inv(p) && i in p.idle && forall j :: j in p.idle ==> i <= j
    ensures Acquire(p, len) == Acquired(Pool(p.time[i := len], p.idle - {i}, p.active + [i]), Some(i))
  {
    assert Min(p.idle) == i;
  }

  lemma ThreeVoicesFirst(len: real)
    ensures Acquire(Init(3), len) == Acquired(Pool([len, 0.0, 0.0], {1, 2}, [0]), Some(0))
  {
    var p0 := Init(3);
    assert p0 == Pool([0.0, 0.0, 0.0], {0, 1, 2}, []) by {
      assert p0.time == [0.0, 0.0, 0.0];
      assert p0.idle == {0, 1, 2};
    }
    AcquireLeast(p0, len, 0);
    assert p0.time[0 := len] == [len, 0.0, 0.0];
    assert p0.idle - {0} == {1, 2};
  }

  lemma ThreeVoicesSecond(len: real)
    ensures Acquire(Pool([len, 0.0, 0.0], {1, 2}, [0]), len) ==
      Acquired(Pool([len, len, 0.0], {2}, [0, 1]), Some(1))
  {
    var p1 := Pool([len, 0.0, 0.0], {1, 2}, [0]);
    AcquireLeast(p1, len, 1);
    assert p1.time[1 := len] == [len, len, 0.0];
    assert p1.idle - {1} == {2};
  }

  lemma ThreeVoicesThird(len: real)
    ensures Acquire(Pool([len, len, 0.0], {2}, [0, 1]), len) ==
      Acquired(Pool([len, len, len], {}, [0, 1, 2]), Some(2))
  {
    var p2 := Pool([len, len, 0.0], {2}, [0, 1]);
    AcquireLeast(p2, len, 2);
    assert p2.time[2 := len] == [len, len, len];
    assert p2.idle - {2} == {};
  }

  /** Three voices: three plays take slots 0, 1 and 2 in that order, a fourth finds
      none free and changes nothing. */
  lemma ThreeVoicesScenario(len: real)
    ensures var a1 := Acquire(Init(3), len);
      var a2 := Acquire(a1.pool, len);
      var a3 := Acquire(a2.pool, len);
      a1 == Acquired(Pool([len, 0.0, 0.0], {1, 2}, [0]), Some(0)) &&
      a2 == Acquired(Pool([len, len, 0.0], {2}, [0, 1]), Some(1)) &&
      a3 == Acquired(Pool([len, len, len], {}, [0, 1, 2]), Some(2)) &&
      Acquire(a3.pool, len) == Acquired(a3.pool, None)
  {
    ThreeVoicesFirst(len);
    ThreeVoicesSecond(len);
    ThreeVoicesThird(len);
  }

  /** A voice started with duration 1.0 is still active after a tick of 0.6 (0.4
      left) and back in the stock after a further tick of 0.5. */
  lemma ExpiryScenario()
    ensures var a := Acquire(Init(1), 1.0);
      var q1 := Tick(a.pool, 0.6);
      a == Acquired(Pool([1.0], {}, [0]), Some(0)) &&
      q1 == Pool([0.4], {}, [0]) &&
      Tick(q1, 0.5) == Pool([-0.1], {0}, [])
  {
    var p0 := Init(1);
    assert p0 == Pool([0.0], {0}, []) by {
      assert p0.time == [0.0];
      assert p0.idle == {0};
    }
    AcquireLeast(p0, 1.0, 0);
    var p1 := Pool([1.0], {}, [0]);
    assert Acquire(p0, 1.0).pool == p1 by {
      assert p0.time[0 := 1.0] == [1.0];
    }
    assert [0][..0] == [];
    assert SweepFrom(p1.time, p1.idle, [0], 0.6) == Sweep([0.4], {}, [0]) by {
      assert [1.0][0 := 0.4] == [0.4];
    }
    assert SweepFrom([0.4], {}, [0], 0.5) == Sweep([-0.1], {0}, []) by {
      assert [0.4][0 := -0.1] == [-0.1];
    }
  }
}
