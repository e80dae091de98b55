/** The Sequencer: a queue of timed events, the first of which is moved onto
    an "enacting" list and progressed every frame until its time runs out.
    Unity's frame loop, Time.deltaTime and the effects of the events'
    actions (logging, animation, interpolation, delegates) are outside the
    model: a frame is a call to Update with its frame time, and an action is
    an identifier the Sequencer appends to its trace when the event runs. */
module Sequencing {
  import opened Common
  import opened Seqs

  /** What an event does each frame it runs: nothing (a delay) or an
      external action, named by an identifier. */
  datatype Action = Wait | Act(id: nat)

  class Event {
    /** Time spent on the enacting list so far. */
    var time: real
    /** The event leaves the enacting list once time reaches maxTime. */
    const maxTime: real
    /** Time after which the event, when it is the last one enacting, would
        advance the queue. */
    const runSubsequentTime: real
    /** DoAction. */
    const act: Action

    /** Event(maxTime, runSubsequentTime) */
    constructor (maxTime: real, runSubsequentTime: real, act: Action)
      ensures time == 0.0 && this.maxTime == maxTime && this.runSubsequentTime == runSubsequentTime
      ensures this.act == act
    {
      time := 0.0;
      this.maxTime := maxTime;
      this.runSubsequentTime := runSubsequentTime;
      this.act := act;
    }

    /** Event(maxTime): the queue may move on when the event ends. */
    constructor Lasting(maxTime: real, act: Action)
      ensures time == 0.0 && this.maxTime == maxTime && runSubsequentTime == maxTime && this.act == act
    {
      time := 0.0;
      this.maxTime := maxTime;
      runSubsequentTime := maxTime;
      this.act := act;
    }

    /** DelayEvent(delay): does nothing for `delay` seconds. */
    constructor Delay(delay: real)
      ensures time == 0.0 && maxTime == delay && runSubsequentTime == delay && act == Wait
    {
      time := 0.0;
      maxTime := delay;
      runSubsequentTime := delay;
      act := Wait;
    }

    /** InstantEvent: a lifespan of 0, so it acts in exactly one frame.
        MessageEvent, AnimationEvent, InterpolationEvent and MethodEvent are
        instant events that differ only in their action. */
    constructor Instant(id: nat)
      ensures time == 0.0 && maxTime == 0.0 && runSubsequentTime == 0.0 && act == Act(id)
    {
      time := 0.0;
      maxTime := 0.0;
      runSubsequentTime := 0.0;
      act := Act(id);
    }

    /** Progress(dt): runs the action, which is returned, then ages the event by dt. */
    method Progress(dt: real) returns (did: Action)
      modifies this
      ensures time == old(time) + dt && did == act
    {
      did := act;
      time := time + dt;
    }

    /** BeyondMaxTime: the event has lived at least its lifespan. */
    predicate BeyondMaxTime()
      reads this
      ensures BeyondMaxTime() <==> maxTime <= time
    {
      time >= maxTime
    }

    /** BeyondRunSubsequentTime: the event has lived at least its
        run-subsequent time. */
    predicate BeyondRunSubsequentTime()
      reads this
      ensures BeyondRunSubsequentTime() <==> runSubsequentTime <= time
    {
      time >= runSubsequentTime
    }
  }

  /** AddFront on a queue: at the front when the queue is empty, otherwise
      just behind the first event. */
  function AddedFront(q: seq<Event>, ev: Event): (r: seq<Event>)
    ensures |r| == |q| + 1 && multiset(r) == multiset(q) + multiset{ev}
    ensures q == [] ==> r == [ev]
    ensures q != [] ==> r[0] == q[0] && r[1] == ev && r[2..] == q[1..]
  {
    if q == [] then [ev] else assert q == [q[0]] + q[1..]; [q[0], ev] + q[1..]
  }

  /** An event added to the front and removed again leaves the queue as it
      was, provided it was not queued already. */
  lemma AddedFrontThenRemoved(q: seq<Event>, ev: Event)
    requires ev !in q
    ensures RemoveFirst(AddedFront(q, ev), ev) == q
  {
    if q != [] {
      RemoveFirstAfterPrefix([q[0]], ev, q[1..]);
      assert [q[0]] + [ev] + q[1..] == AddedFront(q, ev);
    }
  }

  /** The events of `s` that have not yet reached their lifespan, in order. */
  ghost function Alive(s: seq<Event>): (r: seq<Event>)
    reads set e | e in s
    ensures |r| <= |s|
    ensures forall e :: e in r ==> e in s && !e.BeyondMaxTime()
  {
    if s == [] then []
    else Alive(s[..|s| - 1]) + (if s[|s| - 1].BeyondMaxTime() then [] else [s[|s| - 1]])
  }

  /** The times of the events of `s`, in order. */
  ghost function TimesOf(s: seq<Event>): (ts: seq<real>)
    reads set e | e in s
    ensures |ts| == |s| && forall j :: 0 <= j < |s| ==> ts[j] == s[j].time
  {
    seq(|s|, j reads set e | e in s requires 0 <= j < |s| => s[j].time)
  }

  /** The times `ts`, each one frame of length dt later. */
  function Shifted(ts: seq<real>, dt: real): (r: seq<real>)
    ensures |r| == |ts| && forall j :: 0 <= j < |ts| ==> r[j] == ts[j] + dt
  {
    seq(|ts|, j requires 0 <= j < |ts| => ts[j] + dt)
  }

  /** The events of `s` whose times `ts` are still short of their lifespans. */
  function Survivors(s: seq<Event>, ts: seq<real>): (r: seq<Event>)
    requires |ts| == |s|
    ensures |r| <= |s|
    ensures forall e :: e in r ==> e in s
  {
    if s == [] then []
    else Survivors(s[..|s| - 1], ts[..|s| - 1]) + (if ts[|s| - 1] >= s[|s| - 1].maxTime then [] else [s[|s| - 1]])
  }

  /** With the events' times at `ts`, the alive events are the survivors. */
  lemma {:induction false} AliveIsSurvivors(s: seq<Event>, ts: seq<real>)
    requires |ts| == |s| && forall j :: 0 <= j < |s| ==> s[j].time == ts[j]
    ensures Alive(s) == Survivors(s, ts)
  {
    if s != [] {
      AliveIsSurvivors(s[..|s| - 1], ts[..|s| - 1]);
    }
  }

  /** The actions `s` performs when each of its events runs once, in order. */
  function Actions(s: seq<Event>): (r: seq<nat>)
    ensures |r| <= |s|
  {
    if s == [] then []
    else Actions(s[..|s| - 1]) + (if s[|s| - 1].act.Act? then [s[|s| - 1].act.id] else [])
  }

  /** The events an Update progresses: the enacting list, or, when that is
      empty, the head of the queue. */
  function Started(q: seq<Event>, e: seq<Event>): (s: seq<Event>)
    ensures |s| <= |e| + 1
    ensures e == [] && q != [] ==> s == [q[0]]
    ensures e != [] || q == [] ==> s == e
  {
    if e == [] && q != [] then [q[0]] else e
  }

  /** Total length of the frames `dts`. */
  function Elapsed(dts: seq<real>): (r: real)
    ensures (forall j :: 0 <= j < |dts| ==> dts[j] >= 0.0) ==> r >= 0.0
  {
    if dts == [] then 0.0 else dts[0] + Elapsed(dts[1..])
  }

  /** How many frames an enacting event that has aged `time` keeps running
      when the frames last `dts`: each frame it runs and ages, and it
      leaves after the first frame that brings its time to `maxTime`.
      None when it outlasts all of `dts`. */
  function FramesToRetire(time: real, maxTime: real, dts: seq<real>): (n: Option<nat>)
    ensures n.Some? ==> 1 <= n.value <= |dts|
    decreases |dts|
  {
    if dts == [] then None
    else if time + dts[0] >= maxTime then Some(1)
    else match FramesToRetire(time + dts[0], maxTime, dts[1..])
      case None => None
      case Some(m) => Some(m + 1)
  }

  /** A frame count `n` seen from `k` frames earlier. */
  function Later(n: Option<nat>, k: nat): (r: Option<nat>)
    ensures r.None? <==> n.None?
    ensures n.Some? ==> r.value - k == n.value
  {
    match n
    case None => None
    case Some(m) => Some(m + k)
  }

  /** One frame of FramesToRetire: the event either retires in it, or its
      count is one more than the count from its new time. */
  lemma FramesToRetireStep(time: real, maxTime: real, dts: seq<real>, k: nat)
    requires dts != []
    ensures time + dts[0] >= maxTime ==> Later(FramesToRetire(time, maxTime, dts), k) == Some(k + 1)
    ensures time + dts[0] < maxTime ==>
              Later(FramesToRetire(time, maxTime, dts), k) == Later(FramesToRetire(time + dts[0], maxTime, dts[1..]), k + 1)
  {
  }

  /** The first frames of `dts[1..]` are the frames of `dts` after its first. */
  lemma ElapsedCons(dts: seq<real>, n: nat)
    requires 1 <= n <= |dts|
    ensures Elapsed(dts[..n]) == dts[0] + Elapsed(dts[1..][..n - 1])
  {
    assert dts[..n][1..] == dts[1..][..n - 1];
  }

  /** An event retires after exactly n frames if and only if its time
      reaches maxTime in the n-th frame and in no earlier one. */
  lemma {:induction false} RetiresAtFirstReach(time: real, maxTime: real, dts: seq<real>, n: nat)
    ensures FramesToRetire(time, maxTime, dts) == Some(n) <==>
              1 <= n <= |dts| && time + Elapsed(dts[..n]) >= maxTime
              && forall m :: 1 <= m < n ==> time + Elapsed(dts[..m]) < maxTime
    decreases |dts|
  {
    if dts != [] && 1 <= n <= |dts| {
      ElapsedCons(dts, 1);
      assert Elapsed(dts[..1]) == dts[0] by {
        assert dts[1..][..0] == [];
      }
      if time + dts[0] < maxTime && n > 1 {
        var rest := dts[1..];
        RetiresAtFirstReach(time + dts[0], maxTime, rest, n - 1);
        ElapsedCons(dts, n);
        forall m | 2 <= m < n
          ensures time + Elapsed(dts[..m]) == time + dts[0] + Elapsed(rest[..m - 1])
        {
          ElapsedCons(dts, m);
        }
        if forall m :: 1 <= m < n - 1 ==> time + dts[0] + Elapsed(rest[..m]) < maxTime {
          forall m | 1 <= m < n ensures time + Elapsed(dts[..m]) < maxTime {
            if m > 1 {
              assert time + dts[0] + Elapsed(rest[..m - 1]) < maxTime;
            }
          }
        }
        if forall m :: 1 <= m < n ==> time + Elapsed(dts[..m]) < maxTime {
          forall m | 1 <= m < n - 1 ensures time + dts[0] + Elapsed(rest[..m]) < maxTime {
            assert time + Elapsed(dts[..m + 1]) < maxTime;
          }
        }
      }
    }
  }

  /** A DelayEvent(d) enacted from its creation leaves the list after the
      first frame by whose end d seconds have passed. */
  lemma DelayRetiresOnceDue(d: real, dts: seq<real>, n: nat)
    ensures FramesToRetire(0.0, d, dts) == Some(n) <==>
              1 <= n <= |dts| && Elapsed(dts[..n]) >= d && forall m :: 1 <= m < n ==> Elapsed(dts[..m]) < d
  {
    RetiresAtFirstReach(0.0, d, dts, n);
  }

  /** An InstantEvent runs in exactly one frame: its first frame, of any
      non-negative length, retires it. */
  lemma InstantRunsOnce(dts: seq<real>)
    requires dts != [] && dts[0] >= 0.0
    ensures FramesToRetire(0.0, 0.0, dts) == Some(1)
  {
  }

  /** Update's loop has handled the first k started events `s`, whose
      times after the frame are `t1`: their survivors and then the
      unhandled rest make up `e`, and the cursor i stands at the first
      unhandled one. */
  ghost predicate Arranged(s: seq<Event>, t1: seq<real>, k: int, e: seq<Event>, i: int)
  {
    |t1| == |s| && 0 <= k <= |s| && e == Survivors(s[..k], t1[..k]) + s[k..] && i == |Survivors(s[..k], t1[..k])|
  }

  /** The cursor of an arranged list stands on the next started event. */
  lemma ArrangedAt(s: seq<Event>, t1: seq<real>, k: int, e: seq<Event>, i: int)
    requires Arranged(s, t1, k, e, i) && 0 <= i < |e|
    ensures k < |s| && e[i] == s[k]
  {
  }

  /** Once the cursor has passed the whole list, every started event is
      handled and the list holds exactly the survivors. */
  lemma ArrangedDone(s: seq<Event>, t1: seq<real>, k: int, e: seq<Event>, i: int)
    requires Arranged(s, t1, k, e, i) && i >= |e|
    ensures k == |s| && s[..k] == s && e == Survivors(s, t1)
  {
    assert t1[..|s|] == t1;
  }

  /** Handling one more event adds it to the survivors unless its lifespan is reached. */
  lemma SurvivorsSnoc(s: seq<Event>, t1: seq<real>, k: int)
    requires |t1| == |s| && 0 <= k < |s|
    ensures Survivors(s[..k + 1], t1[..k + 1])
            == Survivors(s[..k], t1[..k]) + (if t1[k] >= s[k].maxTime then [] else [s[k]])
  {
    assert s[..k + 1][..k] == s[..k] && t1[..k + 1][..k] == t1[..k];
  }

  /** Handling the next event keeps the list arranged: a survivor stays
      and the cursor passes it, anything else is removed in place. */
  lemma ArrangedStep(s: seq<Event>, t1: seq<real>, k: int, e: seq<Event>, i: int)
    requires Arranged(s, t1, k, e, i) && NoDup(s) && k < |s|
    ensures t1[k] >= s[k].maxTime ==> Arranged(s, t1, k + 1, RemoveFirst(e, s[k]), i)
    ensures t1[k] < s[k].maxTime ==> Arranged(s, t1, k + 1, e, i + 1)
  {
    var done := Survivors(s[..k], t1[..k]);
    SurvivorsSnoc(s, t1, k);
    assert e == done + [s[k]] + s[k + 1..] by {
      assert s[k..] == [s[k]] + s[k + 1..];
    }
    if t1[k] >= s[k].maxTime {
      Distinct(s, k);
      assert s[k] !in done;
      RemoveFirstAfterPrefix(done, s[k], s[k + 1..]);
    } else {
      assert e == (done + [s[k]]) + s[k + 1..];
    }
  }

  /** Distinct positions of a repeat-free list hold different events. */
  lemma Distinct(s: seq<Event>, k: int)
    requires NoDup(s) && 0 <= k < |s|
    ensures forall j :: 0 <= j < |s| && j != k ==> s[j] != s[k]
  {
    forall j | 0 <= j < |s| && j != k ensures s[j] != s[k] {
      if j < k {
        assert DistinctAt(s, j, k);
      } else {
        assert DistinctAt(s, k, j);
      }
    }
  }

  /** The actions of one more event follow those before it. */
  lemma ActionsSnoc(s: seq<Event>, k: int)
    requires 0 <= k < |s|
    ensures Actions(s[..k + 1]) == Actions(s[..k]) + Actions([s[k]])
  {
    assert s[..k + 1][..k] == s[..k];
  }

  class Sequencer {
    /** Events waiting their turn. */
    var queue: seq<Event>
    /** Events that run every frame. */
    var enacting: seq<Event>
    /** The actions the events have performed, oldest first. */
    var trace: seq<nat>

    constructor ()
      ensures queue == [] && enacting == [] && trace == []
    {
      queue := [];
      enacting := [];
      trace := [];
    }

    /** Add: the event goes to the back of the queue. */
    method Add(ev: Event)
      modifies this
      ensures queue == old(queue) + [ev] && enacting == old(enacting) && trace == old(trace)
    {
      queue := queue + [ev];
    }

    /** AddFront: the event goes behind the first queued event. */
    method AddFront(ev: Event)
      modifies this
      ensures queue == AddedFront(old(queue), ev) && enacting == old(enacting) && trace == old(trace)
    {
      if |queue| == 0 {
        queue := queue + [ev];
      } else {
        queue := queue[..1] + [ev] + queue[1..];
      }
    }

    /** Halt: the first occurrence of the event stops running. */
    method Halt(ev: Event)
      modifies this
      ensures enacting == RemoveFirst(old(enacting), ev) && queue == old(queue) && trace == old(trace)
    {
      enacting := RemoveFirst(enacting, ev);
    }

    /** Remove: the first occurrence of the event leaves the queue. */
    method Remove(ev: Event)
      modifies this
      ensures queue == RemoveFirst(old(queue), ev) && enacting == old(enacting) && trace == old(trace)
    {
      queue := RemoveFirst(queue, ev);
    }

    /** AdvanceQueue: the head of the queue, if any, moves to the end of the
        enacting list; no event is gained or lost. */
    method AdvanceQueue()
      modifies this
      ensures old(queue) == [] ==> queue == [] && enacting == old(enacting)
      ensures old(queue) != [] ==> queue == old(queue)[1..] && enacting == old(enacting) + [old(queue)[0]]
      ensures multiset(queue + enacting) == old(multiset(queue + enacting)) && trace == old(trace)
    {
      if |queue| == 0 {
        return;
      }
      var ev := queue[0];
      queue := queue[1..];
      enacting := enacting + [ev];
      assert old(queue) == [ev] + queue;
    }

    /** Tools.InterpolateAndWait: an instant interpolation event, then a
        delay as long as the travel time, join the back of the queue. */
    method InterpolateAndWait(interpolate: nat, travelTime: real) returns (move: Event, wait: Event)
      modifies this
      ensures fresh(move) && fresh(wait) && move != wait
      ensures queue == old(queue) + [move, wait] && enacting == old(enacting) && trace == old(trace)
      ensures move.act == Act(interpolate) && move.maxTime == 0.0 && move.time == 0.0
      ensures wait.act == Wait && wait.maxTime == travelTime && wait.time == 0.0
    {
      move := new Event.Instant(interpolate);
      Add(move);
      wait := new Event.Delay(travelTime);
      Add(wait);
    }

    /** One pass of Update's loop at index i: the event there runs its
        action and ages by dt; if that takes it beyond its lifespan it is
        halted (its first occurrence leaves the list) and the cursor stays,
        otherwise the cursor moves past it. */
    method RunAt(i: int, dt: real) returns (next: int)
      requires 0 <= i < |enacting|
      modifies this, enacting[i]
      ensures old(enacting[i]).time == old(enacting[i].time) + dt
      ensures trace == old(trace) + Actions([old(enacting[i])]) && queue == old(queue)
      ensures old(enacting[i]).BeyondMaxTime() ==> enacting == RemoveFirst(old(enacting), old(enacting[i])) && next == i
      ensures !old(enacting[i]).BeyondMaxTime() ==> enacting == old(enacting) && next == i + 1
    {
      var ev := enacting[i];
      var did := ev.Progress(dt);
      if did.Act? {
        trace := trace + [did.id];
      }
      // The source advances the queue here when i equals the list's length,
      // which cannot hold while i indexes the list.
      var late := ev.BeyondRunSubsequentTime();
      if i == |enacting| && late {
        assert false;
      }
      next := i + 1;
      if ev.BeyondMaxTime() {
        Halt(ev);
        next := next - 1;
      }
    }

    /** Update's loop has handled the first k started events `s`, whose
        times were `t0` before the frame and `t1` after it: the list is
        arranged, the handled events have their new times and the others
        their old ones, and the trace has grown from `tr0` by the handled
        events' actions. */
    ghost predicate Handled(s: seq<Event>, t0: seq<real>, t1: seq<real>, tr0: seq<nat>, k: int, i: int)
      reads this, set e | e in s
    {
      NoDup(s) && |t0| == |s| && Arranged(s, t1, k, enacting, i)
      && (forall j :: 0 <= j < k ==> s[j].time == t1[j])
      && (forall j :: k <= j < |s| ==> s[j].time == t0[j])
      && trace == tr0 + Actions(s[..k])
    }

    /** RunAt, seen from Update's loop: one more started event is handled. */
    method HandleNext(i: int, dt: real, ghost s: seq<Event>, ghost t0: seq<real>, ghost t1: seq<real>, ghost tr0: seq<nat>, ghost k: int)
      returns (next: int)
      requires 0 <= i < |enacting|
      requires |t1| == |t0| && forall j :: 0 <= j < |t0| ==> t1[j] == t0[j] + dt
      modifies this, enacting[i]
      ensures queue == old(queue) && 0 <= next <= |enacting| <= old(|enacting|)
      ensures |enacting| - next < old(|enacting|) - i
      ensures forall e :: e in enacting ==> e in old(enacting)
      ensures old(Handled(s, t0, t1, tr0, k, i)) ==> Handled(s, t0, t1, tr0, k + 1, next)
    {
      ghost var h := Handled(s, t0, t1, tr0, k, i);
      ghost var e0 := enacting;
      if h {
        ArrangedAt(s, t1, k, e0, i);
        Distinct(s, k);
        ArrangedStep(s, t1, k, e0, i);
        ActionsSnoc(s, k);
      }
      next := RunAt(i, dt);
    }

    /** The loop of Update over the enacting list `s`, whose events' times
        were `t0` before the frame and are to be `t1` after it. */
    method RunAll(dt: real, ghost s: seq<Event>, ghost t0: seq<real>, ghost t1: seq<real>)
      requires enacting == s && t0 == TimesOf(s) && t1 == Shifted(t0, dt)
      modifies this, s
      ensures queue == old(queue) && |enacting| <= |s|
      ensures forall e :: e in enacting ==> e in s
      ensures NoDup(s) ==>
                enacting == Survivors(s, t1) && trace == old(trace) + Actions(s)
                && forall j :: 0 <= j < |s| ==> s[j].time == t1[j]
    {
      ghost var nd := NoDup(s);
      assert nd ==> Handled(s, t0, t1, old(trace), 0, 0) by {
        assert s[..0] == [] && s[0..] == s;
      }
      ghost var k := 0;
      var i := 0;
      while i < |enacting|
        invariant 0 <= i <= |enacting| <= |s|
        invariant forall e :: e in enacting ==> e in s
        invariant queue == old(queue)
        invariant nd ==> Handled(s, t0, t1, old(trace), k, i)
        decreases |enacting| - i
      {
        assert enacting[i] in enacting;
        i := HandleNext(i, dt, s, t0, t1, old(trace), k);
        k := k + 1;
      }
      if nd {
        ArrangedDone(s, t1, k, enacting, i);
      }
    }

    /** Update's `for` loop: every enacting event runs its action and ages
        by dt, and leaves the list once its lifespan is reached. Only the
        listed events change, and the queue stays as it is. When the list
        holds no event twice, each event ran exactly once, in order, and the
        survivors are exactly those still within their lifespan. */
    method RunEnacting(dt: real)
      modifies this, enacting
      ensures queue == old(queue) && |enacting| <= old(|enacting|)
      ensures forall e :: e in enacting ==> e in old(enacting)
      ensures NoDup(old(enacting)) ==>
                (forall e :: e in old(enacting) ==> e.time == old(e.time) + dt)
                && enacting == Alive(old(enacting))
                && trace == old(trace) + Actions(old(enacting))
    {
      ghost var s := enacting;
      ghost var t0 := TimesOf(s);
      ghost var t1 := Shifted(t0, dt);
      RunAll(dt, s, t0, t1);
      if NoDup(s) {
        AliveIsSurvivors(s, t1);
        forall e | e in s ensures e.time == old(e.time) + dt {
          var j := FirstIndex(s, e);
          assert s[j].time == t1[j];
        }
      }
    }

    /** Update(dt), one frame: when nothing is enacting, the head of the
        queue starts; then the enacting events run (RunEnacting). The
        in-loop check `i == enacting.Count` can never hold inside the loop,
        so the queue never advances from there: the queue moves only when
        the enacting list was empty, and the enacting list never grows
        beyond one event if it held at most one. When the started events are
        distinct, each ran exactly once, in order, and the survivors are
        exactly those still within their lifespan. */
    method Update(dt: real)
      modifies this, Started(queue, enacting)
      ensures forall e :: e in old(queue) && e !in Started(old(queue), old(enacting)) ==> e.time == old(e.time)
      ensures queue == if old(enacting) == [] && old(queue) != [] then old(queue)[1..] else old(queue)
      ensures |enacting| <= |Started(old(queue), old(enacting))|
      ensures |old(enacting)| <= 1 ==> |enacting| <= 1
      ensures forall e :: e in enacting ==> e in Started(old(queue), old(enacting))
      ensures NoDup(Started(old(queue), old(enacting))) ==>
                (forall e :: e in Started(old(queue), old(enacting)) ==> e.time == old(e.time) + dt)
                && enacting == Alive(Started(old(queue), old(enacting)))
                && trace == old(trace) + Actions(Started(old(queue), old(enacting)))
    {
      ghost var s := Started(queue, enacting);
      if |enacting| == 0 && |queue| > 0 {
        AdvanceQueue();
      }
      assert enacting == s;
      label Started:
      RunEnacting(dt);
      assert forall e :: e in s ==> old@Started(e.time) == old(e.time);
    }

    /** Update(dt) while `e` is the only enacting event: `e` runs and ages
        by dt, and leaves exactly when that brings it to its lifespan; the
        queue waits. */
    method UpdateAlone(e: Event, dt: real)
      requires enacting == [e]
      modifies this, e
      ensures queue == old(queue) && e.time == old(e.time) + dt
      ensures enacting == if e.time >= e.maxTime then [] else [e]
    {
      Update(dt);
      assert [e][..0] == [];
    }

    /** Update called once per frame of `dts` while `e` is the only
        enacting event: `e` leaves the enacting list after exactly the
        number of frames FramesToRetire counts from its time, and stays
        when it outlasts `dts`; the queue waits meanwhile. */
    method UpdateFrames(e: Event, dts: seq<real>) returns (frames: nat)
      requires enacting == [e]
      modifies this, e
      ensures frames <= |dts| && queue == old(queue)
      ensures enacting == [] || (enacting == [e] && frames == |dts|)
      ensures FramesToRetire(old(e.time), e.maxTime, dts) == if enacting == [] then Some(frames) else None
    {
      frames := 0;
      while frames < |dts| && enacting == [e]
        invariant frames <= |dts| && queue == old(queue)
        invariant enacting == [] || enacting == [e]
        invariant enacting == [] ==> FramesToRetire(old(e.time), e.maxTime, dts) == Some(frames)
        invariant enacting == [e] ==>
                    FramesToRetire(old(e.time), e.maxTime, dts) == Later(FramesToRetire(e.time, e.maxTime, dts[frames..]), frames)
        decreases |dts| - frames
      {
        ghost var t := e.time;
        FramesToRetireStep(t, e.maxTime, dts[frames..], frames);
        assert dts[frames..][1..] == dts[frames + 1..];
        UpdateAlone(e, dts[frames]);
        frames := frames + 1;
      }
    }
  }
}
