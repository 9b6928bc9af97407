/** The growable array of `src/kernel/common/array.c`. */
module GrowableArray {

  /** The capacity after growing. */
  function Grown(capacity: nat): nat {
    capacity + capacity / 2
  }

  /** Growing makes room exactly from capacity 2 on. */
  lemma GrowsIff(capacity: nat)
    ensures Grown(capacity) > capacity <==> capacity >= 2
  {
  }

  class Array<T(0)> {
    var data: array<T>
    var size: nat
    var capacity: nat

    ghost predicate Valid()
      reads this
    {
      size <= capacity == data.Length && capacity >= 2
    }

    ghost function Items(): seq<T>
      requires Valid()
      reads this, data
    {
      data[..size]
    }

    /** `array_init` */
    constructor (n: nat)
      requires n >= 2
      ensures Valid() && Items() == [] && fresh(data) && capacity == n
    {
      size := 0;
      capacity := n;
      data := new T[n];
    }

    /** `array_emplace`: makes room for one more item, whose slot still holds anything. */
    method Emplace() returns (index: nat)
      requires Valid()
      modifies this
      ensures Valid() && index == old(size) && size == old(size) + 1
      ensures data[..index] == old(data[..size])
      ensures old(size) < old(capacity) ==> data == old(data) && capacity == old(capacity)
      ensures old(size) >= old(capacity) ==>
                fresh(data) && capacity == Grown(old(capacity)) == old(capacity) + old(capacity) / 2
    {
      if !(size < capacity) {
        var oldCapacity := capacity;
        var oldData := data;
        capacity := capacity + capacity / 2;
        data := new T[capacity];
        forall i | 0 <= i < oldCapacity {
          data[i] := oldData[i];
        }
      }
      index := size;
      size := size + 1;
    }

    /** `*ARRAY_EMPLACE(a, T) = x` */
    method Push(x: T)
      requires Valid()
      modifies this, data
      ensures Valid() && Items() == old(Items()) + [x]
      ensures data == old(data) || fresh(data)
    {
      var slot := Emplace();
      data[slot] := x;
    }
  }
}

/** The run queue of `src/kernel/proc.c`. */
module Scheduler {
  import opened GrowableArray

  /** A pointer to a process. */
  type Process = nat

  const NULL: Process := 0

  // ---- What the queue should do ----

  datatype Event = Schedule(proc: Process) | Next

  /** The queue after some events, and what the `Next` events returned. */
  datatype Served = Served(queue: seq<Process>, dispatched: seq<Process>)

  function Step(s: Served, e: Event): Served {
    match e
    case Schedule(p) => Served(s.queue + [p], s.dispatched)
    case Next =>
      if s.queue == [] then Served([], s.dispatched + [NULL])
      else Served(s.queue[1..], s.dispatched + [s.queue[0]])
  }

  function Serve(s: Served, events: seq<Event>): Served
    decreases |events|
  {
    if events == [] then s else Serve(Step(s, events[0]), events[1..])
  }

  function Nexts(events: seq<Event>): nat {
    if events == [] then 0 else (if events[0].Next? then 1 else 0) + Nexts(events[1..])
  }

  /** What was dispatched stays, and every `Next` dispatches once. */
  lemma {:induction false} ServeLength(s: Served, events: seq<Event>)
    ensures |Serve(s, events).dispatched| == |s.dispatched| + Nexts(events)
    ensures s.dispatched <= Serve(s, events).dispatched
    decreases |events|
  {
    if events != [] {
      ServeLength(Step(s, events[0]), events[1..]);
    }
  }

  /** Whatever else is scheduled meanwhile, the process at position `k` is dispatched by the
      (k + 1)-th `Next`, and not before it. */
  lemma {:induction false} ServedInTurn(s: Served, events: seq<Event>, k: nat)
    requires k < |s.queue|
    ensures Nexts(events) > k ==>
              |Serve(s, events).dispatched| > |s.dispatched| + k
              && Serve(s, events).dispatched[|s.dispatched| + k] == s.queue[k]
    ensures Nexts(events) <= k ==>
              |Serve(s, events).queue| > k - Nexts(events) && Serve(s, events).queue[k - Nexts(events)] == s.queue[k]
    decreases |events|
  {
    if events != [] {
      var s1 := Step(s, events[0]);
      ServeLength(s1, events[1..]);
      if events[0].Next? {
        if k > 0 {
          ServedInTurn(s1, events[1..], k - 1);
        } else {
          assert s1.dispatched[|s.dispatched|] == s.queue[0];
        }
      } else {
        ServedInTurn(s1, events[1..], k);
      }
    }
  }

  // ---- Timer ticks ----

  /** The current process and the queue, after a tick. */
  function Rotated(s: seq<Process>): seq<Process>
    requires s != []
  {
    s[1..] + [s[0]]
  }

  /** `t` ticks from `s`, the current process and the queue behind it. */
  function Ticked(s: seq<Process>, t: nat): (r: seq<Process>)
    requires s != []
    ensures |r| == |s|
    decreases t
  {
    if t == 0 then s else Rotated(Ticked(s, t - 1))
  }

  lemma StartTicking(s: seq<Process>)
    requires s != []
    ensures Ticked(s, 0) == s
  {
  }

  lemma NextTick(s: seq<Process>, t: nat)
    requires s != []
    ensures Ticked(s, t + 1) == Rotated(Ticked(s, t))
  {
  }

  /** Position `i` of a round of `n`, counting on past its end. */
  function Around(i: nat, n: nat): (r: nat)
    requires n > 0
    ensures r < n
    decreases i
  {
    if i < n then i else Around(i - n, n)
  }

  /** After `t` ticks, what was at position `i + t`, going round, is at `i`. */
  lemma {:induction false} TickedAt(s: seq<Process>, t: nat, i: nat)
    requires i < |s|
    ensures Ticked(s, t)[i] == s[Around(i + t, |s|)]
    decreases t
  {
    if t > 0 {
      if i + 1 < |s| {
        TickedAt(s, t - 1, i + 1);
      } else {
        TickedAt(s, t - 1, 0);
        assert i + t - |s| == t - 1;
      }
    }
  }

  /** Any `n` consecutive ticks dispatch each of the `n` processes exactly once. */
  lemma RoundRobin(s: seq<Process>, t: nat, p: Process)
    requires p in s && forall i, j :: 0 <= i < j < |s| ==> s[i] != s[j]
    ensures exists d :: t < d <= t + |s| && Ticked(s, d)[0] == p
    ensures forall c, d :: t < c < d <= t + |s| && Ticked(s, c)[0] == p ==> Ticked(s, d)[0] != p
  {
    hide Ticked;
    ComesRound(s, t, p);
    forall c, d | t < c < d <= t + |s| && Ticked(s, c)[0] == p
      ensures Ticked(s, d)[0] != p
    {
      TickedAt(s, c, 0);
      TickedAt(s, d, 0);
      DifferentTurns(|s|, c, d);
    }
  }

  lemma ComesRound(s: seq<Process>, t: nat, p: Process)
    requires p in s
    ensures exists d :: t < d <= t + |s| && Ticked(s, d)[0] == p
  {
    hide Ticked;
    var i :| 0 <= i < |s| && s[i] == p;
    var d := TurnOf(|s|, t, i);
    TickedAt(s, d, 0);
  }

  /** In every window of `n` ticks there is one at which position `i` comes round. */
  lemma {:induction false} TurnOf(n: nat, t: nat, i: nat) returns (d: nat)
    requires i < n
    ensures t < d <= t + n && Around(d, n) == i
    decreases t
  {
    if t < i {
      d := i;
    } else if t < n {
      d := n + i;
    } else {
      d := TurnOf(n, t - n, i);
      d := d + n;
    }
  }

  lemma {:induction false} DifferentTurns(n: nat, c: nat, d: nat)
    requires n > 0 && c < d && d - c < n
    ensures Around(c, n) != Around(d, n)
    decreases c
  {
    if c >= n {
      DifferentTurns(n, c - n, d - n);
    }
  }

  lemma {:induction false} TicksConserve(s: seq<Process>, t: nat)
    requires s != []
    ensures multiset(Ticked(s, t)) == multiset(s)
    decreases t
  {
    if t > 0 {
      TicksConserve(s, t - 1);
      var r := Ticked(s, t - 1);
      assert r == [r[0]] + r[1..];
    }
  }

  // ---- The two buffers ----

  class RunQueue {
    const procs: seq<Array<Process>>
    var front: nat
    var index: nat
    var current: Process

    ghost predicate Valid()
      reads this, procs
    {
      && |procs| == 2 && procs[0] != procs[1] && front < 2
      && procs[0].Valid() && procs[1].Valid() && procs[0].data != procs[1].data
      && index <= procs[front].size
    }

    /** What is still to run, in order. */
    ghost function Queue(): seq<Process>
      requires Valid()
      reads this, procs, procs[0].data, procs[1].data
    {
      procs[front].Items()[index..] + procs[1 - front].Items()
    }

    /** The current process and those behind it. */
    ghost function All(): seq<Process>
      requires Valid()
      reads this, procs, procs[0].data, procs[1].data
    {
      [current] + Queue()
    }

    /** `proc_init` */
    constructor ()
      ensures Valid() && Queue() == [] && fresh(procs[0]) && fresh(procs[1]) && fresh(procs[0].data)
              && fresh(procs[1].data)
    {
      var a := new Array<Process>(16);
      var b := new Array<Process>(16);
      procs := [a, b];
      front := 0;
      index := 0;
      current := NULL;
    }

    /** The buffers' storage is what it was, or new. */
    twostate predicate SameOrNew()
      requires |procs| == 2
      reads procs
    {
      forall i :: 0 <= i < 2 ==> procs[i].data == old(procs[i].data) || fresh(procs[i].data)
    }

    /** `proc_schedule` */
    method ProcSchedule(proc: Process)
      requires Valid()
      modifies procs[1 - front], procs[1 - front].data
      ensures Valid() && SameOrNew()
      ensures Queue() == old(Queue()) + [proc]
    {
      procs[1 - front].Push(proc);
    }

    /** `next_proc` */
    method NextProc() returns (proc: Process)
      requires Valid()
      modifies this`front, this`index, procs[front]
      ensures Valid() && SameOrNew()
      ensures old(Queue()) == [] ==> proc == NULL && Queue() == []
      ensures old(Queue()) != [] ==> proc == old(Queue())[0] && Queue() == old(Queue())[1..]
    {
      if index < procs[front].size {
        proc := procs[front].data[index];
        index := index + 1;
        return;
      }
      procs[front].size := 0;
      front := 1 - front;
      index := 0;
      if procs[front].size != 0 {
        proc := procs[front].data[index];
        index := index + 1;
        return;
      }
      proc := NULL;
    }

    /** The choice `kern_schedule` makes: the next process runs, or none does. */
    method KernSchedule()
      requires Valid()
      modifies this`front, this`index, this`current, procs[front]
      ensures Valid() && SameOrNew()
      ensures Served(Queue(), [current]) == Step(Served(old(Queue()), []), Next)
    {
      ghost var was := Queue();
      var proc := NextProc();
      ghost var now := Queue();
      if proc != NULL {
        current := proc;
      } else {
        current := NULL;
      }
      assert current == proc && Queue() == now;
      assert Served(now, [proc]) == Step(Served(was, []), Next);
    }

    /** `int_timer`: the current process goes to the end of the queue, the first one runs. */
    method IntTimer()
      requires Valid()
      modifies this`front, this`index, this`current, procs, procs[0].data, procs[1].data
      ensures Valid() && SameOrNew()
      ensures All() == Rotated(old(All()))
    {
      ghost var queue := Queue();
      ProcSchedule(current);
      ghost var now := Queue();
      assert now == queue + [old(current)];
      KernSchedule();
      assert All() == now;
    }

    /** A run of timer ticks. */
    method Ticks(n: nat) returns (dispatched: seq<Process>)
      requires Valid()
      modifies this`front, this`index, this`current, procs, procs[0].data, procs[1].data
      ensures Valid() && SameOrNew()
      ensures All() == Ticked(old(All()), n)
      ensures |dispatched| == n && forall t :: 0 <= t < n ==> dispatched[t] == Ticked(old(All()), t + 1)[0]
    {
      hide Ticked, Rotated, Queue;
      ghost var s := All();
      StartTicking(s);
      dispatched := [];
      for t := 0 to n
        invariant |procs| == 2 && Valid() && SameOrNew()
        invariant All() == Ticked(s, t)
        invariant |dispatched| == t && forall d :: 0 <= d < t ==> dispatched[d] == Ticked(s, d + 1)[0]
      {
        NextTick(s, t);
        IntTimer();
        dispatched := dispatched + [current];
      }
    }

    /** A run of events on the two buffers serves what the plain queue serves. */
    method Run(events: seq<Event>) returns (dispatched: seq<Process>)
      requires Valid()
      modifies this`front, this`index, procs, procs[0].data, procs[1].data
      ensures Valid() && SameOrNew()
      ensures Served(Queue(), dispatched) == Serve(Served(old(Queue()), []), events)
    {
      ghost var s := Served(Queue(), []);
      dispatched := [];
      for i := 0 to |events|
        invariant Valid() && SameOrNew()
        invariant Serve(Served(Queue(), dispatched), events[i..]) == Serve(s, events)
      {
        assert events[i..][0] == events[i] && events[i..][1..] == events[i + 1..];
        match events[i]
        case Schedule(p) =>
          ProcSchedule(p);
        case Next =>
          var proc := NextProc();
          dispatched := dispatched + [proc];
      }
    }
  }
}
