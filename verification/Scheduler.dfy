/** The round-robin scheduler over a chain of threads. */
module Scheduling {
  import opened Chains

  // A thread waits for a signal, or for none.
  datatype Signal = NoSignal | Signal(id: nat)

  class Thread {
    var running: bool
    var signal: Signal

    constructor ()
      ensures !running && signal == NoSignal
    {
      running, signal := false, NoSignal;
    }

    predicate CanRun()
      reads this
    {
      running && signal == NoSignal
    }

    method Await(signal: Signal)
      modifies this`signal
      ensures this.signal == signal
    {
      this.signal := signal;
    }

    method Emit(signal: Signal)
      modifies this`signal
      ensures this.signal == if old(this.signal) == signal then NoSignal else old(this.signal)
    {
      if this.signal == signal {
        this.signal := NoSignal;
      }
    }
  }

  // Steps around the circle from place c to place i, from 1 up to n.
  function Distance(c: nat, i: nat, n: nat): int {
    if c < i then i - c else n - c + i
  }

  // Place i is the first one behind c, around the circle, that may run.
  ghost predicate FirstBehind(runnable: seq<bool>, c: nat, i: nat) {
    && c < |runnable| && i < |runnable| && runnable[i]
    && forall j | 0 <= j < |runnable| && runnable[j] :: Distance(c, i, |runnable|) <= Distance(c, j, |runnable|)
  }

  // There is one such place at most.
  lemma FirstBehindOnce(runnable: seq<bool>, c: nat, i: nat, j: nat)
    requires FirstBehind(runnable, c, i) && FirstBehind(runnable, c, j)
    ensures i == j
  {
  }

  ghost predicate Turn(runnable: seq<bool>, c: nat, next: nat) {
    if exists i :: 0 <= i < |runnable| && runnable[i] then FirstBehind(runnable, c, next) else next == c
  }

  // What the scheduler does at its turns, while others change what may run: it goes on to the first
  // runnable place, and stays where it is when there is none.
  ghost predicate Schedule(runnable: seq<seq<bool>>, at: seq<nat>, n: nat) {
    && |at| == |runnable| + 1 && (forall t | 0 <= t < |runnable| :: |runnable[t]| == n) && (forall t | 0 <= t < |at| :: at[t] < n)
    && forall t | 0 <= t < |runnable| :: Turn(runnable[t], at[t], at[t + 1])
  }

  /**
   Nobody starves: in a chain of n threads, one that stays runnable for n turns is resumed in one of them,
   whatever becomes of the others.
   */
  lemma Fair(runnable: seq<seq<bool>>, at: seq<nat>, n: nat, i: nat)
    requires Schedule(runnable, at, n) && |runnable| == n && i < n
    requires forall t | 0 <= t < n :: runnable[t][i]
    ensures exists t :: 0 <= t < n && FirstBehind(runnable[t], at[t], i) && at[t + 1] == i
  {
    var t := FairFrom(runnable, at, n, i, 0);
    assert FirstBehind(runnable[t], at[t], i);
  }

  lemma {:induction false} FairFrom(runnable: seq<seq<bool>>, at: seq<nat>, n: nat, i: nat, t0: nat) returns (t: nat)
    requires Schedule(runnable, at, n) && |runnable| == n && i < n
    requires forall t | 0 <= t < n :: runnable[t][i]
    requires t0 < n && t0 + Distance(at[t0], i, n) <= n
    ensures t0 <= t < n && at[t + 1] == i && FirstBehind(runnable[t], at[t], i)
    decreases n - t0
  {
    assert Turn(runnable[t0], at[t0], at[t0 + 1]);
    assert runnable[t0][i];
    if at[t0 + 1] == i {
      t := t0;
    } else {
      t := FairFrom(runnable, at, n, i, t0 + 1);
    }
  }

  // No place that may run is nearer to c than place i.
  ghost predicate Nearest(runnable: seq<bool>, c: nat, i: nat) {
    forall j | 0 <= j < |runnable| && runnable[j] :: Distance(c, i, |runnable|) <= Distance(c, j, |runnable|)
  }

  lemma OneStep(runnable: seq<bool>, c: nat)
    requires c < |runnable|
    ensures Nearest(runnable, c, Succ(c, |runnable|)) && Distance(c, Succ(c, |runnable|), |runnable|) == 1
  {
  }

  lemma StepOn(runnable: seq<bool>, c: nat, i: nat)
    requires c < |runnable| && i < |runnable| && i != c && !runnable[i] && Nearest(runnable, c, i)
    ensures Nearest(runnable, c, Succ(i, |runnable|))
    ensures Distance(c, Succ(i, |runnable|), |runnable|) == Distance(c, i, |runnable|) + 1 <= |runnable|
  {
  }

  lemma NoneToRun(runnable: seq<bool>, c: nat, i: nat)
    requires c < |runnable| && i < |runnable| && Nearest(runnable, c, i) && (runnable[i] || i == c)
    ensures Turn(runnable, c, i)
  {
    if !runnable[i] {
      assert forall j | 0 <= j < |runnable| :: Distance(c, j, |runnable|) <= Distance(c, i, |runnable|);
    }
  }

  // Which threads of a chain may run.
  ghost function Runnable(items: seq<Item<Thread>>): (r: seq<bool>)
    reads set x | x in items :: x.value
    ensures |r| == |items| && forall i | 0 <= i < |items| :: r[i] == items[i].value.CanRun()
  {
    if items == [] then [] else Runnable(items[..|items| - 1]) + [items[|items| - 1].value.CanRun()]
  }

  // A thread that is resumed is one of the chain, runs and awaits nothing; if none is resumed, there is no such thread.
  ghost predicate Chosen(items: seq<Item<Thread>>, resumed: Item?<Thread>)
    reads set x | x in items :: x.value
  {
    if resumed == null then forall x | x in items :: !x.value.running || x.value.signal != NoSignal
    else resumed in items && resumed.value.running && resumed.value.signal == NoSignal
  }

  lemma ChosenAtTurn(items: seq<Item<Thread>>, c: nat, i: nat)
    requires c < |items| && i < |items| && Turn(Runnable(items), c, i)
    ensures Chosen(items, if items[i].value.CanRun() then items[i] else null)
  {
    hide Turn;
    NoneElse(Runnable(items), c, i);
  }

  lemma NoneElse(runnable: seq<bool>, c: nat, i: nat)
    requires c < |runnable| && i < |runnable| && Turn(runnable, c, i)
    ensures runnable[i] || forall k | 0 <= k < |runnable| :: !runnable[k]
  {
  }

  lemma NoThreads(items: seq<Item<Thread>>)
    requires items == []
    ensures Chosen(items, null)
  {
  }

  // Why the current thread's turn ended.
  datatype Yield = TIMER | AWAIT(signal: Signal) | SYSCALL | THREAD_EXIT | OTHER

  // What happens to the threads in between: a signal is emitted, a thread comes to await one, or is started or stopped.
  datatype Event = Emits(signal: Signal) | Awaits(place: nat, signal: Signal) | Sets(place: nat, running: bool)

  // The events of a turn, and how it ends.
  datatype Script = Script(events: seq<Event>, status: Yield)

  // Only other threads than the one at place i are made to wait or stopped.
  predicate Spares(script: Script, i: nat) {
    && (script.status == TIMER || script.status.AWAIT?)
    && forall e | 0 <= e < |script.events| :: script.events[e].Emits? || script.events[e].place != i
  }

  // The threads that were resumed are those that the places say.
  ghost predicate Logged(items: seq<Item<Thread>>, runnable: seq<seq<bool>>, at: seq<nat>, resumed: seq<Item?<Thread>>) {
    && |resumed| == |runnable| == |at| - 1
    && forall s | 0 <= s < |runnable| && at[s + 1] < |items| && at[s + 1] < |runnable[s]| && runnable[s][at[s + 1]] ::
         resumed[s] == items[at[s + 1]]
  }

  // The thread at place i could run at every turn and was not reached.
  ghost predicate Waiting(runnable: seq<seq<bool>>, at: seq<nat>, i: nat) {
    && |at| == |runnable| + 1 && (|runnable| > 0 ==> at[|runnable|] != i)
    && forall s | 0 <= s < |runnable| :: i < |runnable[s]| && runnable[s][i]
  }

  // The turns there were: what could run, whose turn it was, and who was resumed.
  datatype History = History(runnable: seq<seq<bool>>, at: seq<nat>, resumed: seq<Item?<Thread>>)

  // After these turns it is the turn of current, and the thread at place i was resumed, or can run still and could all along.
  ghost predicate OnTrack(items: seq<Item<Thread>>, h: History, current: Item?<Thread>, i: nat, can: bool) {
    && i < |items| && |h.at| == |h.runnable| + 1 == |h.resumed| + 1
    && h.at[|h.runnable|] < |items| && current == items[h.at[|h.runnable|]]
    && Schedule(h.runnable, h.at, |items|) && Logged(items, h.runnable, h.at, h.resumed)
    && (items[i] in h.resumed || (can && Waiting(h.runnable, h.at, i)))
  }

  lemma NoTurnYet(items: seq<Item<Thread>>, c: nat, i: nat)
    requires c < |items| && i < |items|
    ensures OnTrack(items, History([], [c], []), items[c], i, true)
  {
  }

  // Whose turn it is when the thread at place i still waits.
  lemma WhoseTurn(items: seq<Item<Thread>>, h: History, c: nat, i: nat, can: bool)
    requires c < |items| && OnTrack(items, h, items[c], i, can) && forall i, j | 0 <= i < j < |items| :: items[i] != items[j]
    ensures h.at[|h.runnable|] == c
    ensures items[i] in h.resumed || (can && (|h.runnable| > 0 ==> c != i))
  {
    hide Schedule, Logged;
    SamePlace(items, c, h.at[|h.runnable|]);
  }

  lemma OneTurnMore(items: seq<Item<Thread>>, h: History, c: nat, now: seq<bool>, next: nat, thread: Item?<Thread>, i: nat, can: bool)
    requires c < |items| && OnTrack(items, h, items[c], i, can) && h.at[|h.runnable|] == c
    requires |now| == |items| && next < |items| && Turn(now, c, next) && thread == if now[next] then items[next] else null
    requires items[i] in h.resumed || now[i]
    ensures OnTrack(items, History(h.runnable + [now], h.at + [next], h.resumed + [thread]), items[next], i, now[i])
  {
    hide Turn, Schedule, Logged, Waiting;
    ScheduleMore(h, |items|, now, next);
    LoggedMore(items, h, now, next, thread);
    if items[i] !in h.resumed {
      if next == i {
        assert (h.resumed + [thread])[|h.resumed|] == items[i];
      } else {
        WaitingMore(h, now, next, i);
      }
    } else {
      assert items[i] in h.resumed + [thread];
    }
  }

  lemma ScheduleMore(h: History, n: nat, now: seq<bool>, next: nat)
    requires Schedule(h.runnable, h.at, n) && |now| == n && next < n && Turn(now, h.at[|h.runnable|], next)
    ensures Schedule(h.runnable + [now], h.at + [next], n)
  {
    hide Turn;
  }

  lemma LoggedMore(items: seq<Item<Thread>>, h: History, now: seq<bool>, next: nat, thread: Item?<Thread>)
    requires Logged(items, h.runnable, h.at, h.resumed) && |now| == |items| && next < |items|
    requires now[next] ==> thread == items[next]
    ensures Logged(items, h.runnable + [now], h.at + [next], h.resumed + [thread])
  {
  }

  lemma WaitingMore(h: History, now: seq<bool>, next: nat, i: nat)
    requires Waiting(h.runnable, h.at, i) && i < |now| && now[i] && next != i
    ensures Waiting(h.runnable + [now], h.at + [next], i)
  {
  }

  // After as many turns as there are threads it was resumed.
  lemma Served(items: seq<Item<Thread>>, h: History, current: Item?<Thread>, i: nat, can: bool)
    requires OnTrack(items, h, current, i, can) && |h.runnable| == |items|
    ensures |h.resumed| == |items| && items[i] in h.resumed
  {
    hide Turn;
    if items[i] !in h.resumed {
      Fair(h.runnable, h.at, |items|, i);
    }
  }

  lemma SamePlace<T>(s: seq<T>, i: nat, j: nat)
    requires i < |s| && j < |s| && s[i] == s[j] && forall i, j | 0 <= i < j < |s| :: s[i] != s[j]
    ensures i == j
  {
  }

  class ThreadScheduler {
    const threads: DLChain<Thread>
    var currentThread: Item?<Thread>

    constructor ()
      ensures Valid() && threads.items == [] && fresh(threads)
    {
      threads := new DLChain<Thread>();
      currentThread := null;
    }

    ghost function Values(): set<object>
      reads this, threads
    {
      set x | x in threads.items :: x.value
    }

    // The current thread is one of the chain.
    ghost predicate Valid()
      reads this, threads, threads.Parts()
    {
      && threads.Valid() && (currentThread != null ==> currentThread in threads.items)
      && forall i, j | 0 <= i < j < |threads.items| :: threads.items[i].value != threads.items[j].value
    }

    /**
     run: from the current thread on, or from the first one if there is none, the next thread around the
     circle that may run is resumed; the processor idles exactly when no thread may run.
     */
    method Run() returns (resumed: Item?<Thread>, ghost c: nat, ghost i: nat)
      requires Valid()
      modifies this`currentThread
      ensures Valid() && threads.items == old(threads.items)
      ensures threads.items == [] ==> resumed == null && currentThread == null
      ensures threads.items != [] ==>
                && c < |threads.items| && i < |threads.items|
                && threads.items[c] == (if old(currentThread) == null then threads.items[0] else old(currentThread))
                && Turn(Runnable(threads.items), c, i) && currentThread == threads.items[i]
                && resumed == if Runnable(threads.items)[i] then threads.items[i] else null
      ensures Chosen(threads.items, resumed)
    {
      hide Turn, Nearest, Runnable, Chosen;
      resumed, c, i := null, 0, 0;
      threads.Ends();
      if currentThread == null {
        currentThread := threads.head;
      }
      if currentThread == null {
        assert Chosen(threads.items, null) by { NoThreads(threads.items); }
        return;
      }
      c :| c < |threads.items| && threads.items[c] == currentThread;
      var thread;
      thread, i := Scan(c);
      NoneToRun(Runnable(threads.items), c, i);
      ChosenAtTurn(threads.items, c, i);
      if !thread.value.CanRun() {
        return;
      }
      currentThread := thread;
      resumed := thread;
    }

    // The first thread behind the current one that may run, or else the current one again.
    method Scan(ghost c: nat) returns (thread: Item<Thread>, ghost i: nat)
      requires Valid() && c < |threads.items| && threads.items[c] == currentThread
      ensures Valid() && i < |threads.items| && thread == threads.items[i]
      ensures Nearest(Runnable(threads.items), c, i) && (Runnable(threads.items)[i] || i == c)
    {
      ghost var items, runnable := threads.items, Runnable(threads.items);
      assert threads.Joined(items[c], items[Succ(c, |items|)]);
      thread := currentThread.next;
      i := Succ(c, |items|);
      OneStep(runnable, c);
      while !thread.value.CanRun() && thread != currentThread
        invariant i < |items| && thread == items[i] && Nearest(runnable, c, i)
        decreases |items| - Distance(c, i, |items|)
      {
        assert threads.Joined(items[i], items[Succ(i, |items|)]);
        StepOn(runnable, c, i);
        thread := thread.next;
        i := Succ(i, |items|);
      }
    }

    // emit: every thread that waits for the signal waits no longer.
    method Emit(signal: Signal)
      requires Valid()
      modifies Values()
      ensures Valid() && threads.items == old(threads.items)
      ensures forall i | 0 <= i < |threads.items| ::
                var t := threads.items[i].value;
                t.running == old(t.running) && t.signal == if old(t.signal) == signal then NoSignal else old(t.signal)
    {
      ghost var items := threads.items;
      var all := threads.Visit();
      for k := 0 to |all|
        invariant Valid() && threads.items == items
        invariant forall i | 0 <= i < |all| ::
                    var t := all[i].value;
                    && t.running == old(t.running)
                    && t.signal == if i < k && old(t.signal) == signal then NoSignal else old(t.signal)
      {
        all[k].value.Emit(signal);
      }
    }

    // exit: a thread leaves the chain.
    method Exit(thread: Item<Thread>) returns (ghost k: nat)
      requires Valid() && threads.items != []
      modifies this`currentThread, threads, threads.Parts()
      ensures Valid() && currentThread == if old(currentThread) == thread then null else old(currentThread)
      ensures if thread in old(threads.items)
              then k < |old(threads.items)| && old(threads.items)[k] == thread && threads.items == Without(old(threads.items), k)
              else threads.items == old(threads.items)
    {
      if thread == currentThread {
        currentThread := null;
      }
      var ok;
      ok, k := threads.Remove(thread);
    }

    /** handle_yield: what follows when the current thread's turn ends. */
    method HandleYield(status: Yield) returns (resumed: Item?<Thread>, ghost c: nat, ghost i: nat)
      requires Valid() && currentThread != null
      modifies this`currentThread, threads, threads.Parts(), currentThread.value
      ensures Valid()
      ensures status == SYSCALL || status == OTHER ==>
                threads.items == old(threads.items) && currentThread == old(currentThread)
                && resumed == if status == SYSCALL then null else currentThread
      ensures status == TIMER || status.AWAIT? ==> threads.items == old(threads.items)
      ensures old(currentThread).value.running == old(currentThread.value.running)
      ensures old(currentThread).value.signal == if status.AWAIT? then status.signal else old(currentThread.value.signal)
      ensures (status == TIMER || status.AWAIT? || status == THREAD_EXIT) && threads.items != [] ==>
                && c < |threads.items| && i < |threads.items| && Turn(Runnable(threads.items), c, i)
                && threads.items[c] == (if status == THREAD_EXIT then threads.items[0] else old(currentThread))
                && currentThread == threads.items[i]
                && resumed == if Runnable(threads.items)[i] then threads.items[i] else null
      ensures status == TIMER || status.AWAIT? || status == THREAD_EXIT ==> Chosen(threads.items, resumed)
      ensures status == THREAD_EXIT ==>
                exists k :: 0 <= k < |old(threads.items)| && old(threads.items)[k] == old(currentThread)
                            && threads.items == Without(old(threads.items), k)
      ensures status == THREAD_EXIT ==> |threads.items| == |old(threads.items)| - 1 && old(currentThread) !in threads.items
    {
      hide Turn, Runnable, Chosen;
      resumed, c, i := null, 0, 0;
      match status
      case TIMER =>
        resumed, c, i := Run();
      case AWAIT(signal) =>
        currentThread.value.Await(signal);
        resumed, c, i := Run();
      case SYSCALL =>
      case THREAD_EXIT =>
        ghost var k := Exit(currentThread);
        currentThread := null;
        resumed, c, i := Run();
      case OTHER =>
        resumed := currentThread;
    }

    // One event; a place behind the end of the chain stands for no thread.
    method Happens(event: Event, ghost i: nat)
      requires Valid() && i < |threads.items|
      modifies Values()
      ensures Valid() && threads.items == old(threads.items)
      ensures (event.Emits? || event.place != i) && old(threads.items[i].value.CanRun()) ==> threads.items[i].value.CanRun()
    {
      var all := threads.Visit();
      match event
      case Emits(signal) =>
        Emit(signal);
      case Awaits(place, signal) =>
        if place < |all| {
          all[place].value.Await(signal);
        }
      case Sets(place, running) =>
        if place < |all| {
          all[place].value.running := running;
        }
    }

    // The events of a turn, and its end.
    method PlayTurn(script: Script, ghost i: nat) returns (resumed: Item?<Thread>, ghost c: nat, ghost next: nat)
      requires Valid() && i < |threads.items| && currentThread != null && Spares(script, i)
      modifies this`currentThread, threads, threads.Parts(), Values()
      ensures Valid() && threads.items == old(threads.items) && c < |threads.items| && next < |threads.items|
      ensures old(currentThread) == threads.items[c] && currentThread == threads.items[next]
      ensures Turn(Runnable(threads.items), c, next)
      ensures resumed == if Runnable(threads.items)[next] then threads.items[next] else null
      ensures old(threads.items[i].value.CanRun()) && (script.status == TIMER || c != i) ==> Runnable(threads.items)[i]
    {
      hide Turn, Runnable, DLChain.Valid;
      for e := 0 to |script.events|
        invariant Valid() && threads.items == old(threads.items) && currentThread == old(currentThread)
        invariant old(threads.items[i].value.CanRun()) ==> threads.items[i].value.CanRun()
      {
        Happens(script.events[e], i);
      }
      resumed, c, next := HandleYield(script.status);
    }

    // One more turn with its events.
    method TakeTurn(script: Script, ghost i: nat, ghost h: History) returns (thread: Item?<Thread>, ghost h': History)
      requires Valid() && i < |threads.items| && currentThread != null && Spares(script, i)
      requires OnTrack(threads.items, h, currentThread, i, threads.items[i].value.CanRun())
      requires h.runnable == [] && currentThread == threads.items[i] ==> script.status == TIMER
      modifies this`currentThread, threads, threads.Parts(), Values()
      ensures Valid() && threads.items == old(threads.items) && currentThread != null
      ensures h'.resumed == h.resumed + [thread] && |h'.runnable| == |h.runnable| + 1
      ensures OnTrack(threads.items, h', currentThread, i, threads.items[i].value.CanRun())
    {
      hide Turn, OnTrack, DLChain.Valid;
      ghost var items, can := threads.items, threads.items[i].value.CanRun();
      ghost var first := currentThread;
      ghost var c, next;
      thread, c, next := PlayTurn(script, i);
      WhoseTurn(items, h, c, i, can);
      OneTurnMore(items, h, c, Runnable(items), next, thread, i, can);
      h' := History(h.runnable + [Runnable(items)], h.at + [next], h.resumed + [thread]);
    }

    /**
     Nobody starves: on a chain of n threads, one that may run and that nobody else stops or makes wait is resumed
     in one of the next n turns, whatever happens to the others.
     */
    method Turns(scripts: seq<Script>, i: nat) returns (resumed: seq<Item?<Thread>>)
      requires Valid() && i < |threads.items| == |scripts| && currentThread != null
      requires threads.items[i].value.CanRun() && forall t | 0 <= t < |scripts| :: Spares(scripts[t], i)
      requires currentThread == threads.items[i] ==> scripts[0].status == TIMER
      modifies this`currentThread, threads, threads.Parts(), Values()
      ensures Valid() && threads.items == old(threads.items) && |resumed| == |threads.items|
      ensures exists t :: 0 <= t < |resumed| && resumed[t] == threads.items[i]
    {
      hide Turn, Runnable, OnTrack, DLChain.Valid;
      ghost var items := threads.items;
      ghost var c: nat :| c < |items| && items[c] == currentThread;
      ghost var h := History([], [c], []);
      resumed := [];
      NoTurnYet(items, c, i);
      for t := 0 to |scripts|
        invariant Valid() && threads.items == items && currentThread != null && (t == 0 ==> currentThread == old(currentThread))
        invariant |h.runnable| == t && resumed == h.resumed
        invariant OnTrack(items, h, currentThread, i, items[i].value.CanRun())
      {
        var thread;
        thread, h := TakeTurn(scripts[t], i, h);
        resumed := resumed + [thread];
      }
      Served(items, h, currentThread, i, items[i].value.CanRun());
    }
  }
}
