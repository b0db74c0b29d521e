/**
 The work queue of the server: threads that add and remove items under a mutex and a condition variable, step by
 step. Any number of threads, any interleaving, signals that wake more than one sleeper, and wake-ups without one.
 */
module WorkQueue {
  import opened Wrappers

  // Where a thread stands: outside, or about to take the step it names.
  datatype Pc<T> =
    | Idle
    | AddLock(item: T) | AddPush(item: T) | AddSignal | AddUnlock
    | RemoveLock | RemoveTest | RemovePop | RemoveUnlock(item: T)
    | Asleep  // in the wait, not woken
    | Woken   // in the wait, woken, without the mutex yet

  // `added` lists the items pushed, `returned` those that a call of remove has returned with.
  datatype State<T> = State(pcs: seq<Pc<T>>, holder: Option<nat>, queue: seq<T>, added: seq<T>, returned: seq<T>)

  datatype Event<T> =
    | CallAdd(t: nat, item: T)
    | CallRemove(t: nat)
    | WakeUp(t: nat)                     // a wake-up nobody asked for
    | Lock(t: nat)                       // pthread_mutex_lock, also the one at the end of a wait
    | Push(t: nat)
    | Signal(t: nat, woken: set<nat>)    // wakes one sleeper or more, if there are any
    | Test(t: nat)                       // the loop's condition; on an empty queue the thread waits
    | Pop(t: nat)
    | Unlock(t: nat)

  predicate Holds<T>(pc: Pc<T>) {
    pc.AddPush? || pc.AddSignal? || pc.AddUnlock? || pc.RemoveTest? || pc.RemovePop? || pc.RemoveUnlock?
  }

  predicate WantsLock<T>(pc: Pc<T>) {
    pc.AddLock? || pc.RemoveLock? || pc.Woken?
  }

  // In remove, without an item yet, and not sleeping.
  predicate Awaiting<T>(pc: Pc<T>) {
    pc.RemoveLock? || pc.RemoveTest? || pc.RemovePop? || pc.Woken?
  }

  predicate Sleeping<T>(pc: Pc<T>) {
    pc.Asleep?
  }

  // An add that has not signalled yet.
  predicate Adding<T>(pc: Pc<T>) {
    pc.AddLock? || pc.AddPush? || pc.AddSignal?
  }

  predicate Enabled<T>(s: State<T>, e: Event<T>) {
    && e.t < |s.pcs|
    && var pc := s.pcs[e.t];
       match e
       case CallAdd(_, _) => pc.Idle?
       case CallRemove(_) => pc.Idle?
       case WakeUp(_) => pc.Asleep?
       case Lock(_) => WantsLock(pc) && s.holder == None
       case Push(_) => pc.AddPush?
       case Signal(_, woken) =>
         && pc.AddSignal?
         && (forall u | u in woken :: u < |s.pcs| && s.pcs[u].Asleep?)
         && (woken == {} ==> forall u | 0 <= u < |s.pcs| :: !s.pcs[u].Asleep?)
       case Test(_) => pc.RemoveTest?
       case Pop(_) => pc.RemovePop?
       case Unlock(_) => pc.AddUnlock? || pc.RemoveUnlock?
  }

  function Woke<T>(pcs: seq<Pc<T>>, woken: set<nat>): seq<Pc<T>> {
    seq(|pcs|, u requires 0 <= u < |pcs| => if u in woken then Woken else pcs[u])
  }

  // The pop of an empty queue is undefined in the original; see Inv.
  function After<T>(s: State<T>, e: Event<T>): State<T>
    requires Enabled(s, e) && (e.Pop? ==> s.queue != [])
  {
    var t, pc := e.t, s.pcs[e.t];
    match e
    case CallAdd(_, item) => s.(pcs := s.pcs[t := AddLock(item)])
    case CallRemove(_) => s.(pcs := s.pcs[t := RemoveLock])
    case WakeUp(_) => s.(pcs := s.pcs[t := Woken])
    case Lock(_) => s.(pcs := s.pcs[t := if pc.AddLock? then AddPush(pc.item) else RemoveTest], holder := Some(t))
    case Push(_) =>
      s.(pcs := s.pcs[t := AddSignal], queue := s.queue + [pc.item], added := s.added + [pc.item])
    case Signal(_, woken) => s.(pcs := Woke(s.pcs, woken)[t := AddUnlock])
    case Test(_) =>
      if s.queue == [] then s.(pcs := s.pcs[t := Asleep], holder := None) else s.(pcs := s.pcs[t := RemovePop])
    case Pop(_) => s.(pcs := s.pcs[t := RemoveUnlock(s.queue[0])], queue := s.queue[1..])
    case Unlock(_) =>
      s.(pcs := s.pcs[t := Idle], holder := None,
         returned := if pc.RemoveUnlock? then s.returned + [pc.item] else s.returned)
  }

  function Init<T>(threads: nat): State<T> {
    State(seq(threads, _ => Idle), None, [], [], [])
  }

  // ------------------------------------------------------------------
  // Counting threads

  function Count<T>(pcs: seq<Pc<T>>, p: Pc<T> -> bool): nat {
    if pcs == [] then 0 else (if p(pcs[0]) then 1 else 0) + Count(pcs[1..], p)
  }

  lemma {:induction false} CountSet<T>(pcs: seq<Pc<T>>, t: nat, pc: Pc<T>, p: Pc<T> -> bool)
    requires t < |pcs|
    ensures Count(pcs[t := pc], p) + (if p(pcs[t]) then 1 else 0) == Count(pcs, p) + (if p(pc) then 1 else 0)
  {
    if t == 0 {
      assert pcs[t := pc][1..] == pcs[1..];
    } else {
      assert pcs[t := pc][1..] == pcs[1..][t - 1 := pc];
      CountSet(pcs[1..], t - 1, pc, p);
    }
  }

  lemma {:induction false} CountUp<T>(pcs: seq<Pc<T>>, pcs': seq<Pc<T>>, p: Pc<T> -> bool)
    requires |pcs| == |pcs'| && forall u | 0 <= u < |pcs| :: p(pcs[u]) ==> p(pcs'[u])
    ensures Count(pcs, p) <= Count(pcs', p)
    ensures (exists u :: 0 <= u < |pcs| && !p(pcs[u]) && p(pcs'[u])) ==> Count(pcs, p) < Count(pcs', p)
  {
    if pcs != [] {
      var r, r' := pcs[1..], pcs'[1..];
      assert forall u | 0 <= u < |r| :: r[u] == pcs[u + 1] && r'[u] == pcs'[u + 1];
      CountUp(r, r', p);
      if u :| 0 <= u < |pcs| && !p(pcs[u]) && p(pcs'[u]) && u > 0 {
        assert !p(r[u - 1]) && p(r'[u - 1]);
      }
    }
  }

  lemma {:induction false} CountSome<T>(pcs: seq<Pc<T>>, p: Pc<T> -> bool)
    ensures Count(pcs, p) > 0 <==> exists u :: 0 <= u < |pcs| && p(pcs[u])
  {
    if pcs != [] {
      CountSome(pcs[1..], p);
      if u :| 0 <= u < |pcs| && p(pcs[u]) && u > 0 {
        assert p(pcs[1..][u - 1]);
      }
      if u :| 0 <= u < |pcs| - 1 && p(pcs[1..][u]) {
        assert p(pcs[u + 1]);
      }
    }
  }

  // ------------------------------------------------------------------
  // What every step keeps

  // Exactly the holder stands where the mutex is held.
  ghost predicate MutexOk<T>(s: State<T>) {
    && (s.holder.Some? ==> s.holder.value < |s.pcs|)
    && forall t | 0 <= t < |s.pcs| :: Holds(s.pcs[t]) <==> s.holder == Some(t)
  }

  function HolderPc<T>(s: State<T>): Pc<T> {
    if s.holder.Some? && s.holder.value < |s.pcs| then s.pcs[s.holder.value] else Idle
  }

  // The item popped by a remove that has not returned yet.
  function Leaving<T>(s: State<T>): seq<T> {
    if HolderPc(s).RemoveUnlock? then [HolderPc(s).item] else []
  }

  // Items come out once each and in the order they went in: those returned, the one on its way out, those queued.
  ghost predicate HandedOut<T>(s: State<T>) {
    s.returned + Leaving(s) + s.queue == s.added
  }

  // No wake-up is lost: while someone sleeps, every queued item has a consumer that is awake for it, but for the
  // one item whose signal is still to come.
  ghost predicate WakeUpsOk<T>(s: State<T>) {
    Count(s.pcs, Sleeping) > 0 ==>
      |s.queue| <= Count(s.pcs, Awaiting) + if HolderPc(s).AddSignal? then 1 else 0
  }

  // The front is taken of a queue that is not empty.
  ghost predicate PopOk<T>(s: State<T>) {
    HolderPc(s).RemovePop? ==> s.queue != []
  }

  ghost predicate Inv<T>(s: State<T>) {
    MutexOk(s) && HandedOut(s) && WakeUpsOk(s) && PopOk(s)
  }

  lemma {:induction false} NoneCounted<T>(n: nat, p: Pc<T> -> bool)
    requires !p(Idle)
    ensures Count(seq(n, _ => Idle), p) == 0
  {
    var pcs: seq<Pc<T>> := seq(n, _ => Idle);
    CountSome(pcs, p);
  }

  lemma InitInv<T>(threads: nat)
    ensures Inv(Init<T>(threads))
  {
    NoneCounted<T>(threads, Sleeping);
  }

  lemma StepWakeUps<T>(s: State<T>, e: Event<T>)
    requires Inv(s) && Enabled(s, e) && (e.Pop? ==> s.queue != [])
    ensures WakeUpsOk(After(s, e))
  {
    var s' := After(s, e);
    if e.Signal? {
      var mid := Woke(s.pcs, e.woken);
      CountUp(s.pcs, mid, Awaiting);
      CountUp(mid, s.pcs, Sleeping);
      CountSet(mid, e.t, AddUnlock, Sleeping);
      CountSet(mid, e.t, AddUnlock, Awaiting);
      CountSome(s.pcs, Sleeping);
      if u :| u in e.woken {
        assert !Awaiting(s.pcs[u]) && Awaiting(mid[u]);
      }
    } else {
      CountSet(s.pcs, e.t, s'.pcs[e.t], Sleeping);
      CountSet(s.pcs, e.t, s'.pcs[e.t], Awaiting);
    }
  }

  // Every step keeps mutual exclusion, order and number of the items, and the wake-ups.
  lemma StepInv<T>(s: State<T>, e: Event<T>)
    requires Inv(s) && Enabled(s, e)
    ensures e.Pop? ==> s.queue != []
    ensures Inv(After(s, e))
  {
    StepMutex(s, e);
    StepItems(s, e);
    StepWakeUps(s, e);
  }

  lemma StepMutex<T>(s: State<T>, e: Event<T>)
    requires Inv(s) && Enabled(s, e) && (e.Pop? ==> s.queue != [])
    ensures MutexOk(After(s, e))
  {
  }

  lemma StepItems<T>(s: State<T>, e: Event<T>)
    requires Inv(s) && Enabled(s, e) && (e.Pop? ==> s.queue != [])
    ensures HandedOut(After(s, e)) && PopOk(After(s, e))
  {
  }

  // ------------------------------------------------------------------
  // Runs

  // The states of a run with these events, from s on.
  ghost predicate IsRun<T>(s: State<T>, events: seq<Event<T>>, end: State<T>)
    decreases |events|
  {
    if events == [] then end == s
    else
      && Enabled(s, events[0])
      && (events[0].Pop? ==> s.queue != [])
      && IsRun(After(s, events[0]), events[1..], end)
  }

  ghost predicate Reachable<T(!new)>(s: State<T>) {
    exists threads: nat, events :: IsRun(Init(threads), events, s)
  }

  lemma {:induction false} RunInv<T>(s: State<T>, events: seq<Event<T>>, end: State<T>)
    requires Inv(s) && IsRun(s, events, end)
    ensures Inv(end) && |end.pcs| == |s.pcs|
    decreases |events|
  {
    if events != [] {
      StepInv(s, events[0]);
      RunInv(After(s, events[0]), events[1..], end);
    }
  }

  lemma ReachableInv<T(!new)>(s: State<T>)
    requires Reachable(s)
    ensures Inv(s)
  {
    var threads: nat, events :| IsRun(Init<T>(threads), events, s);
    InitInv<T>(threads);
    RunInv(Init(threads), events, s);
  }

  // No two threads are ever between lock and unlock together, and no pop ever finds the queue empty.
  lemma MutualExclusion<T(!new)>(s: State<T>, t: nat, u: nat)
    requires Reachable(s) && t < |s.pcs| && u < |s.pcs| && Holds(s.pcs[t]) && Holds(s.pcs[u])
    ensures t == u
    ensures s.pcs[t].RemovePop? ==> s.queue != []
  {
    ReachableInv(s);
  }

  // What remove has returned is the start of what was pushed, in the same order, and the queue is the end of it.
  lemma FirstInFirstOut<T(!new)>(s: State<T>)
    requires Reachable(s)
    ensures s.returned <= s.added && |s.added| <= |s.returned| + |s.queue| + 1
    ensures s.added == s.returned + Leaving(s) + s.queue
  {
    ReachableInv(s);
  }

  // While an item is queued and its signal was sent, not all consumers sleep: as many are awake as items wait.
  lemma NoLostWakeUp<T(!new)>(s: State<T>, sleeper: nat)
    requires Reachable(s) && sleeper < |s.pcs| && s.pcs[sleeper].Asleep?
    requires forall t | 0 <= t < |s.pcs| :: !s.pcs[t].AddSignal?
    ensures |s.queue| <= Count(s.pcs, Awaiting)
    ensures s.queue != [] ==> exists t :: 0 <= t < |s.pcs| && Awaiting(s.pcs[t])
  {
    ReachableInv(s);
    assert Sleeping(s.pcs[sleeper]);
    CountSome(s.pcs, Sleeping);
    CountSome(s.pcs, Awaiting);
  }

  // ------------------------------------------------------------------
  // What goes in and what comes out, told by the calls alone

  // The items passed to add, in the order of the calls.
  ghost function Given<T>(events: seq<Event<T>>): seq<T> {
    if events == [] then []
    else
      var last := |events| - 1;
      Given(events[..last]) + if events[last].CallAdd? then [events[last].item] else []
  }

  // The same for the calls of one thread.
  ghost function GivenBy<T>(t: nat, events: seq<Event<T>>): seq<T> {
    if events == [] then []
    else
      var last := |events| - 1;
      GivenBy(t, events[..last]) + if events[last].CallAdd? && events[last].t == t then [events[last].item] else []
  }

  // The calls of remove.
  ghost function Asked<T>(events: seq<Event<T>>): nat {
    if events == [] then 0
    else
      var last := |events| - 1;
      Asked(events[..last]) + if events[last].CallRemove? then 1 else 0
  }

  lemma OneMoreCall<T>(past: seq<Event<T>>, e: Event<T>, t: nat)
    ensures Given(past + [e]) == Given(past) + if e.CallAdd? then [e.item] else []
    ensures GivenBy(t, past + [e]) == GivenBy(t, past) + if e.CallAdd? && e.t == t then [e.item] else []
    ensures Asked(past + [e]) == Asked(past) + if e.CallRemove? then 1 else 0
  {
    assert (past + [e])[..|past|] == past;
  }

  // The item that a thread in add has not pushed yet.
  ghost function Unpushed<T>(pc: Pc<T>): seq<T> {
    if pc.AddLock? || pc.AddPush? then [pc.item] else []
  }

  // In the hands of a thread: in add before the push, or in remove after the pop.
  ghost function Carries<T>(item: T): Pc<T> -> bool {
    (pc: Pc<T>) => (pc.AddLock? || pc.AddPush? || pc.RemoveUnlock?) && pc.item == item
  }

  // How often the item is there: returned, queued, and in the hands of a thread.
  ghost function Copies<T>(s: State<T>, item: T): nat {
    multiset(s.returned)[item] + multiset(s.queue)[item] + Count(s.pcs, Carries(item))
  }

  lemma OneMoreItem<T>(items: seq<T>, x: T, item: T)
    ensures multiset(items + [x])[item] == multiset(items)[item] + if x == item then 1 else 0
    ensures multiset([x] + items)[item] == multiset(items)[item] + if x == item then 1 else 0
  {
  }

  lemma HandsChange<T>(s: State<T>, e: Event<T>, item: T)
    requires Enabled(s, e) && (e.Pop? ==> s.queue != [])
    ensures var p, s' := Carries(item), After(s, e);
            Count(s'.pcs, p) + (if p(s.pcs[e.t]) then 1 else 0) ==
            Count(s.pcs, p) + if p(s'.pcs[e.t]) then 1 else 0
  {
    var p := Carries(item);
    if e.Signal? {
      var mid := Woke(s.pcs, e.woken);
      CountUp(s.pcs, mid, p);
      CountUp(mid, s.pcs, p);
      CountSet(mid, e.t, AddUnlock, p);
    } else {
      CountSet(s.pcs, e.t, After(s, e).pcs[e.t], p);
    }
  }

  lemma QueueChanges<T>(s: State<T>, e: Event<T>, item: T)
    requires Enabled(s, e) && (e.Pop? ==> s.queue != [])
    ensures multiset(After(s, e).queue)[item] + (if e.Pop? && s.queue[0] == item then 1 else 0) ==
            multiset(s.queue)[item] + if e.Push? && s.pcs[e.t].item == item then 1 else 0
  {
    if e.Push? {
      OneMoreItem(s.queue, s.pcs[e.t].item, item);
    } else if e.Pop? {
      assert s.queue == [s.queue[0]] + s.queue[1..];
      OneMoreItem(s.queue[1..], s.queue[0], item);
    }
  }

  lemma ReturnedChanges<T>(s: State<T>, e: Event<T>, item: T)
    requires Enabled(s, e) && (e.Pop? ==> s.queue != [])
    ensures multiset(After(s, e).returned)[item] ==
            multiset(s.returned)[item] + if s.pcs[e.t].RemoveUnlock? && s.pcs[e.t].item == item then 1 else 0
  {
    if s.pcs[e.t].RemoveUnlock? {
      OneMoreItem(s.returned, s.pcs[e.t].item, item);
    }
  }

  // Only a call of add brings an item, and no step loses one.
  lemma StepConserves<T>(s: State<T>, e: Event<T>, item: T)
    requires Enabled(s, e) && (e.Pop? ==> s.queue != [])
    ensures Copies(After(s, e), item) == Copies(s, item) + if e.CallAdd? && e.item == item then 1 else 0
  {
    HandsChange(s, e, item);
    QueueChanges(s, e, item);
    ReturnedChanges(s, e, item);
  }

  lemma MoreGiven<T>(past: seq<Event<T>>, e: Event<T>, item: T)
    ensures multiset(Given(past + [e]))[item] ==
            multiset(Given(past))[item] + if e.CallAdd? && e.item == item then 1 else 0
  {
    OneMoreCall(past, e, 0);
    if e.CallAdd? {
      OneMoreItem(Given(past), e.item, item);
    }
  }

  lemma {:induction false} RunConserves<T>(s: State<T>, past: seq<Event<T>>, events: seq<Event<T>>, end: State<T>,
                                           item: T)
    requires IsRun(s, events, end) && Copies(s, item) == multiset(Given(past))[item]
    ensures Copies(end, item) == multiset(Given(past + events))[item]
    decreases |events|
  {
    if events == [] {
      assert past + events == past;
    } else {
      StepConserves(s, events[0], item);
      MoreGiven(past, events[0], item);
      assert past + events == past + [events[0]] + events[1..];
      RunConserves(After(s, events[0]), past + [events[0]], events[1..], end, item);
    }
  }

  // After any run from the start, every item was passed to add as often as it was returned by remove, is queued and is
  // in the hands of a thread: no item is lost, doubled or made up.
  lemma ItemsConserved<T>(threads: nat, events: seq<Event<T>>, end: State<T>, item: T)
    requires IsRun(Init(threads), events, end)
    ensures multiset(end.returned)[item] + multiset(end.queue)[item] + Count(end.pcs, Carries(item)) ==
            multiset(Given(events))[item]
  {
    NoneCounted<T>(threads, Carries(item));
    RunConserves(Init(threads), [], events, end, item);
    assert [] + events == events;
  }

  // Items with the thread that passed each of them.
  ghost function Untagged<T>(tagged: seq<(nat, T)>): (r: seq<T>)
    ensures |r| == |tagged|
  {
    seq(|tagged|, i requires 0 <= i < |tagged| => tagged[i].1)
  }

  ghost function OfThread<T>(tagged: seq<(nat, T)>, t: nat): seq<T> {
    if tagged == [] then []
    else
      var last := |tagged| - 1;
      OfThread(tagged[..last], t) + if tagged[last].0 == t then [tagged[last].1] else []
  }

  // These items, with the threads that passed them, interleave the calls of the threads: of each thread they are the
  // items of its calls in their order, but for one it has not pushed yet.
  ghost predicate Interleaves<T>(tagged: seq<(nat, T)>, items: seq<T>, pcs: seq<Pc<T>>, events: seq<Event<T>>) {
    && Untagged(tagged) == items
    && forall t | 0 <= t < |pcs| :: OfThread(tagged, t) + Unpushed(pcs[t]) == GivenBy(t, events)
  }

  ghost function Pushed<T>(s: State<T>, e: Event<T>): seq<(nat, T)>
    requires Enabled(s, e)
  {
    if e.Push? then [(e.t, s.pcs[e.t].item)] else []
  }

  lemma UnpushedAfter<T>(s: State<T>, e: Event<T>, t: nat)
    requires Enabled(s, e) && (e.Pop? ==> s.queue != []) && t < |s.pcs|
    ensures var pc, pc' := s.pcs[t], After(s, e).pcs[t];
            if e.t == t && e.Push? then Unpushed(pc) == [pc.item] && Unpushed(pc') == []
            else if e.t == t && e.CallAdd? then Unpushed(pc) == [] && Unpushed(pc') == [e.item]
            else Unpushed(pc') == Unpushed(pc)
  {
  }

  lemma StepOfThread<T>(s: State<T>, e: Event<T>, tagged: seq<(nat, T)>, past: seq<Event<T>>, t: nat)
    requires Enabled(s, e) && (e.Pop? ==> s.queue != []) && t < |s.pcs|
    requires OfThread(tagged, t) + Unpushed(s.pcs[t]) == GivenBy(t, past)
    ensures OfThread(tagged + Pushed(s, e), t) + Unpushed(After(s, e).pcs[t]) == GivenBy(t, past + [e])
  {
    OneMoreCall(past, e, t);
    UnpushedAfter(s, e, t);
    var unpushed, unpushed' := Unpushed(s.pcs[t]), Unpushed(After(s, e).pcs[t]);
    if e.Push? {
      OneMoreOfThread(tagged, e.t, s.pcs[e.t].item, t);
    } else {
      assert tagged + Pushed(s, e) == tagged;
    }
    Regroup(OfThread(tagged, t), unpushed, OfThread(tagged + Pushed(s, e), t), unpushed');
  }

  // An item added behind both, or moved from the one to the other.
  lemma Regroup<T>(a: seq<T>, b: seq<T>, a': seq<T>, b': seq<T>)
    ensures a' == a + b && b' == [] ==> a' + b' == a + b
    ensures a' == a && b' == b ==> a' + b' == a + b
    ensures a' == a && b == [] ==> a' + b' == a + b + b'
  {
  }

  lemma OneMoreOfThread<T>(tagged: seq<(nat, T)>, u: nat, item: T, t: nat)
    ensures OfThread(tagged + [(u, item)], t) == OfThread(tagged, t) + if u == t then [item] else []
  {
    assert (tagged + [(u, item)])[..|tagged|] == tagged;
  }

  lemma StepTagged<T>(s: State<T>, e: Event<T>, tagged: seq<(nat, T)>, past: seq<Event<T>>)
    requires Enabled(s, e) && (e.Pop? ==> s.queue != []) && Interleaves(tagged, s.added, s.pcs, past)
    ensures var s' := After(s, e);
            Interleaves(tagged + Pushed(s, e), s'.added, s'.pcs, past + [e])
  {
    forall t | 0 <= t < |s.pcs|
      ensures OfThread(tagged + Pushed(s, e), t) + Unpushed(After(s, e).pcs[t]) == GivenBy(t, past + [e])
    {
      StepOfThread(s, e, tagged, past, t);
    }
    assert Untagged(tagged + Pushed(s, e)) == After(s, e).added;
  }

  lemma {:induction false} RunTagged<T>(s: State<T>, tagged: seq<(nat, T)>, past: seq<Event<T>>, events: seq<Event<T>>,
                                        end: State<T>) returns (tagged': seq<(nat, T)>)
    requires IsRun(s, events, end) && Interleaves(tagged, s.added, s.pcs, past)
    ensures Interleaves(tagged', end.added, end.pcs, past + events)
    decreases |events|
  {
    if events == [] {
      assert past + events == past;
      tagged' := tagged;
    } else {
      var e := events[0];
      StepTagged(s, e, tagged, past);
      assert past + [e] + events[1..] == past + events;
      tagged' := RunTagged(After(s, e), tagged + Pushed(s, e), past + [e], events[1..], end);
    }
  }

  // What remove returned, followed by what is on its way out and by the queue, interleaves the calls of the threads.
  lemma InterleavesCalls<T>(threads: nat, events: seq<Event<T>>, end: State<T>)
    requires IsRun(Init(threads), events, end)
    ensures |end.pcs| == threads
    ensures exists tagged :: Interleaves(tagged, end.returned + Leaving(end) + end.queue, end.pcs, events)
  {
    InitInv<T>(threads);
    RunInv(Init(threads), events, end);
    var tagged := RunTagged(Init(threads), [], [], events, end);
    assert [] + events == events;
  }

  // In a call of remove.
  predicate Removing<T>(pc: Pc<T>) {
    pc.RemoveLock? || pc.RemoveTest? || pc.RemovePop? || pc.RemoveUnlock? || pc.Asleep? || pc.Woken?
  }

  lemma StepAnswers<T>(s: State<T>, e: Event<T>)
    requires Enabled(s, e) && (e.Pop? ==> s.queue != [])
    ensures var s' := After(s, e);
            |s'.returned| + Count(s'.pcs, Removing)
            == |s.returned| + Count(s.pcs, Removing) + if e.CallRemove? then 1 else 0
  {
    if e.Signal? {
      var mid := Woke(s.pcs, e.woken);
      CountUp(s.pcs, mid, Removing);
      CountUp(mid, s.pcs, Removing);
      CountSet(mid, e.t, AddUnlock, Removing);
    } else {
      CountSet(s.pcs, e.t, After(s, e).pcs[e.t], Removing);
    }
  }

  lemma {:induction false} RunAnswers<T>(s: State<T>, past: seq<Event<T>>, events: seq<Event<T>>, end: State<T>)
    requires IsRun(s, events, end) && |s.returned| + Count(s.pcs, Removing) == Asked(past)
    ensures |end.returned| + Count(end.pcs, Removing) == Asked(past + events)
    decreases |events|
  {
    if events == [] {
      assert past + events == past;
    } else {
      var e := events[0];
      OneMoreCall(past, e, 0);
      StepAnswers(s, e);
      assert past + [e] + events[1..] == past + events;
      RunAnswers(After(s, e), past + [e], events[1..], end);
    }
  }

  // Every call of remove is answered with one item or still going on.
  lemma RemovesAnswered<T>(threads: nat, events: seq<Event<T>>, end: State<T>)
    requires IsRun(Init(threads), events, end)
    ensures |end.returned| + Count(end.pcs, Removing) == Asked(events)
  {
    NoneCounted<T>(threads, Removing);
    RunAnswers(Init(threads), [], events, end);
    assert [] + events == events;
  }

  // ------------------------------------------------------------------
  // Progress

  // A step of a call already made, that is not a wake-up out of nothing.
  predicate Internal<T>(e: Event<T>) {
    !e.CallAdd? && !e.CallRemove? && !e.WakeUp?
  }

  function Weight<T>(pc: Pc<T>): nat {
    match pc
    case Idle => 0
    case Asleep => 0
    case AddUnlock => 1
    case AddSignal => 2
    case AddPush(_) => 3
    case AddLock(_) => 4
    case RemoveUnlock(_) => 1
    case RemovePop => 2
    case RemoveTest => 3
    case RemoveLock => 4
    case Woken => 4
  }

  function Total<T>(pcs: seq<Pc<T>>): (r: nat)
    ensures r <= 4 * |pcs|
  {
    if pcs == [] then 0 else Weight(pcs[0]) + Total(pcs[1..])
  }

  // A bound for the internal steps still possible: a signal may set every thread back, but only once per add.
  function Left<T>(s: State<T>): nat {
    Count(s.pcs, Adding) * (4 * |s.pcs| + 1) + Total(s.pcs)
  }

  lemma {:induction false} TotalSet<T>(pcs: seq<Pc<T>>, t: nat, pc: Pc<T>)
    requires t < |pcs|
    ensures Total(pcs[t := pc]) + Weight(pcs[t]) == Total(pcs) + Weight(pc)
  {
    if t == 0 {
      assert pcs[t := pc][1..] == pcs[1..];
    } else {
      assert pcs[t := pc][1..] == pcs[1..][t - 1 := pc];
      TotalSet(pcs[1..], t - 1, pc);
    }
  }

  lemma SignalLeft<T>(s: State<T>, e: Event<T>)
    requires Enabled(s, e) && e.Signal?
    ensures Left(After(s, e)) < Left(s)
  {
    var pcs' := After(s, e).pcs;
    var mid := Woke(s.pcs, e.woken);
    CountUp(mid, s.pcs, Adding);
    CountSet(mid, e.t, AddUnlock, Adding);
    FewerLeft(Count(pcs', Adding), Count(s.pcs, Adding), 4 * |s.pcs| + 1);
  }

  lemma InternalStepLeft<T>(s: State<T>, e: Event<T>)
    requires Enabled(s, e) && Internal(e) && (e.Pop? ==> s.queue != [])
    ensures Left(After(s, e)) < Left(s)
  {
    if e.Signal? {
      SignalLeft(s, e);
    } else {
      var pc' := After(s, e).pcs[e.t];
      CountSet(s.pcs, e.t, pc', Adding);
      TotalSet(s.pcs, e.t, pc');
    }
  }

  lemma FewerLeft(a: nat, b: nat, width: nat)
    requires a + 1 <= b
    ensures a * width + width <= b * width
  {
    assert b * width == (a + 1) * width + (b - a - 1) * width;
  }

  // Calls already made never run for ever: so many steps at most, whatever the interleaving.
  lemma {:induction false} InternalRunBounded<T>(s: State<T>, events: seq<Event<T>>, end: State<T>)
    requires IsRun(s, events, end) && forall i | 0 <= i < |events| :: Internal(events[i])
    ensures |events| <= Left(s)
    decreases |events|
  {
    if events != [] {
      InternalStepLeft(s, events[0]);
      assert forall i | 0 <= i < |events| - 1 :: events[1..][i] == events[i + 1];
      InternalRunBounded(After(s, events[0]), events[1..], end);
    }
  }

  ghost predicate Stuck<T(!new)>(s: State<T>) {
    forall e: Event<T> :: Internal(e) ==> !Enabled(s, e)
  }

  ghost predicate AtRest<T>(s: State<T>) {
    forall t | 0 <= t < |s.pcs| :: s.pcs[t].Idle? || s.pcs[t].Asleep?
  }

  // There is no deadlock: the calls stop only when every thread is outside, or asleep in remove.
  lemma StuckIff<T(!new)>(s: State<T>)
    requires Reachable(s)
    ensures Stuck(s) <==> AtRest(s)
  {
    ReachableInv(s);
    if Stuck(s) {
      if s.holder.Some? {
        var step := HoldersStep(s);
        assert false;
      }
      forall t | 0 <= t < |s.pcs| ensures s.pcs[t].Idle? || s.pcs[t].Asleep? {
        var e: Event<T> := Lock(t);
        assert Internal(e) && !Enabled(s, e);
      }
    }
  }

  lemma HoldersStep<T>(s: State<T>) returns (e: Event<T>)
    requires MutexOk(s) && s.holder.Some?
    ensures Internal(e) && Enabled(s, e)
  {
    var t := s.holder.value;
    match s.pcs[t]
    case AddPush(_) => e := Push(t);
    case AddSignal =>
      var woken := set u | 0 <= u < |s.pcs| && s.pcs[u].Asleep?;
      assert woken == {} ==> forall u | 0 <= u < |s.pcs| :: !s.pcs[u].Asleep? by {
        forall u | 0 <= u < |s.pcs| && s.pcs[u].Asleep? ensures u in woken {
        }
      }
      e := Signal(t, woken);
    case RemoveTest => e := Test(t);
    case RemovePop => e := Pop(t);
    case _ => e := Unlock(t);
  }

  lemma SameItems<T>(a: seq<T>, b: seq<T>)
    requires forall item :: item in multiset(a) || item in multiset(b) ==> multiset(a)[item] == multiset(b)[item]
    ensures multiset(a) == multiset(b)
  {
  }

  lemma AllReturned<T>(threads: nat, events: seq<Event<T>>, end: State<T>)
    requires IsRun(Init(threads), events, end) && AtRest(end) && end.queue == []
    ensures multiset(end.returned) == multiset(Given(events))
  {
    forall item | item in multiset(end.returned) || item in multiset(Given(events))
      ensures multiset(end.returned)[item] == multiset(Given(events))[item]
    {
      ItemsConserved(threads, events, end, item);
      CountSome(end.pcs, Carries(item));
    }
    SameItems(end.returned, Given(events));
  }

  // At rest with a consumer asleep, what remove returned is what was passed to add: the queue is empty, each item has
  // come out once, and the items of one thread have come out in the order of its calls.
  lemma RestDelivered<T(!new)>(threads: nat, events: seq<Event<T>>, end: State<T>, sleeper: nat)
    requires IsRun(Init(threads), events, end)
    requires AtRest(end) && sleeper < |end.pcs| && end.pcs[sleeper].Asleep?
    ensures end.queue == [] && multiset(end.returned) == multiset(Given(events)) && |end.pcs| == threads
    ensures exists tagged :: Interleaves(tagged, end.returned, end.pcs, events)
  {
    ReachableInv(end);
    NoLostWakeUp(end, sleeper);
    AllReturned(threads, events, end);
    InterleavesCalls(threads, events, end);
    assert end.returned + Leaving(end) + end.queue == end.returned;
    assert forall t | 0 <= t < threads :: Unpushed(end.pcs[t]) == [];
  }
}
