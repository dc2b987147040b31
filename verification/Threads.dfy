/** Independent threads: what traps and process switches mean when every thread has
    a register file of its own. No hart, no memory, no contexts. */
module Threads {
  import opened Bits
  import opened Options

  /** The registers a handoff keeps, and the two a result is delivered in, by their
      place in the register file. */
  datatype Abi = Abi(kept: nat -> bool, r0: nat, r1: nat)

  /** `x` is the register file the thread sees while it runs, `saved` the one its
      context holds, `space` its address space. */
  datatype Thread = Thread(x: seq<U64>, pc: U64, space: U64, saved: seq<U64>, alive: bool)

  datatype World = World(threads: seq<Thread>, running: nat)

  /** Results written into the context of a thread that is not running. */
  datatype Gift = Gift(thread: nat, v0: U64, v1: U64)

  /** What a trap means to the threads; `to` is the thread that runs next. */
  datatype Decision =
    | Unchanged
    | Answer1(v0: U64)
    | Answer2(v0: U64, v1: U64)
    | Yield(to: nat)
    | Handoff(to: nat)
    | Kill(to: nat)

  predicate Switches(d: Decision) {
    d.Yield? || d.Handoff? || d.Kill?
  }

  function Plus(a: U64, d: int): U64 {
    if 0 <= a + d < TWO64 then a + d
    else if 0 <= a + d + TWO64 < TWO64 then a + d + TWO64
    else if TWO64 <= a + d < 2 * TWO64 then a + d - TWO64
    else 0
  }

  function SetAt(s: seq<U64>, i: nat, v: U64): (r: seq<U64>)
    ensures |r| == |s|
  {
    if i < |s| then s[i := v] else s
  }

  /** `x` where a handoff keeps registers, `y` elsewhere. */
  function Merge(kept: nat -> bool, x: seq<U64>, y: seq<U64>): (z: seq<U64>)
    ensures |z| == |y|
    ensures forall i | 0 <= i < |y| :: z[i] == if i < |x| && kept(i) then x[i] else y[i]
  {
    seq(|y|, i requires 0 <= i < |y| => if i < |x| && kept(i) then x[i] else y[i])
  }

  function Zeros(n: nat): (z: seq<U64>)
    ensures |z| == n && forall i | 0 <= i < n :: z[i] == 0
  {
    seq(n, _ => 0)
  }

  function Updated(w: World, i: nat, t: Thread): World {
    if i < |w.threads| then w.(threads := w.threads[i := t]) else w
  }

  function Current(w: World): Thread
    requires w.running < |w.threads|
  {
    w.threads[w.running]
  }

  function Given(abi: Abi, w: World, g: Gift): (v: World)
    ensures |v.threads| == |w.threads| && v.running == w.running
  {
    if g.thread < |w.threads| then
      var t := w.threads[g.thread];
      Updated(w, g.thread, t.(saved := SetAt(SetAt(t.saved, abi.r0, g.v0), abi.r1, g.v1)))
    else w
  }

  function GivenAll(abi: Abi, w: World, gs: seq<Gift>): (v: World)
    ensures |v.threads| == |w.threads| && v.running == w.running
  {
    if gs == [] then w else Given(abi, GivenAll(abi, w, gs[..|gs| - 1]), gs[|gs| - 1])
  }

  /** The thread stops at `pc`; a handoff keeps only some registers. */
  function Parked(abi: Abi, t: Thread, pc: U64, handoff: bool): Thread {
    t.(pc := pc, saved := if handoff then Merge(abi.kept, t.x, t.saved) else t.x)
  }

  function Woken(abi: Abi, t: Thread, handoff: bool): Thread {
    t.(x := if handoff then Merge(abi.kept, t.saved, Zeros(|t.saved|)) else t.saved)
  }

  function Wake(abi: Abi, w: World, to: nat, handoff: bool): World {
    if to < |w.threads| then Updated(w, to, Woken(abi, w.threads[to], handoff)).(running := to) else w
  }

  /** One trap. A system call resumes after its instruction, anything else where it was. */
  function Decide(abi: Abi, w: World, call: bool, d: Decision): World {
    if w.running < |w.threads| then
      var t := Current(w);
      var pc := if call then Plus(t.pc, 4) else t.pc;
      match d
      case Unchanged => w
      case Answer1(v0) => Updated(w, w.running, t.(pc := pc, x := SetAt(t.x, abi.r0, v0)))
      case Answer2(v0, v1) => Updated(w, w.running, t.(pc := pc, x := SetAt(SetAt(t.x, abi.r0, v0), abi.r1, v1)))
      case Yield(to) => Wake(abi, Updated(w, w.running, Parked(abi, t, pc, false)), to, false)
      case Handoff(to) => Wake(abi, Updated(w, w.running, Parked(abi, t, pc, true)), to, true)
      case Kill(to) => Wake(abi, Updated(w, w.running, t.(alive := false)), to, false)
    else w
  }

  /** The running thread computes, or traps. */
  datatype Happening = Runs(x: seq<U64>, pc: U64) | Traps(call: bool, gifts: seq<Gift>, decision: Decision)

  function Next(abi: Abi, w: World, h: Happening): World {
    match h
    case Runs(x, pc) => if w.running < |w.threads| then Updated(w, w.running, Current(w).(x := x, pc := pc)) else w
    case Traps(call, gifts, d) => Decide(abi, GivenAll(abi, w, gifts), call, d)
  }

  function History(abi: Abi, w: World, hs: seq<Happening>): World
    decreases |hs|
  {
    if hs == [] then w else History(abi, Next(abi, w, hs[0]), hs[1..])
  }

  // ---------------------------------------------------------------------------
  // Threads do not touch each other
  // ---------------------------------------------------------------------------

  lemma {:induction false} GivenKeeps(abi: Abi, w: World, gs: seq<Gift>, i: nat)
    requires i < |w.threads|
    ensures var t, u := w.threads[i], GivenAll(abi, w, gs).threads[i];
      u.alive == t.alive && u.x == t.x && u.pc == t.pc && u.space == t.space
    ensures (forall k | 0 <= k < |gs| :: gs[k].thread != i) ==> GivenAll(abi, w, gs).threads[i] == w.threads[i]
    decreases |gs|
  {
    if gs != [] {
      GivenKeeps(abi, w, gs[..|gs| - 1], i);
      assert forall k | 0 <= k < |gs| - 1 :: gs[..|gs| - 1][k] == gs[k];
    }
  }

  /** Thread `i` neither runs, nor is given anything, nor runs next. */
  ghost predicate LeavesAlone(w: World, h: Happening, i: nat) {
    && w.running < |w.threads| && w.running != i
    && match h
       case Runs(_, _) => true
       case Traps(_, gifts, d) => (forall k | 0 <= k < |gifts| :: gifts[k].thread != i) && (Switches(d) ==> d.to != i)
  }

  lemma Rests(abi: Abi, w: World, h: Happening, i: nat)
    requires i < |w.threads| && LeavesAlone(w, h, i)
    ensures |Next(abi, w, h).threads| == |w.threads| && Next(abi, w, h).threads[i] == w.threads[i]
  {
    hide Plus, GivenAll, Merge, SetAt;
    if h.Traps? {
      GivenKeeps(abi, w, h.gifts, i);
    }
  }

  ghost predicate AloneThrough(abi: Abi, w: World, hs: seq<Happening>, i: nat)
    decreases |hs|
  {
    hs == [] || (LeavesAlone(w, hs[0], i) && AloneThrough(abi, Next(abi, w, hs[0]), hs[1..], i))
  }

  lemma {:induction false} RestsThrough(abi: Abi, w: World, hs: seq<Happening>, i: nat)
    requires i < |w.threads| && AloneThrough(abi, w, hs, i)
    ensures |History(abi, w, hs).threads| == |w.threads| && History(abi, w, hs).threads[i] == w.threads[i]
    decreases |hs|
  {
    hide Next, LeavesAlone;
    if hs != [] {
      Rests(abi, w, hs[0], i);
      RestsThrough(abi, Next(abi, w, hs[0]), hs[1..], i);
    }
  }

  // ---------------------------------------------------------------------------
  // Suspension: from the trap that switches a thread out to the one that switches it in
  // ---------------------------------------------------------------------------

  /** The last results written for thread `i`. */
  function LastGift(gs: seq<Gift>, i: nat): Option<Gift> {
    if gs == [] then None
    else if gs[|gs| - 1].thread == i then Some(gs[|gs| - 1])
    else LastGift(gs[..|gs| - 1], i)
  }

  /** `x` with the last results written for thread `i`, if any were. */
  function Delivered(abi: Abi, x: seq<U64>, gs: seq<Gift>, i: nat): (y: seq<U64>)
    ensures |y| == |x|
  {
    match LastGift(gs, i)
    case None => x
    case Some(g) => SetAt(SetAt(x, abi.r0, g.v0), abi.r1, g.v1)
  }

  function GiftsOf(h: Happening): seq<Gift> {
    if h.Traps? then h.gifts else []
  }

  function AllGifts(hs: seq<Happening>): seq<Gift>
    decreases |hs|
  {
    if hs == [] then [] else GiftsOf(hs[0]) + AllGifts(hs[1..])
  }

  predicate SwitchesTo(h: Happening, i: nat) {
    h.Traps? && Switches(h.decision) && h.decision.to == i
  }

  ghost predicate NeverResumed(hs: seq<Happening>, i: nat) {
    forall k | 0 <= k < |hs| :: !SwitchesTo(hs[k], i)
  }

  lemma SetTwice(x: seq<U64>, i: nat, a: U64, j: nat, b: U64, c: U64, d: U64)
    ensures SetAt(SetAt(SetAt(SetAt(x, i, a), j, b), i, c), j, d) == SetAt(SetAt(x, i, c), j, d)
  {
  }

  lemma {:induction false} DeliveredAgain(abi: Abi, x: seq<U64>, a: seq<Gift>, b: seq<Gift>, i: nat)
    ensures Delivered(abi, Delivered(abi, x, a, i), b, i) == Delivered(abi, x, a + b, i)
    decreases |b|
  {
    hide SetAt;
    if b == [] {
      assert a + b == a;
    } else {
      var n := |b| - 1;
      assert (a + b)[..|a + b| - 1] == a + b[..n];
      DeliveredAgain(abi, x, a, b[..n], i);
      if b[n].thread == i && LastGift(a, i).Some? {
        var g := LastGift(a, i).value;
        SetTwice(x, abi.r0, g.v0, abi.r1, g.v1, b[n].v0, b[n].v1);
      }
    }
  }

  lemma {:induction false} GivenDelivers(abi: Abi, w: World, gs: seq<Gift>, i: nat)
    requires i < |w.threads|
    ensures GivenAll(abi, w, gs).threads[i] == w.threads[i].(saved := Delivered(abi, w.threads[i].saved, gs, i))
    decreases |gs|
  {
    hide SetAt;
    if gs != [] {
      var n := |gs| - 1;
      GivenDelivers(abi, w, gs[..n], i);
      if gs[n].thread == i && LastGift(gs[..n], i).Some? {
        var g := LastGift(gs[..n], i).value;
        SetTwice(w.threads[i].saved, abi.r0, g.v0, abi.r1, g.v1, gs[n].v0, gs[n].v1);
      }
    }
  }

  /** While a thread is not resumed, only results can be written for it. */
  lemma WaitsOnce(abi: Abi, w: World, h: Happening, i: nat)
    requires w.running < |w.threads| && i < |w.threads| && w.running != i && !SwitchesTo(h, i)
    ensures var v := Next(abi, w, h);
      && |v.threads| == |w.threads| && v.running < |v.threads| && v.running != i
      && v.threads[i] == w.threads[i].(saved := Delivered(abi, w.threads[i].saved, GiftsOf(h), i))
  {
    hide Plus, GivenAll, Merge, SetAt, Delivered;
    if h.Traps? {
      GivenDelivers(abi, w, h.gifts, i);
    } else {
      assert Delivered(abi, w.threads[i].saved, [], i) == w.threads[i].saved by {
        NothingDelivered(abi, w.threads[i].saved, i);
      }
    }
  }

  lemma NothingDelivered(abi: Abi, x: seq<U64>, i: nat)
    ensures Delivered(abi, x, [], i) == x
  {
  }

  lemma {:induction false} Waits(abi: Abi, w: World, hs: seq<Happening>, i: nat)
    requires w.running < |w.threads| && i < |w.threads| && w.running != i && NeverResumed(hs, i)
    ensures var v := History(abi, w, hs);
      && |v.threads| == |w.threads| && v.running < |v.threads| && v.running != i
      && v.threads[i] == w.threads[i].(saved := Delivered(abi, w.threads[i].saved, AllGifts(hs), i))
    decreases |hs|
  {
    hide Next, Delivered;
    if hs == [] {
      NothingDelivered(abi, w.threads[i].saved, i);
    } else {
      assert !SwitchesTo(hs[0], i);
      WaitsOnce(abi, w, hs[0], i);
      forall k | 0 <= k < |hs| - 1 ensures !SwitchesTo(hs[1..][k], i) {
        assert hs[1..][k] == hs[k + 1];
      }
      Waits(abi, Next(abi, w, hs[0]), hs[1..], i);
      DeliveredAgain(abi, w.threads[i].saved, GiftsOf(hs[0]), AllGifts(hs[1..]), i);
    }
  }

  /** A trap that takes the processor from thread `w.running` while keeping it alive. */
  predicate Suspends(w: World, h: Happening) {
    && w.running < |w.threads| && h.Traps? && (h.decision.Yield? || h.decision.Handoff?)
    && h.decision.to < |w.threads| && h.decision.to != w.running
  }

  /** The history from a trap that switches the running thread out to the next one that
      switches it in. */
  ghost predicate Suspension(w: World, out: Happening, hs: seq<Happening>, back: Happening) {
    Suspends(w, out) && NeverResumed(hs, w.running) && SwitchesTo(back, w.running)
  }

  function Whole(out: Happening, hs: seq<Happening>, back: Happening): seq<Happening> {
    [out] + hs + [back]
  }

  /** The results written for a thread while it was out. */
  function Meanwhile(hs: seq<Happening>, back: Happening): seq<Gift> {
    AllGifts(hs) + GiftsOf(back)
  }

  lemma {:induction false} HistoryOfTwo(abi: Abi, w: World, a: seq<Happening>, b: seq<Happening>)
    ensures History(abi, w, a + b) == History(abi, History(abi, w, a), b)
    decreases |a|
  {
    hide Next;
    if a == [] {
      assert a + b == b;
    } else {
      assert (a + b)[1..] == a[1..] + b;
      HistoryOfTwo(abi, Next(abi, w, a[0]), a[1..], b);
    }
  }

  lemma {:induction false} WholeHistory(abi: Abi, w: World, out: Happening, hs: seq<Happening>, back: Happening)
    ensures History(abi, w, Whole(out, hs, back)) == Next(abi, History(abi, Next(abi, w, out), hs), back)
  {
    hide Next;
    assert [out] + hs + [back] == [out] + (hs + [back]);
    assert ([out] + (hs + [back]))[1..] == hs + [back];
    HistoryOfTwo(abi, Next(abi, w, out), hs, [back]);
    var v := History(abi, Next(abi, w, out), hs);
    assert [back][1..] == [];
    assert History(abi, v, [back]) == History(abi, Next(abi, v, back), []);
  }

  /** What the trap that resumes a thread makes of it. */
  lemma SwitchedIn(abi: Abi, v: World, back: Happening, i: nat)
    requires v.running < |v.threads| && i < |v.threads| && v.running != i && SwitchesTo(back, i)
    ensures var u, t := Next(abi, v, back), v.threads[i];
      && u.running == i && |u.threads| == |v.threads|
      && u.threads[i] == Woken(abi, t.(saved := Delivered(abi, t.saved, back.gifts, i)), back.decision.Handoff?)
  {
    hide Plus, GivenAll, Merge, SetAt, Delivered, Woken;
    GivenDelivers(abi, v, back.gifts, i);
  }

  /** A suspended thread comes back running, in its own space at its own next
      instruction, as the context it was parked in and the results written since say. */
  lemma {:induction false} ComesBack(abi: Abi, w: World, out: Happening, hs: seq<Happening>, back: Happening)
    requires Suspension(w, out, hs, back)
    ensures var v, t := History(abi, w, Whole(out, hs, back)), Current(w);
      var saved := Delivered(abi, t.saved, out.gifts, w.running);
      var parked := if out.decision.Handoff? then Merge(abi.kept, t.x, saved) else t.x;
      var context := Delivered(abi, parked, Meanwhile(hs, back), w.running);
      && |v.threads| == |w.threads| && v.running == w.running && Current(v).space == t.space
      && Current(v).pc == (if out.call then Plus(t.pc, 4) else t.pc)
      && Current(v).x == (if back.decision.Handoff? then Merge(abi.kept, context, Zeros(|context|)) else context)
  {
    hide Plus, GivenAll, Merge, SetAt, Delivered, History, Zeros;
    var i := w.running;
    var v1 := Next(abi, w, out);
    GivenDelivers(abi, w, out.gifts, i);
    assert v1.threads[i] == Parked(abi, GivenAll(abi, w, out.gifts).threads[i],
                                   if out.call then Plus(Current(w).pc, 4) else Current(w).pc, out.decision.Handoff?);
    Waits(abi, v1, hs, i);
    SwitchedIn(abi, History(abi, v1, hs), back, i);
    DeliveredAgain(abi, v1.threads[i].saved, AllGifts(hs), GiftsOf(back), i);
    WholeHistory(abi, w, out, hs, back);
  }

  /** A thread switched out fully and resumed fully has every register it trapped with,
      but for the last results written for it. */
  lemma {:induction false} FullSwitchKeepsAll(abi: Abi, w: World, out: Happening, hs: seq<Happening>, back: Happening)
    requires Suspension(w, out, hs, back) && out.decision.Yield? && !back.decision.Handoff?
    ensures var v, t := History(abi, w, Whole(out, hs, back)), Current(w);
      && |v.threads| == |w.threads| && v.running == w.running && Current(v).space == t.space
      && Current(v).x == Delivered(abi, t.x, Meanwhile(hs, back), w.running)
      && Current(v).pc == (if out.call then Plus(t.pc, 4) else t.pc)
  {
    hide Plus, Merge, Delivered, History, Zeros;
    ComesBack(abi, w, out, hs, back);
  }

  /** With a handoff on either side it has the registers a handoff keeps, but for the
      last results; and one resumed by a handoff has zero in all others: nothing of what
      ran in between is left in them. */
  lemma {:induction false} HandoffKeeps(abi: Abi, w: World, out: Happening, hs: seq<Happening>, back: Happening, k: nat)
    requires Suspension(w, out, hs, back)
    requires |Current(w).x| == |Current(w).saved| && k < |Current(w).x|
    ensures var v, t := History(abi, w, Whole(out, hs, back)), Current(w);
      && |v.threads| == |w.threads| && v.running == w.running && Current(v).space == t.space
      && Current(v).pc == (if out.call then Plus(t.pc, 4) else t.pc) && |Current(v).x| == |t.x|
      && (abi.kept(k) ==> Current(v).x[k] == Delivered(abi, t.x, Meanwhile(hs, back), w.running)[k])
      && (!abi.kept(k) && back.decision.Handoff? ==> Current(v).x[k] == 0)
  {
    hide Plus, History;
    ComesBack(abi, w, out, hs, back);
  }
}
