/** The keyboard driver of sys/keyboard.c: the control keys, and the ring that the interrupt
    handler fills while keyboard_getchar empties it one statement at a time. */
module Keyboard {
  const RING := 256

  // ---------------------------------------------------------------- control keys

  // Positions in the control map: Ctrl, Alt, AltGr, the two Shifts, Caps, Scroll and Num lock.
  const CONTROL_MAP: seq<int> := [29, 56, 0, 42, 54, 58, 70, 69]
  const CTRL := 0
  const LSHIFT := 3
  const RSHIFT := 4
  const CAPSLOCK := 5

  type scancode = s: int | 0 <= s < 256

  function Position(key: int): (i: nat)
    ensures i < 8 ==> CONTROL_MAP[i] == key
    ensures i >= 8 ==> key !in CONTROL_MAP
  {
    if key == 29 then 0 else if key == 56 then 1 else if key == 0 then 2 else if key == 42 then 3
    else if key == 54 then 4 else if key == 58 then 5 else if key == 70 then 6 else if key == 69 then 7 else 8
  }

  // The control bits after a scancode: a press inverts its key's bit, a release clears one
  // of the first five.
  function ControlStep(on: set<nat>, s: scancode): set<nat> {
    var i := Position(s % 128);
    if i == 8 then on
    else if s >= 128 then (if i < 5 then on - {i} else on)
    else if i in on then on - {i} else on + {i}
  }

  // Whether a scancode gives a character: every press does, except one that switches a
  // control key on.
  predicate Types(on: set<nat>, s: scancode) {
    s < 128 && (Position(s) == 8 || Position(s) in on)
  }

  function Shifted(on: set<nat>): bool {
    (LSHIFT in on || RSHIFT in on || CAPSLOCK in on) && CTRL !in on
  }

  ghost function Controls(on: set<nat>, ss: seq<scancode>): set<nat>
    decreases |ss|
  {
    if ss == [] then on else Controls(ControlStep(on, ss[0]), ss[1..])
  }

  lemma {:induction false} ControlsExtend(on: set<nat>, ss: seq<scancode>, s: scancode)
    ensures Controls(on, ss + [s]) == ControlStep(Controls(on, ss), s)
    decreases |ss|
  {
    if ss == [] {
      assert (ss + [s])[1..] == [];
    } else {
      assert (ss + [s])[1..] == ss[1..] + [s];
      ControlsExtend(ControlStep(on, ss[0]), ss[1..], s);
    }
  }

  // What followed the last release of a key.
  ghost function SinceRelease(key: int, ss: seq<scancode>): (rest: seq<scancode>)
    ensures |rest| <= |ss|
  {
    if ss == [] then []
    else
      var n := |ss| - 1;
      if ss[n] == key + 128 then [] else SinceRelease(key, ss[..n]) + [ss[n]]
  }

  lemma {:induction false} SinceReleaseIsLast(key: int, ss: seq<scancode>)
    ensures var rest := SinceRelease(key, ss);
      && rest == ss[|ss| - |rest|..] && key + 128 !in rest
      && (|rest| < |ss| ==> ss[|ss| - |rest| - 1] == key + 128)
  {
    if ss != [] { SinceReleaseIsLast(key, ss[..|ss| - 1]); }
  }

  lemma SinceReleaseExtends(key: int, ss: seq<scancode>, s: scancode)
    ensures SinceRelease(key, ss + [s]) == if s == key + 128 then [] else SinceRelease(key, ss) + [s]
  {
    assert (ss + [s])[..|ss|] == ss;
  }

  // What a scancode does to the bit of the key at position i.
  lemma BitStep(on: set<nat>, s: scancode, i: nat)
    requires i < 8
    ensures var key := CONTROL_MAP[i];
      i in ControlStep(on, s) <==>
        if s == key then i !in on else if s == key + 128 && i < 5 then false else i in on
  {
    assert forall j :: 0 <= j < 8 ==> CONTROL_MAP[j] < 128 && Position(CONTROL_MAP[j]) == j;
  }

  ghost function Times(key: int, ss: seq<scancode>): nat {
    multiset(ss)[key]
  }

  lemma TimesExtends(key: int, ss: seq<scancode>, s: scancode)
    ensures Times(key, ss + [s]) == Times(key, ss) + if s == key then 1 else 0
  {
  }

  lemma NothingPressed(on: set<nat>, key: int)
    ensures Controls(on, []) == on && SinceRelease(key, []) == [] && Times(key, []) == 0
  {
  }

  lemma {:induction false} HeldKeyBit(on: set<nat>, ss: seq<scancode>, i: nat, key: int)
    requires i < 5 && key == CONTROL_MAP[i]
    ensures var rest := SinceRelease(key, ss);
      i in Controls(on, ss) <==> (Times(key, rest) + if |rest| == |ss| && i in on then 1 else 0) % 2 == 1
  {
    hide Controls, SinceRelease, ControlStep, Position, Times;
    NothingPressed(on, key);
    if ss != [] {
      var n, s := |ss| - 1, ss[|ss| - 1];
      HeldKeyBit(on, ss[..n], i, key);
      assert ss == ss[..n] + [s];
      ControlsExtend(on, ss[..n], s);
      SinceReleaseExtends(key, ss[..n], s);
      BitStep(Controls(on, ss[..n]), s, i);
      TimesExtends(key, SinceRelease(key, ss[..n]), s);
    }
  }

  lemma {:induction false} LockKeyBit(on: set<nat>, ss: seq<scancode>, i: nat, key: int)
    requires 5 <= i < 8 && key == CONTROL_MAP[i]
    ensures i in Controls(on, ss) <==> (Times(key, ss) + if i in on then 1 else 0) % 2 == 1
  {
    hide Controls, ControlStep, Position, Times;
    NothingPressed(on, key);
    if ss != [] {
      var n, s := |ss| - 1, ss[|ss| - 1];
      LockKeyBit(on, ss[..n], i, key);
      assert ss == ss[..n] + [s];
      ControlsExtend(on, ss[..n], s);
      BitStep(Controls(on, ss[..n]), s, i);
      TimesExtends(key, ss[..n], s);
    }
  }

  // A held key that repeats its make code flips its bit each time: after any scancodes the
  // bit is set exactly when the key was pressed an odd number of times since its release,
  // or ever for a lock key, whose release does nothing. A bit set before counts for a press.
  lemma {:induction false} BitIsParityOfPresses(on: set<nat>, ss: seq<scancode>, i: nat)
    requires i < 8
    ensures var key := CONTROL_MAP[i]; var rest := if i < 5 then SinceRelease(key, ss) else ss;
      i in Controls(on, ss) <==> (multiset(rest)[key] + if |rest| == |ss| && i in on then 1 else 0) % 2 == 1
  {
    if i < 5 { HeldKeyBit(on, ss, i, CONTROL_MAP[i]); } else { LockKeyBit(on, ss, i, CONTROL_MAP[i]); }
  }

  // The shifted table is read exactly when a Shift or Caps lock is on and Ctrl is not.
  lemma ShiftedByParity(ss: seq<scancode>)
    ensures Shifted(Controls({}, ss)) <==>
      && (multiset(SinceRelease(42, ss))[42] % 2 == 1 || multiset(SinceRelease(54, ss))[54] % 2 == 1 || multiset(ss)[58] % 2 == 1)
      && multiset(SinceRelease(29, ss))[29] % 2 == 0
  {
    hide Controls, SinceRelease;
    BitIsParityOfPresses({}, ss, CTRL);
    BitIsParityOfPresses({}, ss, LSHIFT);
    BitIsParityOfPresses({}, ss, RSHIFT);
    BitIsParityOfPresses({}, ss, CAPSLOCK);
  }

  // A press gives no character exactly when it switches a control key on.
  lemma TypesByParity(ss: seq<scancode>, s: scancode)
    requires s < 128
    ensures Types(Controls({}, ss), s) <==>
      && (s in {29, 56, 0, 42, 54} ==> multiset(SinceRelease(s, ss))[s] % 2 == 1)
      && (s in {58, 70, 69} ==> multiset(ss)[s] % 2 == 1)
  {
    hide Controls, SinceRelease;
    if Position(s) < 8 { BitIsParityOfPresses({}, ss, Position(s)); }
  }

  // ---------------------------------------------------------------- the ring

  // a is b with some elements left out.
  ghost predicate Subsequence<T>(a: seq<T>, b: seq<T>)
    decreases |b|
  {
    a == [] ||
    (b != [] &&
     ((a[|a| - 1] == b[|b| - 1] && Subsequence(a[..|a| - 1], b[..|b| - 1])) || Subsequence(a, b[..|b| - 1])))
  }

  lemma SubsequenceGrows<T>(a: seq<T>, b: seq<T>, c: T)
    requires Subsequence(a, b)
    ensures Subsequence(a, b + [c]) && Subsequence(a + [c], b + [c])
  {
    assert (b + [c])[..|b|] == b && (a + [c])[..|a|] == a;
  }

  lemma {:induction false} PrefixOfSubsequence<T>(a: seq<T>, b: seq<T>, k: nat)
    requires Subsequence(a, b) && k <= |a|
    ensures Subsequence(a[..k], b)
    decreases |b|
  {
    if a[..k] != [] {
      var n, m := |a| - 1, |b| - 1;
      if a[n] == b[m] && Subsequence(a[..n], b[..m]) {
        if k == |a| {
          assert a[..k] == a;
        } else {
          assert a[..n][..k] == a[..k];
          PrefixOfSubsequence(a[..n], b[..m], k);
        }
      } else {
        PrefixOfSubsequence(a, b[..m], k);
      }
    }
  }

  // What was stored is what was taken, then what is pending, then nothing else but the lost
  // characters; nothing is duplicated or reordered, and nothing disappears uncounted.
  ghost predicate Accounted(taken: seq<int>, queue: seq<int>, stored: seq<int>, lost: nat) {
    && Subsequence(taken + queue, stored)
    && |stored| == |taken| + |queue| + lost
    && (lost == 0 ==> stored == taken + queue)
  }

  // Characters taken and pending are those stored, in order, exactly if none is lost.
  lemma InOrderIffNothingLost(taken: seq<int>, queue: seq<int>, stored: seq<int>, lost: nat)
    requires Accounted(taken, queue, stored, lost)
    ensures lost == 0 <==> taken + queue == stored
    ensures lost == 0 ==> taken <= stored
  {
    if taken + queue == stored {
      assert |taken + queue| == |taken| + |queue|;
    }
  }

  lemma StoreAccounts(taken: seq<int>, queue: seq<int>, stored: seq<int>, lost: nat, c: int)
    requires Accounted(taken, queue, stored, lost)
    ensures Accounted(taken, queue + [c], stored + [c], lost)
    ensures |queue| == RING - 1 ==> Accounted(taken, [], stored + [c], lost + RING)
    ensures |queue| == RING ==> Accounted(taken, [c], stored + [c], lost + RING)
  {
    SubsequenceGrows(taken + queue, stored, c);
    PrefixOfSubsequence(taken + queue, stored, |taken|);
    assert (taken + queue)[..|taken|] == taken == taken + [] && taken + queue + [c] == taken + (queue + [c]);
    SubsequenceGrows(taken, stored, c);
  }

  lemma TakeAccounts(taken: seq<int>, queue: seq<int>, stored: seq<int>, lost: nat)
    requires Accounted(taken, queue, stored, lost) && queue != []
    ensures Accounted(taken + [queue[0]], queue[1..], stored, lost)
  {
    assert taken + [queue[0]] + queue[1..] == taken + queue;
  }

  // ---------------------------------------------------------------- the ring as a step machine

  // Where the reader stands: between calls; past the test that found a character; or with
  // character c taken and the start index still to be masked.
  datatype Phase = Idle | Taking | Masking(c: int)

  // The ring's variables, and all that was ever stored and taken.
  datatype Ring = Ring(buffer: seq<int>, start: nat, end: nat, phase: Phase, stored: seq<int>, taken: seq<int>)

  // The handler's store, and the single statements of keyboard_getchar: its test, the taking
  // of the character with the increment of the start index, and the masking of that index.
  datatype Event = Store(c: int) | Test | Take | Mask

  // The indices are in range, and the reader past its test finds them equal only at 0.
  predicate InRange(r: Ring) {
    && |r.buffer| == RING && r.end < RING
    && (r.start < RING || (r.start == RING && r.phase.Masking?))
    && (r.phase.Taking? && r.start == r.end ==> r.start == 0)
  }

  // The handler may interrupt anywhere; the reader's statements follow each other.
  predicate Enabled(r: Ring, e: Event) {
    match e
    case Store(_) => true
    case Test => r.phase.Idle?
    case Take => r.phase.Taking?
    case Mask => r.phase.Masking?
  }

  // The handler's guard; it subtracts in 32 bits, so with start 0 it never fails.
  predicate Stores(r: Ring) {
    r.end != if r.start == 0 then 0xFFFF_FFFF else r.start - 1
  }

  function Next(r: Ring, e: Event): (r': Ring)
    requires InRange(r) && Enabled(r, e)
    ensures InRange(r')
  {
    match e
    case Store(c) =>
      if Stores(r) then r.(buffer := r.buffer[r.end := c], end := (r.end + 1) % RING, stored := r.stored + [c]) else r
    case Test => if r.start != r.end then r.(phase := Taking) else r
    case Take =>
      var c := r.buffer[r.start];
      r.(phase := Masking(c), start := r.start + 1, taken := r.taken + [c])
    case Mask => r.(start := r.start % RING, phase := Idle)
  }

  // How many characters the reader still finds: none in a ring whose indices meet, unless
  // it is past the test already.
  function Count(r: Ring): (n: nat)
    requires InRange(r)
    ensures n <= RING
  {
    if r.start == r.end && r.phase.Taking? then RING
    else if r.start <= r.end then r.end - r.start
    else r.end - r.start + RING
  }

  // Index i of the ring, which wraps round once.
  function Slot(i: nat): (j: nat)
    requires i < 2 * RING
    ensures j < RING
  {
    if i < RING then i else i - RING
  }

  function Pending(r: Ring): (q: seq<int>)
    requires InRange(r)
    ensures |q| == Count(r) && forall k :: 0 <= k < |q| ==> q[k] == r.buffer[Slot(r.start + k)]
  {
    seq(Count(r), k requires 0 <= k < Count(r) && InRange(r) => r.buffer[Slot(r.start + k)])
  }

  // The states in which a store makes the ring forget what is pending: the end index meets
  // the start at 0, and either the reader has not tested yet, or it has, and they had met.
  predicate Loses(r: Ring) {
    r.start == 0 && r.end == if r.phase.Taking? then 0 else RING - 1
  }

  // Where a store that loses nothing goes: right behind the pending characters.
  lemma StoreSlot(r: Ring, c: int)
    requires InRange(r) && Stores(r) && !Loses(r)
    ensures Count(r) < RING && Count(Next(r, Store(c))) == Count(r) + 1
    ensures Slot(r.start + Count(r)) == r.end
  {
  }

  lemma PendingElsewhere(r: Ring, k: nat)
    requires InRange(r) && Count(r) < RING && k < Count(r)
    ensures Slot(r.start + k) != r.end
  {
  }

  lemma StoreOnPending(r: Ring, c: int)
    requires InRange(r)
    ensures var q, q' := Pending(r), Pending(Next(r, Store(c)));
      && (Loses(r) ==> Stores(r) && |q| >= RING - 1 && q' == if r.phase.Taking? then [c] else [])
      && (Loses(r) ==> (|q| == RING <==> r.phase.Taking?))
      && (Stores(r) && !Loses(r) ==> |q| < RING && q' == q + [c])
      && (!Stores(r) ==> |q| == RING - 1 && q' == q)
  {
    if Stores(r) && !Loses(r) {
      StoreAppends(r, c);
    }
  }

  lemma StoreAppends(r: Ring, c: int)
    requires InRange(r) && Stores(r) && !Loses(r)
    ensures |Pending(r)| < RING && Pending(Next(r, Store(c))) == Pending(r) + [c]
  {
    hide Slot, Count, Loses, Pending;
    var q, q' := Pending(r), Pending(Next(r, Store(c)));
    StoreSlot(r, c);
    forall k | 0 <= k < |q'| ensures q'[k] == (q + [c])[k] {
      if k < |q| { PendingElsewhere(r, k); }
    }
  }

  lemma TakeOnPending(r: Ring)
    requires InRange(r) && r.phase.Taking?
    ensures Pending(r) != [] && Pending(r)[0] == r.buffer[r.start] && Pending(Next(r, Take)) == Pending(r)[1..]
  {
    assert Count(Next(r, Take)) == Count(r) - 1;
  }

  lemma RestOnPending(r: Ring, e: Event)
    requires InRange(r) && Enabled(r, e) && (e.Test? || e.Mask?)
    ensures Pending(Next(r, e)) == Pending(r)
    ensures e.Test? ==> (Next(r, e).phase.Taking? <==> Pending(r) != [])
  {
  }

  // ---------------------------------------------------------------- runs of handler and reader

  ghost predicate Runnable(r: Ring, es: seq<Event>)
    requires InRange(r)
    decreases |es|
  {
    es != [] ==> Enabled(r, es[0]) && Runnable(Next(r, es[0]), es[1..])
  }

  ghost function After(r: Ring, es: seq<Event>): (r': Ring)
    requires InRange(r) && Runnable(r, es)
    ensures InRange(r')
    decreases |es|
  {
    if es == [] then r else After(Next(r, es[0]), es[1..])
  }

  // How many stores of a run happen in a losing state.
  ghost function Losses(r: Ring, es: seq<Event>): nat
    requires InRange(r) && Runnable(r, es)
    decreases |es|
  {
    if es == [] then 0
    else (if es[0].Store? && Loses(r) then 1 else 0) + Losses(Next(r, es[0]), es[1..])
  }

  lemma StepAccounts(r: Ring, e: Event, lost: nat)
    requires InRange(r) && Enabled(r, e) && Accounted(r.taken, Pending(r), r.stored, lost)
    ensures var r' := Next(r, e);
      Accounted(r'.taken, Pending(r'), r'.stored, lost + if e.Store? && Loses(r) then RING else 0)
  {
    hide Accounted, Pending;
    match e
    case Store(c) =>
      StoreOnPending(r, c);
      StoreAccounts(r.taken, Pending(r), r.stored, lost, c);
    case Take =>
      TakeOnPending(r);
      TakeAccounts(r.taken, Pending(r), r.stored, lost);
    case Test => RestOnPending(r, e);
    case Mask => RestOnPending(r, e);
  }

  lemma {:induction false} RunAccounts(r: Ring, es: seq<Event>, lost: nat)
    requires InRange(r) && Runnable(r, es) && Accounted(r.taken, Pending(r), r.stored, lost)
    ensures var r' := After(r, es); Accounted(r'.taken, Pending(r'), r'.stored, lost + RING * Losses(r, es))
    decreases |es|
  {
    hide Accounted, Pending, Next;
    if es != [] {
      StepAccounts(r, es[0], lost);
      RunAccounts(Next(r, es[0]), es[1..], lost + if es[0].Store? && Loses(r) then RING else 0);
    }
  }

  // In every interleaving of the handler with the reader's statements, from an empty ring,
  // the characters taken and then those pending are all those stored, in order, exactly if
  // no store happens in a losing state. Each that does costs 256 characters; nothing is ever
  // duplicated or reordered.
  lemma RunDeliversIff(buffer: seq<int>, es: seq<Event>)
    requires |buffer| == 256 && Runnable(Ring(buffer, 0, 0, Idle, [], []), es)
    ensures var r := Ring(buffer, 0, 0, Idle, [], []); var r' := After(r, es);
      && (r'.taken + Pending(r') == r'.stored <==> Losses(r, es) == 0)
      && (Losses(r, es) == 0 ==> r'.taken <= r'.stored)
      && Subsequence(r'.taken + Pending(r'), r'.stored)
      && |r'.stored| == |r'.taken| + |Pending(r')| + 256 * Losses(r, es)
  {
    var r := Ring(buffer, 0, 0, Idle, [], []);
    assert [] + Pending(r) == [];
    RunAccounts(r, es, 0);
    var r' := After(r, es);
    InOrderIffNothingLost(r'.taken, Pending(r'), r'.stored, RING * Losses(r, es));
  }

  lemma {:induction false} FillRing(buffer: seq<int>, n: nat) returns (es: seq<Event>)
    requires |buffer| == RING && n < RING
    ensures var r := Ring(buffer, 0, 0, Idle, [], []);
      Runnable(r, es) && |es| == n && Losses(r, es) == 0 &&
      After(r, es) == Ring(After(r, es).buffer, 0, n, Idle, After(r, es).stored, []) && |After(r, es).stored| == n
  {
    var r := Ring(buffer, 0, 0, Idle, [], []);
    if n == 0 {
      es := [];
    } else {
      var fs := FillRing(buffer, n - 1);
      RunExtends(r, fs, Store(0));
      es := fs + [Store(0)];
    }
  }

  lemma {:induction false} RunExtends(r: Ring, es: seq<Event>, e: Event)
    requires InRange(r) && Runnable(r, es) && Enabled(After(r, es), e)
    ensures Runnable(r, es + [e]) && After(r, es + [e]) == Next(After(r, es), e)
    ensures Losses(r, es + [e]) == Losses(r, es) + if e.Store? && Loses(After(r, es)) then 1 else 0
    decreases |es|
  {
    var fs := es + [e];
    if es == [] {
      assert fs[1..] == [];
    } else {
      assert fs[1..] == es[1..] + [e];
      RunExtends(Next(r, es[0]), es[1..], e);
    }
  }

  // 256 stores into an empty ring: the reader finds nothing.
  lemma RingCanForget(buffer: seq<int>) returns (es: seq<Event>)
    requires |buffer| == RING
    ensures var r := Ring(buffer, 0, 0, Idle, [], []);
      Runnable(r, es) && |After(r, es).stored| == RING && Pending(After(r, es)) == [] && After(r, es).taken == []
  {
    var r := Ring(buffer, 0, 0, Idle, [], []);
    var fs := FillRing(buffer, RING - 1);
    RunExtends(r, fs, Store(0));
    es := fs + [Store(0)];
    StoreOnPending(After(r, fs), 0);
    RunDeliversIff(buffer, es);
  }

  // ---------------------------------------------------------------- the driver

  class Driver {
    const buffer: array<int>
    var start: nat
    var end: nat
    var controls: set<nat>
    var phase: Phase
    ghost var stored: seq<int>  // all the handler ever stored
    ghost var taken: seq<int>   // all the reader ever took
    ghost var scancodes: seq<scancode>  // all that came from the keyboard

    ghost function State(): Ring
      reads this, buffer
    {
      Ring(buffer[..], start, end, phase, stored, taken)
    }

    // The characters still to be taken.
    ghost function Queue(): seq<int>
      requires InRange(State())
      reads this, buffer
    {
      Pending(State())
    }

    // How many characters were stored but neither taken nor are pending.
    ghost function Lost(): int
      requires InRange(State())
      reads this, buffer
    {
      |stored| - |taken| - |Queue()|
    }

    ghost predicate Valid()
      reads this, buffer
    {
      && InRange(State()) && Lost() >= 0 && Accounted(taken, Queue(), stored, Lost())
      && controls == Controls({}, scancodes)
    }

    constructor ()
      ensures Valid() && fresh(buffer) && Queue() == [] && stored == [] && taken == []
      ensures phase == Idle && controls == {} && scancodes == []
    {
      buffer := new int[RING](_ => 0);
      start, end, controls, phase := 0, 0, {}, Idle;
      stored, taken, scancodes := [], [], [];
      new;
      assert [] + Queue() == [];
    }

    // The store that ends keyboard_handler.
    method Store(c: int)
      requires Valid()
      modifies this`end, this`stored, buffer
      ensures Valid() && State() == Next(old(State()), Event.Store(c))
      // A free slot is left, or the ring is full and the character is dropped.
      ensures |old(Queue())| < RING - 1 ==> Queue() == old(Queue()) + [c] && stored == old(stored) + [c] && Lost() == old(Lost())
      ensures |old(Queue())| == RING - 1 && start != 0 ==> Queue() == old(Queue()) && stored == old(stored) && Lost() == old(Lost())
      // The case start = 0 and end = 255: the ring then looks empty, and a reader between
      // calls will never see its 256 characters.
      ensures |old(Queue())| == RING - 1 && start == 0 && !phase.Taking? ==> Queue() == [] && stored == old(stored) + [c]
      ensures |old(Queue())| == RING - 1 && start == 0 && phase.Taking? ==> Queue() == old(Queue()) + [c] && stored == old(stored) + [c]
      ensures |old(Queue())| == RING ==> Queue() == [c] && stored == old(stored) + [c]
      ensures Lost() != old(Lost()) <==> (|old(Queue())| == RING - 1 && start == 0 && !phase.Taking?) || |old(Queue())| == RING
    {
      hide Accounted, Pending;
      ghost var r, lost := State(), Lost();
      StoreOnPending(r, c);
      StepAccounts(r, Event.Store(c), lost);
      var limit := if start == 0 then 0xFFFF_FFFF else start - 1;
      if end != limit {
        buffer[end] := c;
        assert buffer[..] == r.buffer[end := c];
        end := end + 1;
        stored := stored + [c];
        end := end % RING;
      }
    }

    // keyboard_getchar's test. It reports whether the call goes on to take a character.
    method Test() returns (found: bool)
      requires Valid() && phase == Idle
      modifies this`phase
      ensures Valid() && State() == Next(old(State()), Event.Test) && Queue() == old(Queue())
      ensures found == (Queue() != []) && phase == if found then Taking else Idle
    {
      hide Accounted, Pending;
      RestOnPending(State(), Event.Test);
      found := start != end;
      if found {
        phase := Taking;
      }
    }

    // c = keyboard_buffer[keyboard_buffer_start++]
    method Take()
      requires Valid() && phase == Taking
      modifies this`start, this`phase, this`taken
      ensures old(Queue()) != []
      ensures Valid() && State() == Next(old(State()), Event.Take) && phase == Masking(old(Queue())[0])
      ensures Queue() == old(Queue())[1..] && taken == old(taken) + [old(Queue())[0]]
    {
      hide Accounted, Pending;
      TakeOnPending(State());
      StepAccounts(State(), Event.Take, Lost());
      ghost var c := buffer[start];
      phase := Masking(buffer[start]);
      start := start + 1;
      taken := taken + [c];
    }

    // keyboard_buffer_start &= 255, and the return.
    method Mask() returns (c: int)
      requires Valid() && phase.Masking?
      modifies this`start, this`phase
      ensures Valid() && State() == Next(old(State()), Event.Mask) && Queue() == old(Queue())
      ensures phase == Idle && c == old(phase).c
    {
      hide Accounted, Pending;
      RestOnPending(State(), Event.Mask);
      start := start % RING;
      c := phase.c;
      phase := Idle;
    }

    // The release half of keyboard_handler.
    method Release(s: scancode)
      requires s >= 128
      modifies this`controls
      ensures controls == ControlStep(old(controls), s)
    {
      var i := 0;
      while i < 5
        invariant 0 <= i <= 5 && controls == old(controls)
        invariant forall j :: 0 <= j < i ==> CONTROL_MAP[j] != s - 128
      {
        if CONTROL_MAP[i] == s - 128 {
          controls := controls - {i};
          return;
        }
        i := i + 1;
      }
    }

    // The control keys of the press half. It reports whether a character is to be stored.
    method Press(s: scancode) returns (types: bool)
      requires s < 128
      modifies this`controls
      ensures controls == ControlStep(old(controls), s) && (types <==> Types(old(controls), s))
    {
      var i := 0;
      while i < 8
        invariant 0 <= i <= 8
        invariant controls == if Position(s) < i then old(controls) - {Position(s)} else old(controls)
        invariant Position(s) < i ==> Position(s) in old(controls)
      {
        if CONTROL_MAP[i] == s {
          if i in controls {
            controls := controls - {i};
          } else {
            controls := controls + {i};
            return false;
          }
        }
        i := i + 1;
      }
      types := true;
    }

    // keyboard_handler, with the character tables of the layout.
    method Handle(s: scancode, plain: seq<int>, shift: seq<int>)
      requires Valid() && |plain| == 128 == |shift|
      modifies this`end, this`stored, this`controls, this`scancodes, buffer
      ensures Valid() && scancodes == old(scancodes) + [s] && controls == ControlStep(old(controls), s)
      // Releases and presses that switch a control key on leave the ring alone.
      ensures s >= 128 || (s in {29, 56, 0, 42, 54} && multiset(SinceRelease(s, old(scancodes)))[s] % 2 == 0)
              || (s in {58, 70, 69} && multiset(old(scancodes))[s] % 2 == 0) ==>
        State() == old(State())
      // Every other press stores the character that the Shifts, Caps lock and Ctrl select.
      ensures s < 128 && !(s in {29, 56, 0, 42, 54} && multiset(SinceRelease(s, old(scancodes)))[s] % 2 == 0)
              && !(s in {58, 70, 69} && multiset(old(scancodes))[s] % 2 == 0) ==>
        var shifted := multiset(SinceRelease(42, scancodes))[42] % 2 == 1 || multiset(SinceRelease(54, scancodes))[54] % 2 == 1
          || multiset(scancodes)[58] % 2 == 1;
        var c := if shifted && multiset(SinceRelease(29, scancodes))[29] % 2 == 0 then shift[s] else plain[s];
        State() == Next(old(State()), Event.Store(c)) && (|old(Queue())| < RING - 1 ==> Queue() == old(Queue()) + [c])
    {
      hide Accounted, Pending, Controls, SinceRelease;
      ControlsExtend({}, scancodes, s);
      ShiftedByParity(scancodes + [s]);
      scancodes := scancodes + [s];
      if s >= 128 {
        Release(s);
      } else {
        TypesByParity(old(scancodes), s);
        var types := Press(s);
        if types {
          var table := plain;
          if (LSHIFT in controls || RSHIFT in controls || CAPSLOCK in controls) && CTRL !in controls {
            table := shift;
          }
          Store(table[s]);
        }
      }
    }
  }
}
