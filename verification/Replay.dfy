/** Replaying an event log into the four run-time measurement registers. */
module Replay {
  import opened Bytes
  import opened EventLog

  const RTMR_COUNT: nat := 4
  const RTMR_LENGTH: nat := 48

  /** Any function with 48-byte results; in use it is SHA-384. Nothing else is assumed of it. */
  type Hash = h: bytes -> bytes | forall x :: |h(x)| == RTMR_LENGTH witness (_ => Fill(0, RTMR_LENGTH))

  const ZERO: bytes := Fill(0, RTMR_LENGTH)

  /** The hash chain over digests, from the all-zero value. */
  function Chain(h: Hash, digests: seq<bytes>): (r: bytes)
    ensures |r| == RTMR_LENGTH
    decreases |digests|, 1
  {
    if |digests| == 0 then ZERO else h(Link(h, digests))
  }

  /** The last input that is hashed: the value so far and the last digest. */
  function Link(h: Hash, digests: seq<bytes>): bytes
    requires |digests| > 0
    decreases |digests|, 0
  {
    Chain(h, digests[..|digests| - 1]) + digests[|digests| - 1]
  }

  /** The events of one register, in log order. */
  function Group(entries: seq<Entry>, index: int): seq<Entry>
  {
    if |entries| == 0 then []
    else
      var init := Group(entries[..|entries| - 1], index);
      var last := entries[|entries| - 1];
      if last.rtmr == index then init + [last] else init
  }

  predicate Replayable(e: Entry)
  {
    0 <= e.rtmr < RTMR_COUNT && |e.digests| > 0
  }

  predicate AllReplayable(entries: seq<Entry>)
  {
    forall i :: 0 <= i < |entries| ==> Replayable(entries[i])
  }

  lemma {:induction false} GroupMembers(entries: seq<Entry>, index: int, i: nat)
    requires i < |Group(entries, index)|
    ensures Group(entries, index)[i] in entries && Group(entries, index)[i].rtmr == index
  {
    var init := entries[..|entries| - 1];
    if i < |Group(init, index)| {
      GroupMembers(init, index, i);
    }
  }

  predicate Digested(events: seq<Entry>)
  {
    forall i :: 0 <= i < |events| ==> |events[i].digests| > 0
  }

  lemma {:induction false} GroupDigested(entries: seq<Entry>, index: int)
    requires AllReplayable(entries)
    ensures Digested(Group(entries, index))
  {
    hide Group;
    forall i | 0 <= i < |Group(entries, index)|
      ensures |Group(entries, index)[i].digests| > 0
    {
      GroupMembers(entries, index, i);
    }
  }

  /** The first digest of each event, which is all that is replayed. */
  function FirstDigests(entries: seq<Entry>): (r: seq<bytes>)
    requires Digested(entries)
    ensures |r| == |entries| && forall i :: 0 <= i < |entries| ==> r[i] == entries[i].digests[0]
  {
    seq(|entries|, i requires 0 <= i < |entries| => entries[i].digests[0])
  }

  /** The digests replayed into one register. */
  function DigestsFor(entries: seq<Entry>, index: int): seq<bytes>
    requires AllReplayable(entries)
  {
    GroupDigested(entries, index);
    FirstDigests(Group(entries, index))
  }

  /** The replayed registers; None where an index or digest lookup raises. */
  function ReplayAll(h: Hash, entries: seq<Entry>): (r: Option<seq<bytes>>)
    ensures r.Some? ==> |r.value| == RTMR_COUNT
  {
    if !AllReplayable(entries) then None
    else Some([Chain(h, DigestsFor(entries, 0)), Chain(h, DigestsFor(entries, 1)),
               Chain(h, DigestsFor(entries, 2)), Chain(h, DigestsFor(entries, 3))])
  }

  // The register machine

  /** Extends the event's register with its first digest. */
  function Extend(h: Hash, regs: seq<bytes>, e: Entry): seq<bytes>
    requires |regs| == RTMR_COUNT && Replayable(e)
  {
    regs[e.rtmr := h(regs[e.rtmr] + e.digests[0])]
  }

  function Machine(h: Hash, regs: seq<bytes>, entries: seq<Entry>): (r: seq<bytes>)
    requires |regs| == RTMR_COUNT && AllReplayable(entries)
    ensures |r| == RTMR_COUNT
  {
    if |entries| == 0 then regs
    else Extend(h, Machine(h, regs, entries[..|entries| - 1]), entries[|entries| - 1])
  }

  const ZEROED: seq<bytes> := [ZERO, ZERO, ZERO, ZERO]

  lemma {:induction false} MachineAt(h: Hash, entries: seq<Entry>, index: nat)
    requires AllReplayable(entries) && index < RTMR_COUNT
    ensures Machine(h, ZEROED, entries)[index] == Chain(h, DigestsFor(entries, index))
    decreases |entries|
  {
    if |entries| > 0 {
      var init, last := entries[..|entries| - 1], entries[|entries| - 1];
      MachineAt(h, init, index);
      var ds := DigestsFor(entries, index);
      if last.rtmr == index {
        assert ds[..|ds| - 1] == DigestsFor(init, index);
        assert ds[|ds| - 1] == last.digests[0];
      } else {
        assert ds == DigestsFor(init, index);
      }
    }
  }

  /** Grouping by register and hashing each group gives what extending four zeroed registers one event
      at a time, in log order, gives. */
  lemma {:induction false} GroupedEqualsMachine(h: Hash, entries: seq<Entry>)
    requires AllReplayable(entries)
    ensures ReplayAll(h, entries) == Some(Machine(h, ZEROED, entries))
  {
    hide Chain, DigestsFor, Machine, AllReplayable;
    MachineAt(h, entries, 0);
    MachineAt(h, entries, 1);
    MachineAt(h, entries, 2);
    MachineAt(h, entries, 3);
    var m := Machine(h, ZEROED, entries);
    assert m == [m[0], m[1], m[2], m[3]];
  }

  /** Replaying a log and then its continuation is replaying both. */
  lemma {:induction false} MachineConcat(h: Hash, regs: seq<bytes>, a: seq<Entry>, b: seq<Entry>)
    requires |regs| == RTMR_COUNT && AllReplayable(a) && AllReplayable(b)
    ensures AllReplayable(a + b) && Machine(h, regs, a + b) == Machine(h, Machine(h, regs, a), b)
    decreases |b|
  {
    hide Machine, Extend, Replayable;
    BothReplayable(a, b);
    if |b| == 0 {
      assert a + b == a;
      MachineNothing(h, Machine(h, regs, a));
      assert b == [];
    } else {
      var init, last := b[..|b| - 1], b[|b| - 1];
      assert b == init + [last] && (a + init) + [last] == a + b;
      MachineConcat(h, regs, a, init);
      MachineSnoc(h, regs, a + init, last);
      MachineSnoc(h, Machine(h, regs, a), init, last);
    }
  }

  lemma {:induction false} BothReplayable(a: seq<Entry>, b: seq<Entry>)
    requires AllReplayable(a) && AllReplayable(b)
    ensures AllReplayable(a + b)
  {
    hide Replayable;
  }

  lemma {:induction false} MachineNothing(h: Hash, regs: seq<bytes>)
    requires |regs| == RTMR_COUNT
    ensures Machine(h, regs, []) == regs
  {
  }

  lemma {:induction false} MachineSnoc(h: Hash, regs: seq<bytes>, es: seq<Entry>, e: Entry)
    requires |regs| == RTMR_COUNT && AllReplayable(es) && Replayable(e)
    ensures AllReplayable(es + [e]) && Machine(h, regs, es + [e]) == Extend(h, Machine(h, regs, es), e)
  {
    hide Extend;
    assert (es + [e])[..|es|] == es && (es + [e])[|es|] == e;
  }

  // A replay value binds the log

  /** Every input hashed on the way to a chain value, first to last. */
  function Inputs(h: Hash, digests: seq<bytes>): (r: seq<bytes>)
    ensures |r| == |digests|
  {
    if |digests| == 0 then [] else Inputs(h, digests[..|digests| - 1]) + [Link(h, digests)]
  }

  /** Two different inputs, each hashed by one of the chains, with the same hash. */
  ghost predicate Collide(h: Hash, a: seq<bytes>, b: seq<bytes>)
  {
    exists x, y :: x in Inputs(h, a) && y in Inputs(h, b) && x != y && h(x) == h(y)
  }

  /** An input one of the chains hashes to the all-zero start value. */
  ghost predicate HitsZero(h: Hash, a: seq<bytes>)
  {
    exists x :: x in Inputs(h, a) && h(x) == ZERO
  }

  lemma {:induction false} InputsGrow(h: Hash, digests: seq<bytes>)
    requires |digests| > 0
    ensures Link(h, digests) in Inputs(h, digests)
    ensures forall x :: x in Inputs(h, digests[..|digests| - 1]) ==> x in Inputs(h, digests)
  {
    assert Inputs(h, digests)[|digests| - 1] == Link(h, digests);
  }

  /** Equal chain values mean equal digest lists, unless the two chains themselves exhibit a collision
      or an input that hashes to the start value. */
  lemma {:induction false} ChainBinds(h: Hash, a: seq<bytes>, b: seq<bytes>)
    requires Chain(h, a) == Chain(h, b)
    ensures a == b || Collide(h, a, b) || HitsZero(h, a) || HitsZero(h, b)
    decreases |a|
  {
    hide Chain, Link, Inputs, Collide, HitsZero;
    EmptyChain(h);
    if |a| == 0 && |b| == 0 {
    } else if |a| == 0 {
      ZeroHit(h, b);
    } else if |b| == 0 {
      ZeroHit(h, a);
    } else {
      LastCollide(h, a, b);
      if Link(h, a) == Link(h, b) {
        LinkSplits(h, a, b);
        ChainBinds(h, a[..|a| - 1], b[..|b| - 1]);
        CollideGrows(h, a, b);
        SameEnds(a, b);
      }
    }
  }

  lemma {:induction false} SameEnds(a: seq<bytes>, b: seq<bytes>)
    requires |a| > 0 && |b| > 0 && a[|a| - 1] == b[|b| - 1]
    ensures a[..|a| - 1] == b[..|b| - 1] ==> a == b
  {
    assert a == a[..|a| - 1] + [a[|a| - 1]] && b == b[..|b| - 1] + [b[|b| - 1]];
  }

  lemma {:induction false} ZeroHit(h: Hash, a: seq<bytes>)
    requires |a| > 0 && Chain(h, a) == ZERO
    ensures HitsZero(h, a)
  {
    hide Inputs;
    InputsGrow(h, a);
  }

  lemma {:induction false} LastCollide(h: Hash, a: seq<bytes>, b: seq<bytes>)
    requires |a| > 0 && |b| > 0 && Chain(h, a) == Chain(h, b)
    ensures Link(h, a) != Link(h, b) ==> Collide(h, a, b)
  {
    hide Inputs;
    InputsGrow(h, a);
    InputsGrow(h, b);
  }

  lemma {:induction false} CollideGrows(h: Hash, a: seq<bytes>, b: seq<bytes>)
    requires |a| > 0 && |b| > 0
    ensures Collide(h, a[..|a| - 1], b[..|b| - 1]) ==> Collide(h, a, b)
    ensures HitsZero(h, a[..|a| - 1]) ==> HitsZero(h, a)
    ensures HitsZero(h, b[..|b| - 1]) ==> HitsZero(h, b)
  {
    hide Inputs, Collide, HitsZero, Chain, Link;
    InputsGrow(h, a);
    InputsGrow(h, b);
    WidenZero(h, a[..|a| - 1], a);
    WidenZero(h, b[..|b| - 1], b);
    if Collide(h, a[..|a| - 1], b[..|b| - 1]) {
      WidenCollide(h, a[..|a| - 1], b[..|b| - 1], a, b);
    }
  }

  lemma {:induction false} WidenCollide(h: Hash, a: seq<bytes>, b: seq<bytes>, c: seq<bytes>, d: seq<bytes>)
    requires Collide(h, a, b)
    requires forall x :: x in Inputs(h, a) ==> x in Inputs(h, c)
    requires forall x :: x in Inputs(h, b) ==> x in Inputs(h, d)
    ensures Collide(h, c, d)
  {
    hide Inputs;
  }

  lemma {:induction false} WidenZero(h: Hash, a: seq<bytes>, c: seq<bytes>)
    requires forall x :: x in Inputs(h, a) ==> x in Inputs(h, c)
    ensures HitsZero(h, a) ==> HitsZero(h, c)
  {
    hide Inputs;
  }

  lemma {:induction false} EmptyChain(h: Hash)
    ensures Chain(h, []) == ZERO
  {
  }

  /** Register values have a fixed length, so a hashed input splits in one way only. */
  lemma {:induction false} LinkSplits(h: Hash, a: seq<bytes>, b: seq<bytes>)
    requires |a| > 0 && |b| > 0 && Link(h, a) == Link(h, b)
    ensures Chain(h, a[..|a| - 1]) == Chain(h, b[..|b| - 1]) && a[|a| - 1] == b[|b| - 1]
  {
    hide Chain;
    var x, y := Chain(h, a[..|a| - 1]), Chain(h, b[..|b| - 1]);
    SplitAppend(x, a[|a| - 1]);
    SplitAppend(y, b[|b| - 1]);
  }

  /** The comparison of two register values: the first 48 bytes of each; None when one is shorter. */
  function RtmrEqual(a: bytes, b: bytes): Option<bool>
  {
    var x :- GetBytes(a, 0, RTMR_LENGTH);
    var y :- GetBytes(b, 0, RTMR_LENGTH);
    Some(x.0 == y.0)
  }

  /** The verdict on two values of at least 48 bytes: true if and only if they agree on all of the first
      48. A shorter value raises. */
  lemma {:induction false} RtmrEqualIff(a: bytes, b: bytes)
    ensures RtmrEqual(a, b).Some? <==> |a| >= 48 && |b| >= 48
    ensures RtmrEqual(a, b).Some? ==> (RtmrEqual(a, b).value <==> forall i :: 0 <= i < 48 ==> a[i] == b[i])
  {
    if |a| >= 48 && |b| >= 48 {
      var x, y := a[0..48], b[0..48];
      assert forall i :: 0 <= i < 48 ==> x[i] == a[i] && y[i] == b[i];
      assert x == y <==> forall i :: 0 <= i < 48 ==> x[i] == y[i];
    }
  }

  /** An honest log passes: a register that was zeroed and extended by the same events, one at a time in
      log order, verifies, and no other 48-byte value does. */
  lemma {:induction false} HonestLogPasses(h: Hash, entries: seq<Entry>, index: nat, reported: bytes)
    requires AllReplayable(entries) && index < RTMR_COUNT && |reported| == 48
    ensures ReplayAll(h, entries).Some?
    ensures RtmrEqual(ReplayAll(h, entries).value[index], reported)
         == Some(reported == Machine(h, ZEROED, entries)[index])
  {
    hide Machine, Chain, DigestsFor, RtmrEqual, AllReplayable;
    GroupedEqualsMachine(h, entries);
    var value := ReplayAll(h, entries).value[index];
    RegisterWidth(h, entries, index);
    RtmrEqualIff(value, reported);
    assert value == reported <==> forall i :: 0 <= i < 48 ==> value[i] == reported[i];
  }

  lemma {:induction false} RegisterWidth(h: Hash, entries: seq<Entry>, index: nat)
    requires AllReplayable(entries) && index < RTMR_COUNT
    ensures |ReplayAll(h, entries).value[index]| == 48
  {
    hide Chain, DigestsFor, AllReplayable;
  }

  /** So if two logs both pass verification against the same reported register, they replay the same
      digests into it, or the hash is broken on inputs these two logs supply. */
  lemma {:induction false} VerificationBinds(h: Hash, a: seq<Entry>, b: seq<Entry>, index: nat, reported: bytes)
    requires AllReplayable(a) && AllReplayable(b) && index < RTMR_COUNT
    requires RtmrEqual(ReplayAll(h, a).value[index], reported) == Some(true)
    requires RtmrEqual(ReplayAll(h, b).value[index], reported) == Some(true)
    ensures var x, y := DigestsFor(a, index), DigestsFor(b, index);
            x == y || Collide(h, x, y) || HitsZero(h, x) || HitsZero(h, y)
  {
    hide Chain, DigestsFor, Collide, HitsZero;
    var x, y := DigestsFor(a, index), DigestsFor(b, index);
    assert Chain(h, x)[0..RTMR_LENGTH] == Chain(h, x) && Chain(h, y)[0..RTMR_LENGTH] == Chain(h, y);
    ChainBinds(h, x, y);
  }
}
