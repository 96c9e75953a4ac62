/** Sequence ids that survive restarts (main/tcm/tcm_context.c): ids are handed out from
    RAM, a reservation ahead of them is kept in NVS, and a restart resumes from there. */
module TcmSequence {

  const RESERVATION := 32

  /** `stored` is the NVS key seq_reserved; an absent key reads as 0. */
  datatype Ids = Ids(counter: nat, reservedTo: nat, stored: nat)

  function Reserved(s: Ids, writeOk: bool): Ids {
    if s.counter >= s.reservedTo then
      var to := s.reservedTo + RESERVATION;
      s.(reservedTo := to, stored := if writeOk then to else s.stored)
    else s
  }

  function Issued(s: Ids, writeOk: bool): Ids {
    var r := Reserved(s, writeOk);
    r.(counter := r.counter + 1)
  }

  // A reservation that cannot be read counts as 0.
  function Restarted(s: Ids, readOk: bool, writeOk: bool): Ids {
    var reserved := if readOk then s.stored else 0;
    var to := reserved + RESERVATION;
    Ids(reserved, to, if writeOk then to else s.stored)
  }

  class SequenceCounter {
    var counter: nat
    var reservedTo: nat
    var stored: nat

    ghost function Abs(): Ids
      reads this
    {
      Ids(counter, reservedTo, stored)
    }

    method PersistSequence(to: nat, writeOk: bool)
      modifies this`stored
      ensures stored == if writeOk then to else old(stored)
    {
      if writeOk { stored := to; }
    }

    method TcmInit(readOk: bool, writeOk: bool)
      modifies this
      ensures Abs() == Restarted(old(Abs()), readOk, writeOk)
    {
      var reserved := 0;
      if readOk { reserved := stored; }
      counter := reserved;
      reservedTo := reserved + RESERVATION;
      PersistSequence(reservedTo, writeOk);
    }

    /** `cut` loses power between the reservation and the increment. */
    method NextSequence(writeOk: bool, cut: bool) returns (value: nat)
      modifies this
      ensures cut ==> Abs() == Reserved(old(Abs()), writeOk)
      ensures !cut ==> Abs() == Issued(old(Abs()), writeOk) && value == counter
    {
      value := 0;
      if counter >= reservedTo {
        reservedTo := reservedTo + RESERVATION;
        PersistSequence(reservedTo, writeOk);
      }
      if cut { return; }
      counter := counter + 1;
      value := counter;
    }
  }

  // ---- Histories: calls, restarts, and power cuts inside a call (followed by a restart) ----

  datatype Event =
    | Next(nextOk: bool)
    | Restart(readOk: bool, initOk: bool)
    | CutInNext(cutOk: bool, bootReadOk: bool, bootOk: bool)

  function Step(s: Ids, e: Event): Ids {
    match e
    case Next(ok) => Issued(s, ok)
    case Restart(readOk, ok) => Restarted(s, readOk, ok)
    case CutInNext(ok, readOk, bootOk) => Restarted(Reserved(s, ok), readOk, bootOk)
  }

  /** The ids a history hands out, in order. */
  function Values(s: Ids, es: seq<Event>): seq<nat>
    decreases es
  {
    if es == [] then []
    else (if es[0].Next? then [Step(s, es[0]).counter] else []) + Values(Step(s, es[0]), es[1..])
  }

  function Restarts(es: seq<Event>): nat {
    if es == [] then 0 else (if es[0].Next? then 0 else 1) + Restarts(es[1..])
  }

  predicate NvsWorks(e: Event) {
    match e
    case Next(ok) => ok
    case Restart(readOk, ok) => readOk && ok
    case CutInNext(ok, readOk, bootOk) => ok && readOk && bootOk
  }

  predicate NvsAlwaysWorks(es: seq<Event>) {
    forall e <- es :: NvsWorks(e)
  }

  // The reservation on flash covers every id handed out, by at most 32.
  ghost predicate Covered(s: Ids) {
    s.stored == s.reservedTo && s.counter <= s.stored <= s.counter + RESERVATION
  }

  lemma StepCovered(s: Ids, e: Event)
    requires Covered(s) && NvsWorks(e)
    ensures Covered(Step(s, e))
    ensures if e.Next? then Step(s, e).counter == s.counter + 1
            else s.counter <= Step(s, e).counter <= s.counter + RESERVATION
  {}

  lemma {:induction false} ValuesAbove(s: Ids, es: seq<Event>)
    requires Covered(s) && NvsAlwaysWorks(es)
    ensures forall i :: 0 <= i < |Values(s, es)| ==> Values(s, es)[i] > s.counter
    decreases es
  {
    if es == [] {
    } else {
      StepCovered(s, es[0]);
      ValuesAbove(Step(s, es[0]), es[1..]);
    }
  }

  /** Ids are strictly increasing over every history of calls, restarts and power cuts. */
  lemma {:induction false} StrictlyIncreasing(s: Ids, es: seq<Event>, i: nat, j: nat)
    requires Covered(s) && NvsAlwaysWorks(es)
    requires i < j < |Values(s, es)|
    ensures Values(s, es)[i] < Values(s, es)[j]
    decreases es
  {
    var t := Step(s, es[0]);
    var rest := Values(t, es[1..]);
    StepCovered(s, es[0]);
    if es[0].Next? {
      assert Values(s, es) == [t.counter] + rest;
      if i == 0 {
        ValuesAbove(t, es[1..]);
        assert Values(s, es)[j] == rest[j - 1];
      } else {
        StrictlyIncreasing(t, es[1..], i - 1, j - 1);
      }
    } else {
      assert Values(s, es) == rest;
      StrictlyIncreasing(t, es[1..], i, j);
    }
  }

  function Last(s: Ids, es: seq<Event>): nat {
    if |Values(s, es)| == 0 then s.counter else Values(s, es)[|Values(s, es)| - 1]
  }

  /** At most 32 ids are lost for each restart: the last id stays within the number of
      calls plus 32 for every restart. */
  lemma {:induction false} FewIdsSkipped(s: Ids, es: seq<Event>)
    requires Covered(s) && NvsAlwaysWorks(es)
    ensures s.counter + |Values(s, es)| <= Last(s, es) <= s.counter + |Values(s, es)| + RESERVATION * Restarts(es)
    decreases es
  {
    if es == [] {
    } else {
      var t := Step(s, es[0]);
      var rest := Values(t, es[1..]);
      StepCovered(s, es[0]);
      FewIdsSkipped(t, es[1..]);
      LastNext(s, es);
      if es[0].Next? {
        assert |Values(s, es)| == 1 + |rest| && Restarts(es) == Restarts(es[1..]);
      } else {
        assert Values(s, es) == rest && Restarts(es) == 1 + Restarts(es[1..]);
      }
    }
  }

  // The last id of a history is that of its rest, unless a restart hands out none after it.
  lemma LastNext(s: Ids, es: seq<Event>)
    requires es != []
    ensures var t := Step(s, es[0]);
            Last(s, es) == if !es[0].Next? && |Values(t, es[1..])| == 0 then s.counter else Last(t, es[1..])
  {
    var t := Step(s, es[0]);
    var rest := Values(t, es[1..]);
    if es[0].Next? {
      assert Values(s, es) == [t.counter] + rest;
      if rest != [] { assert Values(s, es)[|rest|] == rest[|rest| - 1]; }
    } else {
      assert Values(s, es) == rest;
    }
  }

  // ---- When no id repeats ----

  function Max(a: nat, b: nat): nat { if a < b then b else a }

  /** At each restart that is followed by a call, the reservation then loaded reaches the
      highest id ever handed out. `top` is that id so far (0 before the first call), and
      `restarted` says that the last event was a restart. */
  predicate ReservationsReach(s: Ids, top: nat, es: seq<Event>, restarted: bool)
    decreases es
  {
    if es == [] then true
    else
      var t := Step(s, es[0]);
      if es[0].Next? then
        (restarted ==> s.counter >= top) && ReservationsReach(t, Max(top, t.counter), es[1..], false)
      else ReservationsReach(t, top, es[1..], true)
  }

  ghost predicate Increasing(vs: seq<nat>) { forall i, j :: 0 <= i < j < |vs| ==> vs[i] < vs[j] }

  ghost predicate Above(top: nat, vs: seq<nat>) { forall i :: 0 <= i < |vs| ==> vs[i] > top }

  lemma IncreasingCons(v: nat, vs: seq<nat>)
    ensures Increasing([v] + vs) <==> Above(v, vs) && Increasing(vs)
  {
    var all := [v] + vs;
    assert forall i :: 0 <= i < |vs| ==> all[i + 1] == vs[i];
    if Increasing(all) {
      forall i | 0 <= i < |vs| ensures vs[i] > v { assert all[0] < all[i + 1]; }
      forall i, j | 0 <= i < j < |vs| ensures vs[i] < vs[j] { assert all[i + 1] < all[j + 1]; }
    }
  }

  // After a restart from below `top`, a call repeats or undercuts an id.
  lemma {:induction false} ValuesFreshIff(s: Ids, top: nat, es: seq<Event>, restarted: bool)
    requires !restarted ==> s.counter >= top
    ensures ReservationsReach(s, top, es, restarted) <==> Above(top, Values(s, es)) && Increasing(Values(s, es))
    decreases es
  {
    if es == [] {
    } else {
      var t := Step(s, es[0]);
      var rest := Values(t, es[1..]);
      if es[0].Next? {
        assert Values(s, es) == [t.counter] + rest;
        IncreasingCons(t.counter, rest);
        if s.counter >= top {
          ValuesFreshIff(t, t.counter, es[1..], false);
        } else {
          assert ([t.counter] + rest)[0] <= top;
        }
      } else {
        assert Values(s, es) == rest;
        ValuesFreshIff(t, top, es[1..], true);
      }
    }
  }

  /** Over any history, failed writes and reads included, no id repeats and all ascend exactly when at
      each restart followed by a call the reservation loaded reaches the highest id so far. */
  lemma AscendingIff(s: Ids, es: seq<Event>)
    ensures Increasing(Values(s, es)) <==> ReservationsReach(s, 0, es, false)
  {
    ValuesFreshIff(s, 0, es, false);
    ValuesPositive(s, es);
  }

  lemma {:induction false} ValuesPositive(s: Ids, es: seq<Event>)
    ensures Above(0, Values(s, es))
    decreases es
  {
    if es == [] {
    } else {
      ValuesPositive(Step(s, es[0]), es[1..]);
    }
  }

  /** It is not enough to reach the last id: after 33 calls whose writes failed, a restart
      hands out 1 and reserves up to 32, and the next hands out 33 a second time. */
  lemma LastIdIsNotEnough()
    ensures var s := Ids(33, 64, 0);
            var once := Issued(Restarted(s, true, true), true);
            var twice := Issued(Restarted(once, true, true), true);
            once == Ids(1, 32, 32) && once.stored >= once.counter && twice.counter == s.counter
  {}

  /** Without the write the guarantee is lost: a failed first reservation makes the restart
      hand out id 1 a second time. */
  lemma FailedWriteRepeatsIds()
    ensures Values(Ids(0, 0, 0), [Restart(true, false), Next(true), Restart(true, true), Next(true)]) == [1, 1]
  {
    var es := [Restart(true, false), Next(true), Restart(true, true), Next(true)];
    var s0 := Ids(0, 0, 0);
    var s1 := Step(s0, es[0]);
    var s2 := Step(s1, es[1]);
    var s3 := Step(s2, es[2]);
    assert s1 == Ids(0, 32, 0) && s2 == Ids(1, 32, 0) && s3 == Ids(0, 32, 32);
    assert es[1..] == [Next(true), Restart(true, true), Next(true)];
    assert es[1..][1..] == [Restart(true, true), Next(true)];
    assert es[1..][1..][1..] == [Next(true)];
    assert es[1..][1..][1..][1..] == [];
    assert Values(s3, es[1..][1..][1..]) == [1] + Values(Step(s3, Next(true)), []);
    assert Values(s2, es[1..][1..]) == Values(s3, es[1..][1..][1..]);
    assert Values(s1, es[1..]) == [1] + Values(s2, es[1..][1..]);
  }

  /** Nor is writing enough: a boot that cannot read its reservation starts again from 1. */
  lemma FailedReadRepeatsIds()
    ensures Values(Ids(0, 0, 0), [Next(true), Restart(false, true), Next(true)]) == [1, 1]
  {
    var es := [Next(true), Restart(false, true), Next(true)];
    var s0 := Ids(0, 0, 0);
    var s1 := Step(s0, es[0]);
    var s2 := Step(s1, es[1]);
    assert s1 == Ids(1, 32, 32) && s2 == Ids(0, 32, 32);
    assert es[1..] == [Restart(false, true), Next(true)];
    assert es[1..][1..] == [Next(true)];
    assert es[1..][1..][1..] == [];
    assert Values(s2, es[1..][1..]) == [1] + Values(Step(s2, Next(true)), []);
    assert Values(s1, es[1..]) == Values(s2, es[1..][1..]);
  }

  /** A first boot starts covered, so the results above apply to the life of a device. */
  lemma FirstBootCovered()
    ensures Covered(Restarted(Ids(0, 0, 0), true, true))
  {}
}
