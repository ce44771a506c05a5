/**
 * The list of clocks on the board (script.js:13-15, 207-227): an ordered
 * sequence of `{timezone, isLocal}` entries, capped at six by `addClock`,
 * spliced by index by `removeClock`, and written to storage by
 * `saveClocks` after each change.
 *
 * Storage is modelled by the ghost field `saved`, the value last written
 * under the key `clocks` (None when nothing was ever written).
 */
module Clocks {
  import opened Wrappers

  datatype Clock = Clock(timezone: string, isLocal: bool)

  /** `addClock` refuses once the board holds this many clocks. */
  const MaxClocks: nat := 6

  /** `JSON.parse(localStorage.getItem('clocks')) || [local]`: a stored list, even an empty one, wins. */
  function Initial(stored: Option<seq<Clock>>, ambient: string): seq<Clock> {
    match stored
    case Some(cs) => cs
    case None => [Clock(ambient, true)]
  }

  /** The list after `addClock(tz)`. */
  function Added(cs: seq<Clock>, tz: string): seq<Clock> {
    if |cs| >= MaxClocks then cs else cs + [Clock(tz, false)]
  }

  /** Where `splice(start, 1)` starts: a negative start counts from the end, clamped to the list. */
  function SpliceStart(len: nat, start: int): (k: nat)
    ensures k <= len
    ensures 0 <= start < len ==> k == start
  {
    if start < 0 then (if len + start < 0 then 0 else len + start)
    else if start > len then len
    else start
  }

  /** The list after `clocks.splice(start, 1)`. */
  function Spliced(cs: seq<Clock>, start: int): seq<Clock> {
    var k := SpliceStart(|cs|, start);
    if k < |cs| then cs[..k] + cs[k + 1..] else cs
  }

  /** The list after `removeClock(index)`, whose dialog answered `confirmed`. */
  function Removed(cs: seq<Clock>, index: int, confirmed: bool): seq<Clock> {
    if confirmed then Spliced(cs, index) else cs
  }

  /** The local entries of a list, in order. */
  function Locals(cs: seq<Clock>): seq<Clock> {
    if cs == [] then [] else (if cs[0].isLocal then [cs[0]] else []) + Locals(cs[1..])
  }

  class ClockBoard {
    var clocks: seq<Clock>
    ghost var saved: Option<seq<Clock>>

    /** Start-up: the stored list, or a single local clock for the ambient zone. Nothing is written. */
    constructor (stored: Option<seq<Clock>>, ambient: string)
      ensures clocks == Initial(stored, ambient)
      ensures saved == stored
    {
      clocks := Initial(stored, ambient);
      saved := stored;
    }

    /** saveClocks: storage now holds the current list. */
    method SaveClocks()
      modifies this
      ensures saved == Some(clocks)
      ensures clocks == old(clocks)
    {
      saved := Some(clocks);
    }

    /** addClock: refused at the cap; otherwise appends a non-local clock and saves. */
    method AddClock(tz: string) returns (accepted: bool)
      modifies this
      ensures accepted <==> |old(clocks)| < MaxClocks
      ensures clocks == Added(old(clocks), tz)
      ensures accepted ==> clocks == old(clocks) + [Clock(tz, false)] && saved == Some(clocks)
      ensures !accepted ==> clocks == old(clocks) && saved == old(saved)
    {
      if |clocks| >= MaxClocks {
        return false;
      }
      clocks := clocks + [Clock(tz, false)];
      SaveClocks();
      accepted := true;
    }

    /** removeClock: when the dialog is confirmed, splices out one entry and saves; otherwise nothing. */
    method RemoveClock(index: int, confirmed: bool)
      modifies this
      ensures clocks == Removed(old(clocks), index, confirmed)
      ensures saved == if confirmed then Some(clocks) else old(saved)
    {
      if confirmed {
        var k := SpliceStart(|clocks|, index);
        if k < |clocks| {
          clocks := clocks[..k] + clocks[k + 1..];
        }
        SaveClocks();
      }
    }
  }

  /** A refused add changes nothing; an accepted one keeps every earlier entry and adds one at the end. */
  lemma AddedSpec(cs: seq<Clock>, tz: string)
    ensures |cs| >= MaxClocks ==> Added(cs, tz) == cs
    ensures |cs| < MaxClocks ==>
              (|Added(cs, tz)| == |cs| + 1 && Added(cs, tz)[..|cs|] == cs && Added(cs, tz)[|cs|] == Clock(tz, false))
    ensures |cs| <= MaxClocks ==> |Added(cs, tz)| <= MaxClocks
  {
  }

  /** A confirmed removal at a valid index deletes exactly that entry and keeps the rest in order. */
  lemma RemovedSpec(cs: seq<Clock>, i: int)
    requires 0 <= i < |cs|
    ensures |Removed(cs, i, true)| == |cs| - 1
    ensures forall k :: 0 <= k < i ==> Removed(cs, i, true)[k] == cs[k]
    ensures forall k :: i <= k < |cs| - 1 ==> Removed(cs, i, true)[k] == cs[k + 1]
    ensures multiset(Removed(cs, i, true)) + multiset{cs[i]} == multiset(cs)
    ensures Removed(cs, i, false) == cs
  {
    assert cs == cs[..i] + [cs[i]] + cs[i + 1..];
  }

  /** `removeClock` itself does not protect the local clock: only the missing button does. */
  lemma RemoveClockCanDropLocal(ambient: string)
    ensures Locals(Removed([Clock(ambient, true)], 0, true)) == []
    ensures Locals([Clock(ambient, true)]) == [Clock(ambient, true)]
  {
  }

  lemma {:induction false} LocalsAppend(a: seq<Clock>, b: seq<Clock>)
    ensures Locals(a + b) == Locals(a) + Locals(b)
  {
    if a == [] {
      assert a + b == b;
    } else {
      var c := a + b;
      assert c[0] == a[0];
      assert c[1..] == a[1..] + b;
      LocalsAppend(a[1..], b);
      assert Locals(c) == (if a[0].isLocal then [a[0]] else []) + Locals(a[1..] + b);
    }
  }

  // ----- What the widget lets a user do (renderClocks wires the buttons, script.js:193-198) -----

  /** A click in the picker, or a click on a card's remove button followed by the dialog's answer. */
  datatype UserAction = PickTimezone(tz: string) | PressRemove(index: int, confirmed: bool)

  /** The remove button exists only on cards at a valid index whose clock is not local. */
  predicate Offered(cs: seq<Clock>, a: UserAction) {
    a.PressRemove? ==> 0 <= a.index < |cs| && !cs[a.index].isLocal
  }

  function Step(cs: seq<Clock>, a: UserAction): seq<Clock> {
    match a
    case PickTimezone(tz) => Added(cs, tz)
    case PressRemove(i, confirmed) => Removed(cs, i, confirmed)
  }

  function Run(cs: seq<Clock>, actions: seq<UserAction>): seq<Clock>
    decreases |actions|
  {
    if actions == [] then cs else Run(Step(cs, actions[0]), actions[1..])
  }

  /** Every action of the sequence is one the board offers at that moment. */
  predicate Reachable(cs: seq<Clock>, actions: seq<UserAction>)
    decreases |actions|
  {
    actions == [] || (Offered(cs, actions[0]) && Reachable(Step(cs, actions[0]), actions[1..]))
  }

  lemma StepKeepsLocals(cs: seq<Clock>, a: UserAction)
    requires Offered(cs, a)
    ensures Locals(Step(cs, a)) == Locals(cs)
  {
    match a
    case PickTimezone(tz) =>
      if |cs| < MaxClocks {
        LocalsAppend(cs, [Clock(tz, false)]);
      }
    case PressRemove(i, confirmed) =>
      if confirmed {
        assert cs == cs[..i] + [cs[i]] + cs[i + 1..];
        LocalsAppend(cs[..i] + [cs[i]], cs[i + 1..]);
        LocalsAppend(cs[..i], [cs[i]]);
        LocalsAppend(cs[..i], cs[i + 1..]);
      }
  }

  /** Along every sequence of actions the board offers, the local clocks stay exactly as they were. */
  lemma {:induction false} LocalsSurvive(cs: seq<Clock>, actions: seq<UserAction>)
    requires Reachable(cs, actions)
    ensures Locals(Run(cs, actions)) == Locals(cs)
    decreases |actions|
  {
    if actions != [] {
      StepKeepsLocals(cs, actions[0]);
      LocalsSurvive(Step(cs, actions[0]), actions[1..]);
    }
  }

  /** A board starting within the cap never exceeds it, whatever is added or removed. */
  lemma {:induction false} CapHolds(cs: seq<Clock>, actions: seq<UserAction>)
    requires |cs| <= MaxClocks
    ensures |Run(cs, actions)| <= MaxClocks
    decreases |actions|
  {
    if actions != [] {
      AddedSpec(cs, if actions[0].PickTimezone? then actions[0].tz else "");
      CapHolds(Step(cs, actions[0]), actions[1..]);
    }
  }
}
