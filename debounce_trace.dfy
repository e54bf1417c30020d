/** Traces of keystrokes and delayed checks on one table instance, and the
    debounce guarantee: one typing episode announces "started" once and
    "stopped" once, TypingDelay after its last keystroke. */
module DebounceTrace {
  import opened TypingSpec

  /** A broadcast together with the time it was sent. */
  datatype Stamped = Stamped(note: Note, at: int)

  function Logged(n: Option<Note>, at: int): seq<Stamped> {
    if n.Some? then [Stamped(n.value, at)] else []
  }

  /** The scheduler: runs pending checks from the front of the queue, each
      at its own fire time and against the same table instance, for as long
      as the first remaining check is due strictly before time `t`.  Every
      check runs exactly at its due time, never later. */
  function FireBefore(w: World, t: int): (res: (World, seq<Stamped>))
    ensures forall c :: c in res.0.pending ==> c in w.pending
    ensures res.0.pending == [] || res.0.pending[0].fireAt >= t
    decreases |w.pending|
  {
    if w.pending == [] || w.pending[0].fireAt >= t then (w, [])
    else
      var c := w.pending[0];
      var e := CheckStopped(w.roster, true, c.userID, c.fireAt);
      var rest := FireBefore(World(e.roster, w.pending[1..]), t);
      (rest.0, Logged(e.note, c.fireAt) + rest.1)
  }

  /** The scheduler removes checks from the front of the queue only: what
      is left is a suffix of the queue. */
  lemma {:induction false} FireBeforeLeavesSuffix(w: World, t: int)
    ensures var left := FireBefore(w, t).0.pending;
            |left| <= |w.pending| && left == w.pending[|w.pending| - |left|..]
    decreases |w.pending|
  {
    if w.pending != [] && w.pending[0].fireAt < t {
      var c := w.pending[0];
      var e := CheckStopped(w.roster, true, c.userID, c.fireAt);
      FireBeforeLeavesSuffix(World(e.roster, w.pending[1..]), t);
    }
  }

  /** The fire times of the queue never decrease. */
  predicate DueInOrder(p: seq<Check>) {
    forall i, j :: 0 <= i < j < |p| ==> p[i].fireAt <= p[j].fireAt
  }

  /** On a queue in due order, no check due before `t` is left over. */
  lemma {:induction false} FireBeforeRunsAllDue(w: World, t: int)
    requires DueInOrder(w.pending)
    ensures forall c :: c in FireBefore(w, t).0.pending ==> c.fireAt >= t
    decreases |w.pending|
  {
    if w.pending != [] && w.pending[0].fireAt < t {
      var c := w.pending[0];
      var e := CheckStopped(w.roster, true, c.userID, c.fireAt);
      var tail := World(e.roster, w.pending[1..]);
      assert DueInOrder(tail.pending) by {
        forall i, j | 0 <= i < j < |tail.pending| ensures tail.pending[i].fireAt <= tail.pending[j].fireAt {
          assert tail.pending[i] == w.pending[i + 1] && tail.pending[j] == w.pending[j + 1];
        }
      }
      FireBeforeRunsAllDue(tail, t);
    } else if w.pending != [] {
      forall c | c in w.pending ensures c.fireAt >= t {
        var i :| 0 <= i < |w.pending| && w.pending[i] == c;
        assert w.pending[0].fireAt <= w.pending[i].fireAt;
      }
    }
  }

  /** User `u` types at each time in `keys`; before each keystroke the checks
      already due run. */
  function Run(w: World, u: int, keys: seq<int>): (World, seq<Stamped>)
    decreases |keys|
  {
    if keys == [] then (w, [])
    else
      var before := FireBefore(w, keys[0]);
      var o := Keystroke(before.0, u, keys[0]);
      var rest := Run(o.world, u, keys[1..]);
      (rest.0, before.1 + Logged(Announced(o.result), keys[0]) + rest.1)
  }

  /** One typing episode: keystroke times never decrease and no gap between
      two consecutive keystrokes reaches TypingDelay. */
  predicate Episode(keys: seq<int>) {
    |keys| <= 1 || (keys[0] <= keys[1] < keys[0] + TypingDelay && Episode(keys[1..]))
  }

  /** Every pending check is for `u` and due no later than `latest`. */
  predicate ChecksFor(p: seq<Check>, u: int, latest: int) {
    forall c :: c in p ==> c.userID == u && c.fireAt <= latest
  }

  /** The newest pending check is due exactly at `t`. */
  predicate LastDueAt(p: seq<Check>, t: int) {
    |p| > 0 && p[|p| - 1].fireAt == t
  }

  /** While u's record is idle, or was typed on recently enough that the
      checks due before `t` find less than TypingDelay elapsed, running those
      checks changes nothing and sends nothing. */
  lemma {:induction false} QuietFire(w: World, u: int, t: int)
    requires forall c :: c in w.pending ==> c.userID == u
    requires Names(w.roster, UserSlot(w.roster, u)) ==>
               !At(w.roster, UserSlot(w.roster, u)).typing ||
               t <= At(w.roster, UserSlot(w.roster, u)).lastTyped + TypingDelay
    ensures FireBefore(w, t).0.roster == w.roster
    ensures FireBefore(w, t).1 == []
    decreases |w.pending|
  {
    if w.pending != [] && w.pending[0].fireAt < t {
      var tail := World(w.roster, w.pending[1..]);
      CheckTooEarly(w.roster, u, w.pending[0].fireAt);
      QuietFire(tail, u, t);
    }
  }

  /** A check that finds u idle, or finds less than TypingDelay elapsed since
      u's last keystroke, does nothing. */
  lemma CheckTooEarly(r: Roster, u: int, now: int)
    requires Names(r, UserSlot(r, u)) ==>
               !At(r, UserSlot(r, u)).typing || now < At(r, UserSlot(r, u)).lastTyped + TypingDelay
    ensures CheckStopped(r, true, u, now) == Effect(r, None)
  {
    CheckStoppedClearsOnlyWhenQuiet(r, true, u, now);
  }

  /** The time of the last keystroke of `keys`, or `k` when there is none. */
  function LastKey(keys: seq<int>, k: int): int {
    if keys == [] then k else keys[|keys| - 1]
  }

  /** The roster `r0` with u's record in slot s marked typing since `k`. */
  function TypingSince(r0: Roster, s: Slot, k: int): Roster
    requires Names(r0, s)
  {
    Put(r0, s, At(r0, s).(typing := true, lastTyped := k))
  }

  /** Keystrokes that continue an episode whose last keystroke was at `k`
      announce nothing; afterwards the record is typing since the last of them
      and the newest pending check is due TypingDelay after it. */
  lemma {:induction false} RunWhileTyping(w: World, r0: Roster, u: int, keys: seq<int>, k: int)
    requires Eligibility(r0, u) == None && Names(r0, UserSlot(r0, u))
    requires w.roster == TypingSince(r0, UserSlot(r0, u), k)
    requires ChecksFor(w.pending, u, k + TypingDelay) && LastDueAt(w.pending, k + TypingDelay)
    requires Episode(keys) && (|keys| > 0 ==> k <= keys[0] < k + TypingDelay)
    ensures Run(w, u, keys).1 == []
    ensures Run(w, u, keys).0.roster == TypingSince(r0, UserSlot(r0, u), LastKey(keys, k))
    ensures ChecksFor(Run(w, u, keys).0.pending, u, LastKey(keys, k) + TypingDelay)
    ensures LastDueAt(Run(w, u, keys).0.pending, LastKey(keys, k) + TypingDelay)
    decreases |keys|
  {
    if keys != [] {
      var s := UserSlot(r0, u);
      var t := keys[0];
      var last := LastKey(keys, k);
      var before := FireBefore(w, t);
      var o := Keystroke(before.0, u, t);
      var rest := Run(o.world, u, keys[1..]);
      assert Run(w, u, keys) == (rest.0, before.1 + Logged(Announced(o.result), t) + rest.1);
      assert && before.1 == [] && o.result == Accepted(None)
             && o.world.roster == TypingSince(r0, s, t)
             && ChecksFor(o.world.pending, u, t + TypingDelay) && LastDueAt(o.world.pending, t + TypingDelay) by {
        QuietFireWhileTyping(w, r0, u, k, t);
        KeystrokeWhileTyping(before.0, r0, u, k, t);
      }
      assert && rest.1 == [] && rest.0.roster == TypingSince(r0, s, last)
             && ChecksFor(rest.0.pending, u, last + TypingDelay) && LastDueAt(rest.0.pending, last + TypingDelay) by {
        assert |keys| > 1 ==> keys[1..][0] == keys[1];
        RunWhileTyping(o.world, r0, u, keys[1..], t);
        assert LastKey(keys[1..], t) == last;
      }
      assert Logged(Announced(o.result), t) == [];
    } else {
      assert Run(w, u, keys) == (w, []);
    }
  }

  /** The checks due before the next keystroke of an episode do nothing; the
      ones left are still u's, due no later than TypingDelay after `k`. */
  lemma QuietFireWhileTyping(w: World, r0: Roster, u: int, k: int, t: int)
    requires Eligibility(r0, u) == None && Names(r0, UserSlot(r0, u))
    requires w.roster == TypingSince(r0, UserSlot(r0, u), k)
    requires ChecksFor(w.pending, u, k + TypingDelay)
    requires t <= k + TypingDelay
    ensures var before := FireBefore(w, t);
            before.1 == [] && before.0.roster == w.roster && ChecksFor(before.0.pending, u, k + TypingDelay)
  {
    var s := UserSlot(r0, u);
    PutKeepsLookups(r0, s, At(r0, s).(typing := true, lastTyped := k), u);
    QuietFire(w, u, t);
  }

  /** A keystroke while typing announces nothing, moves the keystroke time and
      schedules one more check. */
  lemma KeystrokeWhileTyping(w: World, r0: Roster, u: int, k: int, t: int)
    requires Eligibility(r0, u) == None && Names(r0, UserSlot(r0, u))
    requires w.roster == TypingSince(r0, UserSlot(r0, u), k)
    requires ChecksFor(w.pending, u, k + TypingDelay) && k <= t
    ensures var o := Keystroke(w, u, t);
            && o.result == Accepted(None)
            && o.world.roster == TypingSince(r0, UserSlot(r0, u), t)
            && ChecksFor(o.world.pending, u, t + TypingDelay)
            && LastDueAt(o.world.pending, t + TypingDelay)
  {
    var s := UserSlot(r0, u);
    PutKeepsLookups(r0, s, At(r0, s).(typing := true, lastTyped := k), u);
    PutPut(r0, s, At(r0, s).(typing := true, lastTyped := k), At(r0, s).(typing := true, lastTyped := t));
    KeystrokeAccepted(w, u, t);
    var o := Keystroke(w, u, t);
    var p := o.world.pending;
    assert p[|p| - 1].fireAt == t + TypingDelay;
  }

  /** Once u is idle, the remaining checks change nothing, send nothing and
      all run when the scheduler passes their fire times. */
  lemma DrainIdle(w: World, u: int, t: int)
    requires forall c :: c in w.pending ==> c.userID == u && c.fireAt < t
    requires Names(w.roster, UserSlot(w.roster, u)) ==> !At(w.roster, UserSlot(w.roster, u)).typing
    ensures FireBefore(w, t) == (World(w.roster, []), [])
  {
    QuietFire(w, u, t);
  }

  /** The end of an episode whose last keystroke was at `last`: the checks run
      in turn, the one due exactly TypingDelay after `last` clears the flag and
      announces "stopped", and every other one does nothing. */
  lemma {:induction false} DrainAfterTyping(w: World, r0: Roster, u: int, last: int)
    requires Eligibility(r0, u) == None && Names(r0, UserSlot(r0, u))
    requires w.roster == TypingSince(r0, UserSlot(r0, u), last)
    requires ChecksFor(w.pending, u, last + TypingDelay) && LastDueAt(w.pending, last + TypingDelay)
    ensures var s := UserSlot(r0, u);
            var name := At(r0, s).name;
            FireBefore(w, last + TypingDelay + 1) ==
              (World(Put(r0, s, At(r0, s).(typing := false, lastTyped := last)), []),
               if name != "" then [Stamped(Note(name, false), last + TypingDelay)] else [])
    decreases |w.pending|
  {
    var c := w.pending[0];
    var tail := World(w.roster, w.pending[1..]);
    assert c.userID == u && c.fireAt <= last + TypingDelay;
    if c.fireAt < last + TypingDelay {
      SkipEarlyCheck(w, r0, u, last);
      assert tail.pending[|tail.pending| - 1] == w.pending[|w.pending| - 1];
      DrainAfterTyping(tail, r0, u, last);
    } else {
      ClearThenDrain(w, r0, u, last);
    }
  }

  /** A check due before `last + TypingDelay` is skipped. */
  lemma SkipEarlyCheck(w: World, r0: Roster, u: int, last: int)
    requires Eligibility(r0, u) == None && Names(r0, UserSlot(r0, u))
    requires w.roster == TypingSince(r0, UserSlot(r0, u), last)
    requires w.pending != [] && w.pending[0].userID == u && w.pending[0].fireAt < last + TypingDelay
    ensures FireBefore(w, last + TypingDelay + 1) == FireBefore(World(w.roster, w.pending[1..]), last + TypingDelay + 1)
  {
    assert CheckStopped(w.roster, true, w.pending[0].userID, w.pending[0].fireAt) == Effect(w.roster, None) by {
      var s := UserSlot(r0, u);
      PutKeepsLookups(r0, s, At(r0, s).(typing := true, lastTyped := last), u);
      CheckTooEarly(w.roster, u, w.pending[0].fireAt);
    }
    SkipCheck(w, last + TypingDelay + 1);
  }

  /** A due check that does nothing leaves the rest of the run as it was. */
  lemma SkipCheck(w: World, t: int)
    requires w.pending != [] && w.pending[0].fireAt < t
    requires CheckStopped(w.roster, true, w.pending[0].userID, w.pending[0].fireAt) == Effect(w.roster, None)
    ensures FireBefore(w, t) == FireBefore(World(w.roster, w.pending[1..]), t)
  {
    var rest := FireBefore(World(w.roster, w.pending[1..]), t);
    assert Logged(None, w.pending[0].fireAt) == [];
    assert FireBefore(w, t) == (rest.0, [] + rest.1);
    assert [] + rest.1 == rest.1;
    assert (rest.0, rest.1) == rest;
  }

  /** The check due exactly at `last + TypingDelay` clears the flag, and the
      checks after it do nothing. */
  lemma ClearThenDrain(w: World, r0: Roster, u: int, last: int)
    requires Eligibility(r0, u) == None && Names(r0, UserSlot(r0, u))
    requires w.roster == TypingSince(r0, UserSlot(r0, u), last)
    requires ChecksFor(w.pending, u, last + TypingDelay)
    requires w.pending != [] && w.pending[0].fireAt == last + TypingDelay
    ensures var s := UserSlot(r0, u);
            var name := At(r0, s).name;
            FireBefore(w, last + TypingDelay + 1) ==
              (World(Put(r0, s, At(r0, s).(typing := false, lastTyped := last)), []),
               if name != "" then [Stamped(Note(name, false), last + TypingDelay)] else [])
  {
    var t := last + TypingDelay + 1;
    ClearAtDeadline(w.roster, r0, u, last);
    var e := CheckStopped(w.roster, true, u, last + TypingDelay);
    var tail := World(e.roster, w.pending[1..]);
    DrainIdle(tail, u, t);
    assert FireBefore(w, t) == (FireBefore(tail, t).0, Logged(e.note, last + TypingDelay) + FireBefore(tail, t).1);
    assert Logged(e.note, last + TypingDelay) + [] == Logged(e.note, last + TypingDelay);
  }

  /** The check due TypingDelay after the last keystroke clears the flag and
      announces "stopped"; the record stays u's and is now idle. */
  lemma ClearAtDeadline(r: Roster, r0: Roster, u: int, last: int)
    requires Eligibility(r0, u) == None && Names(r0, UserSlot(r0, u))
    requires r == TypingSince(r0, UserSlot(r0, u), last)
    ensures var s := UserSlot(r0, u);
            var name := At(r0, s).name;
            var e := CheckStopped(r, true, u, last + TypingDelay);
            && e.roster == Put(r0, s, At(r0, s).(typing := false, lastTyped := last))
            && Logged(e.note, last + TypingDelay) ==
                 (if name != "" then [Stamped(Note(name, false), last + TypingDelay)] else [])
            && UserSlot(e.roster, u) == s
            && !At(e.roster, s).typing
  {
    var s := UserSlot(r0, u);
    PutKeepsLookups(r0, s, At(r0, s).(typing := true, lastTyped := last), u);
    assert StopDue(r, true, u, last + TypingDelay);
    CheckStoppedClearsOnlyWhenQuiet(r, true, u, last + TypingDelay);
    PutPut(r0, s, At(r0, s).(typing := true, lastTyped := last), At(r0, s).(typing := false, lastTyped := last));
    PutKeepsLookups(r0, s, At(r0, s).(typing := false, lastTyped := last), u);
  }

  /** The debounce guarantee.  A participant who is eligible and idle types an
      episode of keystrokes, after which the scheduler runs every check: the
      table announces "started" at the first keystroke and "stopped" exactly
      TypingDelay after the last one, and nothing else; the record ends idle,
      holding the time of the last keystroke, and no check is left pending.
      While the keystrokes last only "started" is sent; once they end only
      "stopped".  A participant with an empty name is never announced. */
  lemma SingleStartSingleStop(r0: Roster, u: int, keys: seq<int>)
    requires Eligibility(r0, u) == None && Names(r0, UserSlot(r0, u))
    requires !At(r0, UserSlot(r0, u)).typing
    requires |keys| > 0 && Episode(keys)
    ensures var s := UserSlot(r0, u);
            var name := At(r0, s).name;
            var last := keys[|keys| - 1];
            var run := Run(World(r0, []), u, keys);
            var drain := FireBefore(run.0, last + TypingDelay + 1);
            && run.1 == (if name != "" then [Stamped(Note(name, true), keys[0])] else [])
            && drain.1 == (if name != "" then [Stamped(Note(name, false), last + TypingDelay)] else [])
            && drain.0 == World(Put(r0, s, At(r0, s).(lastTyped := last)), [])
  {
    var s := UserSlot(r0, u);
    var last := keys[|keys| - 1];
    RunFromIdle(r0, u, keys);
    DrainAfterTyping(Run(World(r0, []), u, keys).0, r0, u, last);
    assert At(r0, s).(typing := false, lastTyped := last) == At(r0, s).(lastTyped := last);
  }

  /** The keystrokes of an episode from an idle record: "started" at the first
      one only, and afterwards the record is typing since the last one. */
  lemma RunFromIdle(r0: Roster, u: int, keys: seq<int>)
    requires Eligibility(r0, u) == None && Names(r0, UserSlot(r0, u))
    requires !At(r0, UserSlot(r0, u)).typing
    requires |keys| > 0 && Episode(keys)
    ensures var s := UserSlot(r0, u);
            var name := At(r0, s).name;
            var last := keys[|keys| - 1];
            var run := Run(World(r0, []), u, keys);
            && run.1 == (if name != "" then [Stamped(Note(name, true), keys[0])] else [])
            && run.0.roster == TypingSince(r0, s, last)
            && ChecksFor(run.0.pending, u, last + TypingDelay)
            && LastDueAt(run.0.pending, last + TypingDelay)
  {
    var s := UserSlot(r0, u);
    var w0 := World(r0, []);
    var o := Keystroke(w0, u, keys[0]);
    var tail := Run(o.world, u, keys[1..]);
    var last := keys[|keys| - 1];
    assert Run(w0, u, keys) == (tail.0, Logged(Announced(o.result), keys[0]) + tail.1) by {
      assert FireBefore(w0, keys[0]) == (w0, []);
      assert [] + Logged(Announced(o.result), keys[0]) == Logged(Announced(o.result), keys[0]);
    }
    assert && tail.1 == []
           && tail.0.roster == TypingSince(r0, s, last)
           && ChecksFor(tail.0.pending, u, last + TypingDelay)
           && LastDueAt(tail.0.pending, last + TypingDelay) by {
      FirstKeystroke(r0, u, keys[0]);
      TailKeys(keys);
      RunWhileTyping(o.world, r0, u, keys[1..], keys[0]);
    }
    assert Logged(Announced(o.result), keys[0]) + [] == Logged(Announced(o.result), keys[0]);
    FirstKeystroke(r0, u, keys[0]);
  }

  /** The first of the remaining keystrokes, and the last keystroke overall. */
  lemma TailKeys(keys: seq<int>)
    requires |keys| > 0
    ensures |keys| > 1 ==> keys[1..][0] == keys[1]
    ensures LastKey(keys[1..], keys[0]) == keys[|keys| - 1]
  {
  }

  /** The first keystroke of an idle participant announces "started" (when
      the participant has a name) and schedules the first check. */
  lemma FirstKeystroke(r0: Roster, u: int, t: int)
    requires Eligibility(r0, u) == None && Names(r0, UserSlot(r0, u))
    requires !At(r0, UserSlot(r0, u)).typing
    ensures var s := UserSlot(r0, u);
            var name := At(r0, s).name;
            var o := Keystroke(World(r0, []), u, t);
            && o.world.roster == TypingSince(r0, s, t)
            && o.world.pending == [Check(u, t + TypingDelay)]
            && ChecksFor(o.world.pending, u, t + TypingDelay)
            && LastDueAt(o.world.pending, t + TypingDelay)
            && Logged(Announced(o.result), t) == (if name != "" then [Stamped(Note(name, true), t)] else [])
  {
    KeystrokeAccepted(World(r0, []), u, t);
  }

  /** A second keystroke `TypingDelay - eps` after the first postpones the
      "stopped" broadcast to TypingDelay after the second one: the check armed
      by the first keystroke finds too little quiet time and does nothing. */
  lemma RefreshPostponesStop(r0: Roster, u: int, t: int, eps: int)
    requires Eligibility(r0, u) == None && Names(r0, UserSlot(r0, u))
    requires !At(r0, UserSlot(r0, u)).typing && At(r0, UserSlot(r0, u)).name != ""
    requires 0 < eps <= TypingDelay
    ensures var name := At(r0, UserSlot(r0, u)).name;
            var second := t + TypingDelay - eps;
            var run := Run(World(r0, []), u, [t, second]);
            var drain := FireBefore(run.0, second + TypingDelay + 1);
            && run.1 == [Stamped(Note(name, true), t)]
            && drain.1 == [Stamped(Note(name, false), second + TypingDelay)]
            && drain.0.pending == []
  {
    var keys := [t, t + TypingDelay - eps];
    assert Episode(keys[1..]);
    SingleStartSingleStop(r0, u, keys);
  }

  /** The scenario of a participant typing at 0 ms, 500 ms and 1000 ms: one
      "started" at 0 ms, one "stopped" at 3000 ms; the checks that fire at
      2000 ms and 2500 ms do nothing. */
  lemma ThreeKeystrokeScenario()
    ensures var alice := Rec(7, "alice", false, 0);
            var r0 := Roster([alice], [], false, {});
            var run := Run(World(r0, []), 7, [0, 500, 1000]);
            var drain := FireBefore(run.0, 3001);
            && run.1 == [Stamped(Note("alice", true), 0)]
            && drain.1 == [Stamped(Note("alice", false), 3000)]
            && drain.0 == World(Roster([alice.(lastTyped := 1000)], [], false, {}), [])
  {
    var alice := Rec(7, "alice", false, 0);
    var r0 := Roster([alice], [], false, {});
    assert r0.players[0].userID == 7;
    assert UserSlot(r0, 7) == InPlayers(0);
    SingleStartSingleStop(r0, 7, [0, 500, 1000]);
  }
}
