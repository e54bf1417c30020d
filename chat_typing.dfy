/** The table and its player and spectator objects as the server keeps them:
    the keystroke command and the delayed check update the `typing` and
    `lastTyped` fields of one participant object in place.  Each method is
    proved against the value-level functions of TypingSpec applied to the
    table's state before the call. */
module ChatTyping {
  import opened TypingSpec

  /** A player or spectator of a table; only the typing fields change here. */
  class Participant {
    const userID: int
    const name: string
    var typing: bool
    var lastTyped: int

    constructor (userID: int, name: string)
      ensures this.userID == userID && this.name == name
      ensures !typing && lastTyped == 0
    {
      this.userID := userID;
      this.name := name;
      typing := false;
      lastTyped := 0;
    }

    /** The keystroke's update of one participant: refresh the keystroke
        time and set the flag; the name comes back only on a false-to-true
        transition. */
    method MarkTyping(now: int) returns (name: string)
      modifies this
      ensures typing && lastTyped == now
      ensures name == if old(typing) then "" else this.name
    {
      name := "";
      lastTyped := now;
      if !typing {
        typing := true;
        name := this.name;
      }
    }

    /** The delayed check's update of one typing participant: clear the flag
        once at least TypingDelay has passed since the last keystroke, and
        return the name exactly then. */
    method ClearIfQuiet(now: int) returns (name: string)
      requires typing
      modifies this
      ensures lastTyped == old(lastTyped)
      ensures typing == (now - lastTyped < TypingDelay)
      ensures name == if now - lastTyped >= TypingDelay then this.name else ""
    {
      name := "";
      if now - lastTyped >= TypingDelay {
        typing := false;
        name := this.name;
      }
    }
  }

  /** The record a participant object currently holds. */
  ghost function View(p: Participant): Rec
    reads p
  {
    Rec(p.userID, p.name, p.typing, p.lastTyped)
  }

  /** The records a list of participant objects currently holds, in order. */
  ghost function Views(ps: seq<Participant>): (rs: seq<Rec>)
    reads set p | p in ps
    ensures |rs| == |ps|
    ensures forall k :: 0 <= k < |ps| ==> rs[k] == View(ps[k])
  {
    if |ps| == 0 then [] else [View(ps[0])] + Views(ps[1..])
  }

  /** The index of the first participant with `userID`, or -1: the linear
      search behind GetPlayerIndexFromID and GetSpectatorIndexFromID. */
  method FindIndex(ps: seq<Participant>, userID: int) returns (i: int)
    ensures i == IndexOf(Views(ps), userID)
  {
    ghost var rs := Views(ps);
    i := 0;
    while i < |ps|
      invariant 0 <= i <= |ps|
      invariant forall k :: 0 <= k < i ==> rs[k].userID != userID
    {
      if ps[i].userID == userID {
        FoundAt(rs, userID, i);
        return;
      }
      i := i + 1;
    }
    NotFound(rs, userID);
    i := -1;
  }

  lemma FoundAt(rs: seq<Rec>, u: int, i: int)
    requires 0 <= i < |rs| && rs[i].userID == u
    requires forall k :: 0 <= k < i ==> rs[k].userID != u
    ensures IndexOf(rs, u) == i
  {
    IndexOfFindsFirst(rs, u);
  }

  lemma NotFound(rs: seq<Rec>, u: int)
    requires forall k :: 0 <= k < |rs| ==> rs[k].userID != u
    ensures IndexOf(rs, u) == -1
  {
    IndexOfFindsFirst(rs, u);
  }

  /** A table: its players and spectators (distinct objects), whether it is a
      replay, the users the roster subsystem reports as actively spectating,
      and the delayed checks that keystrokes have scheduled on it, oldest
      first. */
  class Table {
    var players: seq<Participant>
    var spectators: seq<Participant>
    var replay: bool
    var activeSpectators: set<int>
    var scheduled: seq<Check>

    /** Every participant object appears once, in one of the two lists. */
    ghost predicate Valid()
      reads this`players, this`spectators
    {
      && (forall i, j :: 0 <= i < j < |players| ==> players[i] != players[j])
      && (forall i, j :: 0 <= i < j < |spectators| ==> spectators[i] != spectators[j])
      && (forall i, j :: 0 <= i < |players| && 0 <= j < |spectators| ==> players[i] != spectators[j])
    }

    ghost function Participants(): set<Participant>
      reads this`players, this`spectators
    {
      (set p | p in players) + (set p | p in spectators)
    }

    /** What the typing indicator sees of this table. */
    ghost function State(): Roster
      reads this`players, this`spectators, this`replay, this`activeSpectators, Participants()
    {
      Roster(Views(players), Views(spectators), replay, activeSpectators)
    }

    constructor (players: seq<Participant>, spectators: seq<Participant>, replay: bool, activeSpectators: set<int>)
      ensures this.players == players && this.spectators == spectators
      ensures this.replay == replay && this.activeSpectators == activeSpectators
      ensures scheduled == []
    {
      this.players := players;
      this.spectators := spectators;
      this.replay := replay;
      this.activeSpectators := activeSpectators;
      scheduled := [];
    }

    /** IsPlayerOrSpectating: the user has a player or a spectator object. */
    method IsPlayerOrSpectating(userID: int) returns (b: bool)
      ensures b == TypingSpec.IsPlayerOrSpectating(State(), userID)
    {
      var playerIndex := FindIndex(players, userID);
      var spectatorIndex := FindIndex(spectators, userID);
      IndexOfFindsFirst(Views(players), userID);
      IndexOfFindsFirst(Views(spectators), userID);
      b := playerIndex != -1 || spectatorIndex != -1;
    }

    /** chatTyping: refresh the keystroke time of the selected participant
        (the spectator when there is a spectator index), set its flag,
        announce "started" on a false-to-true transition of a named
        participant, and schedule one delayed check TypingDelay later. */
    method ChatTyping(userID: int, playerIndex: int, spectatorIndex: int, now: int) returns (note: Option<Note>)
      requires Valid() && IndicesIn(State(), playerIndex, spectatorIndex)
      modifies this`scheduled, Participants()
      ensures Valid()
      ensures var e := TypingSpec.ChatTyping(old(State()), playerIndex, spectatorIndex, now);
              State() == e.roster && note == e.note
      ensures scheduled == old(scheduled) + [Check(userID, now + TypingDelay)]
    {
      ghost var r := State();
      ghost var slot := Target(r, playerIndex, spectatorIndex);
      ghost var was := if slot == Nowhere then Rec(userID, "", false, 0) else At(r, slot);
      var name := "";
      if spectatorIndex != -1 {
        var sp := spectators[spectatorIndex];
        assert View(sp) == was;
        name := sp.MarkTyping(now);
      } else if playerIndex != -1 {
        var p := players[playerIndex];
        assert View(p) == was;
        name := p.MarkTyping(now);
      }
      if name != "" {
        note := Some(Note(name, true));
      } else {
        note := None;
      }
      scheduled := scheduled + [Check(userID, now + TypingDelay)];
      if spectatorIndex != -1 {
        UpdatedSpectator(spectatorIndex);
        assert View(spectators[spectatorIndex]) == was.(lastTyped := now, typing := true);
      } else if playerIndex != -1 {
        UpdatedPlayer(playerIndex);
        assert View(players[playerIndex]) == was.(lastTyped := now, typing := true);
      } else {
        Untouched();
      }
    }

    /** chatTypingCheckStopped after its sleep, at time `now`; `current` is
        the table the registry now maps this table's ID to (null when there
        is none).  A table that is gone or replaced, and a user who no longer
        passes the guards, leave everything as it is. */
    method CheckStopped(current: Table?, userID: int, now: int) returns (note: Option<Note>)
      requires Valid()
      modifies Participants()
      ensures var e := TypingSpec.CheckStopped(old(State()), current == this, userID, now);
              State() == e.roster && note == e.note
    {
      ghost var r := State();
      if current != this {
        return None;
      }
      var playerIndex := FindIndex(players, userID);
      var spectatorIndex := FindIndex(spectators, userID);
      var present := IsPlayerOrSpectating(userID);
      Untouched();
      if !present {
        assert TypingSpec.CheckStopped(r, true, userID, now) == Effect(r, None);
        return None;
      }
      if !(userID in activeSpectators) && replay {
        assert TypingSpec.CheckStopped(r, true, userID, now) == Effect(r, None);
        return None;
      }
      assert TypingSpec.CheckStopped(r, true, userID, now) == TypingSpec.StopTyping(r, playerIndex, spectatorIndex, now);
      note := StopTyping(playerIndex, spectatorIndex, now);
    }

    /** The second half of chatTypingCheckStopped: on the selected
        participant (the spectator when there is a spectator index), if it is
        typing and at least TypingDelay has passed since its last keystroke,
        clear the flag and announce "stopped" for a named participant. */
    method StopTyping(playerIndex: int, spectatorIndex: int, now: int) returns (note: Option<Note>)
      requires Valid() && IndicesIn(State(), playerIndex, spectatorIndex)
      modifies Participants()
      ensures var e := TypingSpec.StopTyping(old(State()), playerIndex, spectatorIndex, now);
              State() == e.roster && note == e.note
    {
      ghost var r := State();
      ghost var slot := Target(r, playerIndex, spectatorIndex);
      var name := "";
      if spectatorIndex != -1 {
        var sp := spectators[spectatorIndex];
        ghost var was := View(sp);
        assert was == At(r, slot);
        if !sp.typing {
          return None;
        }
        name := sp.ClearIfQuiet(now);
        UpdatedSpectator(spectatorIndex);
        QuietUpdate(r, slot, was, View(sp), name, now);
      } else if playerIndex != -1 {
        var p := players[playerIndex];
        ghost var was := View(p);
        assert was == At(r, slot);
        if !p.typing {
          return None;
        }
        name := p.ClearIfQuiet(now);
        UpdatedPlayer(playerIndex);
        QuietUpdate(r, slot, was, View(p), name, now);
      }
      note := if name != "" then Some(Note(name, false)) else None;
    }

    /** After a change to the spectator object at index `i` alone, the table
        is still valid and its state is the old state with that one record
        replaced. */
    twostate lemma UpdatedSpectator(i: int)
      requires old(Valid()) && 0 <= i < |old(spectators)|
      requires unchanged(this`players, this`spectators, this`replay, this`activeSpectators)
      requires forall p :: p in old(Participants()) && p != spectators[i] ==> unchanged(p)
      ensures Valid()
      ensures State() == Put(old(State()), InSpectators(i), View(spectators[i]))
    {
      forall k | 0 <= k < |players| ensures View(players[k]) == old(View(players[k])) {
        assert players[k] in old(Participants());
      }
      forall k | 0 <= k < |spectators| && k != i ensures View(spectators[k]) == old(View(spectators[k])) {
        assert spectators[k] in old(Participants());
      }
      assert Views(players) == old(Views(players));
      assert Views(spectators) == old(Views(spectators))[i := View(spectators[i])];
    }

    /** The same for the player object at index `i`. */
    twostate lemma UpdatedPlayer(i: int)
      requires old(Valid()) && 0 <= i < |old(players)|
      requires unchanged(this`players, this`spectators, this`replay, this`activeSpectators)
      requires forall p :: p in old(Participants()) && p != players[i] ==> unchanged(p)
      ensures Valid()
      ensures State() == Put(old(State()), InPlayers(i), View(players[i]))
    {
      forall k | 0 <= k < |players| && k != i ensures View(players[k]) == old(View(players[k])) {
        assert players[k] in old(Participants());
      }
      forall k | 0 <= k < |spectators| ensures View(spectators[k]) == old(View(spectators[k])) {
        assert spectators[k] in old(Participants());
      }
      assert Views(players) == old(Views(players))[i := View(players[i])];
      assert Views(spectators) == old(Views(spectators));
    }

    /** With no participant object changed, the table is valid and its state
        is the old one. */
    twostate lemma Untouched()
      requires old(Valid())
      requires unchanged(this`players, this`spectators, this`replay, this`activeSpectators)
      requires forall p :: p in old(Participants()) ==> unchanged(p)
      ensures Valid()
      ensures State() == old(State())
    {
      forall k | 0 <= k < |players| ensures View(players[k]) == old(View(players[k])) {
        assert players[k] in old(Participants());
      }
      forall k | 0 <= k < |spectators| ensures View(spectators[k]) == old(View(spectators[k])) {
        assert spectators[k] in old(Participants());
      }
      assert Views(players) == old(Views(players));
      assert Views(spectators) == old(Views(spectators));
    }
  }

  /** What ClearIfQuiet did to the typing record `was` in slot `s` of `r`
      is the record update StopTyping prescribes. */
  lemma QuietUpdate(r: Roster, s: Slot, was: Rec, x: Rec, name: string, now: int)
    requires Names(r, s) && was == At(r, s) && was.typing
    requires x == if now - was.lastTyped >= TypingDelay then was.(typing := false) else was
    requires name == if now - was.lastTyped >= TypingDelay then was.name else ""
    ensures Put(r, s, x) == if now - was.lastTyped >= TypingDelay then Put(r, s, was.(typing := false)) else r
  {
    if now - was.lastTyped < TypingDelay {
      match s
      case InSpectators(i) => assert r.spectators[i := was] == r.spectators;
      case InPlayers(i) => assert r.players[i := was] == r.players;
    }
  }

  /** commandChatTyping for the table `t` the registry holds under the
      requested ID (null when there is none): a missing table, a user who is
      neither playing nor spectating, and a user who is not actively
      spectating a replay are refused and change nothing; otherwise the
      keystroke is handed to chatTyping with the looked-up indices. */
  method CommandChatTyping(t: Table?, userID: int, now: int) returns (result: KeyResult)
    requires t != null ==> t.Valid()
    modifies t, if t != null then t.Participants() else {}
    ensures t == null ==> result == Rejected(NoSuchTable)
    ensures t != null ==>
              && t.players == old(t.players) && t.spectators == old(t.spectators)
              && t.replay == old(t.replay) && t.activeSpectators == old(t.activeSpectators)
    ensures t != null ==>
              var o := Keystroke(World(old(t.State()), old(t.scheduled)), userID, now);
              && t.Valid() && t.State() == o.world.roster && t.scheduled == o.world.pending
              && result == o.result
  {
    if t == null {
      return Rejected(NoSuchTable);
    }
    ghost var w := World(t.State(), t.scheduled);
    var playerIndex := FindIndex(t.players, userID);
    var spectatorIndex := FindIndex(t.spectators, userID);
    var present := t.IsPlayerOrSpectating(userID);
    t.Untouched();
    if !present {
      assert Keystroke(w, userID, now) == Outcome(w, Rejected(NotPlayingOrSpectating));
      return Rejected(NotPlayingOrSpectating);
    }
    if !(userID in t.activeSpectators) && t.replay {
      assert Keystroke(w, userID, now) == Outcome(w, Rejected(NotSpectatingReplay));
      return Rejected(NotSpectatingReplay);
    }
    ghost var e := TypingSpec.ChatTyping(w.roster, playerIndex, spectatorIndex, now);
    assert Keystroke(w, userID, now) == Outcome(World(e.roster, w.pending + [Check(userID, now + TypingDelay)]), Accepted(e.note));
    var note := t.ChatTyping(userID, playerIndex, spectatorIndex, now);
    result := Accepted(note);
  }
}
