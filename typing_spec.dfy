/** Value-level specification of the chat typing indicator of a table.

    A table holds player records and spectator records; each record carries a
    `typing` flag and the time of the last keystroke.  A keystroke marks the
    record as typing (announcing only the false-to-true transition) and
    schedules one delayed check; the delayed check clears the flag (announcing
    the true-to-false transition) once `TypingDelay` has passed since the last
    keystroke.  Time is an integer number of milliseconds. */
module TypingSpec {

  /** The quiet period after which a participant counts as having stopped
      typing, and the delay after which every keystroke's check runs: two
      seconds, in milliseconds. */
  const TypingDelay: int := 2000

  datatype Option<+T> = None | Some(value: T)

  /** The fields of one player or spectator record that the typing
      indicator uses. */
  datatype Rec = Rec(userID: int, name: string, typing: bool, lastTyped: int)

  /** What the typing indicator sees of a table: its two rosters, whether it
      is a replay, and which users the roster subsystem reports as actively
      spectating. */
  datatype Roster = Roster(players: seq<Rec>, spectators: seq<Rec>, replay: bool, activeSpectators: set<int>)

  /** A "started typing" (typing == true) or "stopped typing" (typing == false)
      broadcast naming a participant. */
  datatype Note = Note(name: string, typing: bool)

  /** A delayed check scheduled for `userID`, due at time `fireAt`. */
  datatype Check = Check(userID: int, fireAt: int)

  /** The record an operation acts on. */
  datatype Slot = InSpectators(index: nat) | InPlayers(index: nat) | Nowhere

  /** The new roster after an operation, and the broadcast it sends, if any. */
  datatype Effect = Effect(roster: Roster, note: Option<Note>)

  /** Why a keystroke report is refused; every refusal changes nothing. */
  datatype Rejection = NoSuchTable | NotPlayingOrSpectating | NotSpectatingReplay

  /** A table's typing state together with the delayed checks scheduled on it,
      oldest first. */
  datatype World = World(roster: Roster, pending: seq<Check>)

  datatype KeyResult = Rejected(why: Rejection) | Accepted(note: Option<Note>)

  datatype Outcome = Outcome(world: World, result: KeyResult)

  // ---------------------------------------------------------------------
  // Roster lookups
  // ---------------------------------------------------------------------

  predicate HasUser(rs: seq<Rec>, u: int) {
    exists i :: 0 <= i < |rs| && rs[i].userID == u
  }

  /** The index of the first record of user `u`, or -1 when there is none:
      the roster's GetPlayerIndexFromID / GetSpectatorIndexFromID. */
  function IndexOf(rs: seq<Rec>, u: int): (i: int)
    ensures -1 <= i < |rs|
  {
    if |rs| == 0 then -1
    else if rs[0].userID == u then 0
    else
      var k := IndexOf(rs[1..], u);
      if k == -1 then -1 else k + 1
  }

  /** IndexOf finds the first record of the user, and -1 exactly when the
      user has no record. */
  lemma {:induction false} IndexOfFindsFirst(rs: seq<Rec>, u: int)
    ensures IndexOf(rs, u) == -1 <==> !HasUser(rs, u)
    ensures 0 <= IndexOf(rs, u) ==>
              rs[IndexOf(rs, u)].userID == u && forall j :: 0 <= j < IndexOf(rs, u) ==> rs[j].userID != u
  {
    if |rs| > 0 && rs[0].userID != u {
      IndexOfFindsFirst(rs[1..], u);
      assert forall j :: 1 <= j < |rs| ==> rs[j] == rs[1..][j - 1];
      if HasUser(rs, u) {
        var i :| 0 <= i < |rs| && rs[i].userID == u;
        assert rs[1..][i - 1].userID == u;
      }
    }
  }

  predicate IsPlayerOrSpectating(r: Roster, u: int) {
    HasUser(r.players, u) || HasUser(r.spectators, u)
  }

  predicate IsActivelySpectating(r: Roster, u: int) {
    u in r.activeSpectators
  }

  /** The two guards shared by the keystroke command and the delayed check,
      applied in the server's order: presence first, then the replay rule. */
  function Eligibility(r: Roster, u: int): Option<Rejection> {
    if !IsPlayerOrSpectating(r, u) then Some(NotPlayingOrSpectating)
    else if !IsActivelySpectating(r, u) && r.replay then Some(NotSpectatingReplay)
    else None
  }

  // ---------------------------------------------------------------------
  // Slots: reading and replacing one record
  // ---------------------------------------------------------------------

  /** `s` names a record of `r`. */
  predicate Names(r: Roster, s: Slot) {
    match s
    case InSpectators(i) => i < |r.spectators|
    case InPlayers(i) => i < |r.players|
    case Nowhere => false
  }

  function At(r: Roster, s: Slot): Rec
    requires Names(r, s)
  {
    match s
    case InSpectators(i) => r.spectators[i]
    case InPlayers(i) => r.players[i]
  }

  /** `r` with the record in slot `s` replaced by `x`. */
  function Put(r: Roster, s: Slot, x: Rec): (r': Roster)
    requires Names(r, s)
    ensures r'.replay == r.replay && r'.activeSpectators == r.activeSpectators
    ensures |r'.players| == |r.players| && |r'.spectators| == |r.spectators|
    ensures Names(r', s) && At(r', s) == x
  {
    match s
    case InSpectators(i) => r.(spectators := r.spectators[i := x])
    case InPlayers(i) => r.(players := r.players[i := x])
  }

  /** Put changes no record but the one in its slot. */
  lemma PutLeavesOthers(r: Roster, s: Slot, x: Rec, t: Slot)
    requires Names(r, s) && Names(r, t) && t != s
    ensures Names(Put(r, s, x), t) && At(Put(r, s, x), t) == At(r, t)
  {
  }

  lemma PutPut(r: Roster, s: Slot, x: Rec, y: Rec)
    requires Names(r, s)
    ensures Put(Put(r, s, x), s, y) == Put(r, s, y)
  {
  }

  /** Indices as GetPlayerIndexFromID and GetSpectatorIndexFromID return them: each is -1 or a valid index. */
  predicate IndicesIn(r: Roster, playerIndex: int, spectatorIndex: int) {
    -1 <= playerIndex < |r.players| && -1 <= spectatorIndex < |r.spectators|
  }

  /** The record chatTyping and chatTypingCheckStopped touch: the spectator
      record when there is a spectator index, otherwise the player record
      when there is a player index. */
  function Target(r: Roster, playerIndex: int, spectatorIndex: int): (s: Slot)
    requires IndicesIn(r, playerIndex, spectatorIndex)
    ensures s == Nowhere || Names(r, s)
  {
    if spectatorIndex != -1 then InSpectators(spectatorIndex)
    else if playerIndex != -1 then InPlayers(playerIndex)
    else Nowhere
  }

  /** The slot of user `u`, looked up by user ID with spectator precedence. */
  function UserSlot(r: Roster, u: int): (s: Slot)
    ensures s == Nowhere || Names(r, s)
  {
    Target(r, IndexOf(r.players, u), IndexOf(r.spectators, u))
  }

  /** Spectator precedence: a user with a spectator record is looked up as
      that spectator (the first such record), whatever player record the
      user also has; a user with only a player record is looked up as that
      player; a user with neither is found nowhere. */
  lemma UserSlotPrecedence(r: Roster, u: int)
    ensures UserSlot(r, u).InSpectators? <==> HasUser(r.spectators, u)
    ensures UserSlot(r, u).InPlayers? <==> !HasUser(r.spectators, u) && HasUser(r.players, u)
    ensures UserSlot(r, u) == Nowhere <==> !IsPlayerOrSpectating(r, u)
    ensures UserSlot(r, u) != Nowhere ==> At(r, UserSlot(r, u)).userID == u
    ensures UserSlot(r, u).InSpectators? ==> UserSlot(r, u).index == IndexOf(r.spectators, u)
    ensures UserSlot(r, u).InPlayers? ==> UserSlot(r, u).index == IndexOf(r.players, u)
  {
    IndexOfFindsFirst(r.players, u);
    IndexOfFindsFirst(r.spectators, u);
  }

  /** Lookups depend only on user IDs. */
  lemma IndexOfSameIDs(a: seq<Rec>, b: seq<Rec>, u: int)
    requires |a| == |b|
    requires forall i :: 0 <= i < |a| ==> a[i].userID == b[i].userID
    ensures HasUser(a, u) == HasUser(b, u)
    ensures IndexOf(a, u) == IndexOf(b, u)
  {
    IndexOfFindsFirst(a, u);
    IndexOfFindsFirst(b, u);
    if HasUser(a, u) {
      var i :| 0 <= i < |a| && a[i].userID == u;
      assert b[i].userID == u;
    }
    if HasUser(b, u) {
      var i :| 0 <= i < |b| && b[i].userID == u;
      assert a[i].userID == u;
    }
  }

  /** Replacing a record by one with the same user ID changes neither the
      guards nor the slot lookup of any user. */
  lemma PutKeepsLookups(r: Roster, s: Slot, x: Rec, v: int)
    requires Names(r, s) && x.userID == At(r, s).userID
    ensures IsPlayerOrSpectating(Put(r, s, x), v) == IsPlayerOrSpectating(r, v)
    ensures Eligibility(Put(r, s, x), v) == Eligibility(r, v)
    ensures UserSlot(Put(r, s, x), v) == UserSlot(r, v)
  {
    var r' := Put(r, s, x);
    forall i | 0 <= i < |r.players| ensures r.players[i].userID == r'.players[i].userID {
      assert Names(r, InPlayers(i));
      if InPlayers(i) != s { PutLeavesOthers(r, s, x, InPlayers(i)); }
      assert At(r, InPlayers(i)) == r.players[i];
    }
    forall i | 0 <= i < |r.spectators| ensures r.spectators[i].userID == r'.spectators[i].userID {
      assert Names(r, InSpectators(i));
      if InSpectators(i) != s { PutLeavesOthers(r, s, x, InSpectators(i)); }
      assert At(r, InSpectators(i)) == r.spectators[i];
    }
    IndexOfSameIDs(r.players, r'.players, v);
    IndexOfSameIDs(r.spectators, r'.spectators, v);
  }

  // ---------------------------------------------------------------------
  // The keystroke (chatTyping / commandChatTyping)
  // ---------------------------------------------------------------------

  /** chatTyping on the record the two indices select. */
  function ChatTyping(r: Roster, playerIndex: int, spectatorIndex: int, now: int): Effect
    requires IndicesIn(r, playerIndex, spectatorIndex)
  {
    var s := Target(r, playerIndex, spectatorIndex);
    if s == Nowhere then Effect(r, None)
    else
      var was := At(r, s);
      var name := if !was.typing then was.name else "";
      Effect(Put(r, s, was.(lastTyped := now, typing := true)),
             if name != "" then Some(Note(name, true)) else None)
  }

  /** chatTyping refreshes the keystroke time and sets the flag of the
      selected record, whatever the flag was, and changes no other record; it
      announces "started" only on a false-to-true transition of a named
      participant; with neither index present it does nothing. */
  lemma ChatTypingMarksTarget(r: Roster, playerIndex: int, spectatorIndex: int, now: int)
    requires IndicesIn(r, playerIndex, spectatorIndex)
    ensures var s := Target(r, playerIndex, spectatorIndex);
            var e := ChatTyping(r, playerIndex, spectatorIndex, now);
            && (s == Nowhere ==> e == Effect(r, None))
            && (s != Nowhere ==> At(e.roster, s) == At(r, s).(typing := true, lastTyped := now))
            && (forall t :: Names(r, t) && t != s ==> Names(e.roster, t) && At(e.roster, t) == At(r, t))
            && (e.note.Some? <==> s != Nowhere && !At(r, s).typing && At(r, s).name != "")
            && (e.note.Some? ==> e.note.value == Note(At(r, s).name, true))
  {
    var s := Target(r, playerIndex, spectatorIndex);
    if s != Nowhere {
      var x := At(r, s).(typing := true, lastTyped := now);
      forall t | Names(r, t) && t != s ensures Names(Put(r, s, x), t) && At(Put(r, s, x), t) == At(r, t) {
        PutLeavesOthers(r, s, x, t);
      }
    }
  }

  /** commandChatTyping on a table that exists: the guards, then chatTyping
      with the looked-up indices, then one delayed check for the user. */
  function Keystroke(w: World, u: int, now: int): Outcome {
    match Eligibility(w.roster, u)
    case Some(why) => Outcome(w, Rejected(why))
    case None =>
      var e := ChatTyping(w.roster, IndexOf(w.roster.players, u), IndexOf(w.roster.spectators, u), now);
      Outcome(World(e.roster, w.pending + [Check(u, now + TypingDelay)]), Accepted(e.note))
  }

  /** A keystroke from a user who is neither a player nor a spectator, or
      who is not actively spectating a replay, is refused (with the reason
      commandChatTyping reports) and changes nothing: no record, no
      announcement, no scheduled check.  Every other keystroke is accepted. */
  lemma KeystrokeRefusals(w: World, u: int, now: int)
    ensures var o := Keystroke(w, u, now);
            && (o.result.Rejected? ==> o.world == w)
            && (o.result == Rejected(NotPlayingOrSpectating) <==> !IsPlayerOrSpectating(w.roster, u))
            && (o.result == Rejected(NotSpectatingReplay) <==>
                  IsPlayerOrSpectating(w.roster, u) && w.roster.replay && !IsActivelySpectating(w.roster, u))
            && (o.result.Accepted? <==>
                  IsPlayerOrSpectating(w.roster, u) && (w.roster.replay ==> IsActivelySpectating(w.roster, u)))
  {
  }

  /** An accepted keystroke marks u's record (spectator first) as typing
      since `now`, leaves every other record alone, schedules exactly one
      check for u due TypingDelay later, and announces "started" exactly when
      the record was idle and has a name. */
  lemma KeystrokeAccepted(w: World, u: int, now: int)
    requires Eligibility(w.roster, u) == None
    ensures var s := UserSlot(w.roster, u);
            var o := Keystroke(w, u, now);
            && s != Nowhere
            && o.world.roster == Put(w.roster, s, At(w.roster, s).(typing := true, lastTyped := now))
            && (forall t :: Names(w.roster, t) && t != s ==> Names(o.world.roster, t) && At(o.world.roster, t) == At(w.roster, t))
            && o.world.pending == w.pending + [Check(u, now + TypingDelay)]
            && o.result.Accepted?
            && (o.result.note.Some? <==> !At(w.roster, s).typing && At(w.roster, s).name != "")
            && (o.result.note.Some? ==> o.result.note.value == Note(At(w.roster, s).name, true))
  {
    UserSlotPrecedence(w.roster, u);
    ChatTypingMarksTarget(w.roster, IndexOf(w.roster.players, u), IndexOf(w.roster.spectators, u), now);
  }

  /** The user-visible part of a keystroke's result. */
  function Announced(k: KeyResult): Option<Note> {
    if k.Accepted? then k.note else None
  }

  // ---------------------------------------------------------------------
  // The delayed check (chatTypingCheckStopped)
  // ---------------------------------------------------------------------

  /** Whether a delayed check for `u` at time `now` clears the flag: the table
      is the same instance, the user passes the guards, the record is typing,
      and at least TypingDelay has passed since the last keystroke. */
  predicate StopDue(r: Roster, sameTable: bool, u: int, now: int) {
    && sameTable
    && Eligibility(r, u) == None
    && Names(r, UserSlot(r, u))
    && At(r, UserSlot(r, u)).typing
    && now - At(r, UserSlot(r, u)).lastTyped >= TypingDelay
  }

  /** The second half of chatTypingCheckStopped, on the record the two
      indices select (spectator first): nothing when there is none or it is
      idle; otherwise clear its flag once TypingDelay has passed since its
      last keystroke, announcing "stopped" for a named participant. */
  function StopTyping(r: Roster, playerIndex: int, spectatorIndex: int, now: int): Effect
    requires IndicesIn(r, playerIndex, spectatorIndex)
  {
    var s := Target(r, playerIndex, spectatorIndex);
    if s == Nowhere then Effect(r, None)
    else if !At(r, s).typing then Effect(r, None)
    else if now - At(r, s).lastTyped >= TypingDelay then
      var name := At(r, s).name;
      Effect(Put(r, s, At(r, s).(typing := false)), if name != "" then Some(Note(name, false)) else None)
    else Effect(r, None)
  }

  /** chatTypingCheckStopped, run at time `now`; `sameTable` says whether the
      registry still maps the table's ID to the instance the check captured. */
  function CheckStopped(r: Roster, sameTable: bool, u: int, now: int): Effect {
    if !sameTable then Effect(r, None)
    else if Eligibility(r, u).Some? then Effect(r, None)
    else StopTyping(r, IndexOf(r.players, u), IndexOf(r.spectators, u), now)
  }

  /** The delayed check does nothing at all when the table is gone or
      replaced, when the user no longer passes the guards, when the record is
      already idle, or when less than TypingDelay has passed since the last
      keystroke.  Otherwise it clears the flag of u's record (spectator
      first), changes nothing else, and announces "stopped" when the
      participant has a name. */
  lemma CheckStoppedClearsOnlyWhenQuiet(r: Roster, sameTable: bool, u: int, now: int)
    ensures var e := CheckStopped(r, sameTable, u, now);
            && (!sameTable ==> e == Effect(r, None))
            && (Eligibility(r, u).Some? ==> e == Effect(r, None))
            && (Names(r, UserSlot(r, u)) && !At(r, UserSlot(r, u)).typing ==> e == Effect(r, None))
            && (Names(r, UserSlot(r, u)) && now - At(r, UserSlot(r, u)).lastTyped < TypingDelay ==> e == Effect(r, None))
            && (!StopDue(r, sameTable, u, now) ==> e == Effect(r, None))
            && (StopDue(r, sameTable, u, now) ==>
                  var s := UserSlot(r, u);
                  && e.roster == Put(r, s, At(r, s).(typing := false))
                  && (forall t :: Names(r, t) && t != s ==> Names(e.roster, t) && At(e.roster, t) == At(r, t))
                  && (e.note.Some? <==> At(r, s).name != "")
                  && (e.note.Some? ==> e.note.value == Note(At(r, s).name, false)))
  {
    if StopDue(r, sameTable, u, now) {
      var s := UserSlot(r, u);
      forall t | Names(r, t) && t != s
        ensures Names(Put(r, s, At(r, s).(typing := false)), t) && At(Put(r, s, At(r, s).(typing := false)), t) == At(r, t)
      {
        PutLeavesOthers(r, s, At(r, s).(typing := false), t);
      }
    }
  }
}
