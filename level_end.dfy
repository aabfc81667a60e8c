/**
  * The end-of-level bookkeeping of the world as a step function over its three flags.
  * The audio system is outside the model: what the world asks of it arrives as
  * booleans in a frame, and what it tells it leaves as events.
  */
module LevelEnd {

  /** The song the world starts once the flag has been captured. */
  const FinishSong: string := "finish"

  /** level_ended, reset_flag and playing_finish_song. */
  datatype Flags = Flags(levelEnded: bool, resetFlag: bool, playingFinishSong: bool)

  /** The flags of a freshly constructed world. */
  const Initial: Flags := Flags(false, false, false)

  /**
    * What one call of the end-of-level check sees: whether the player overlaps the flag,
    * whether the current song is the finish song, and whether a song is playing when
    * asked before and after the finish song may have been started.
    */
  datatype Frame = Frame(overlapsFlag: bool, finishIsCurrent: bool, playingBefore: bool, playingAfter: bool)

  /** One frame of the world's update: the end-of-level inputs and whether the player is dead after acting. */
  datatype Tick = Tick(frame: Frame, playerDead: bool)

  datatype Event =
    | CaptureFlag                     // the player is sent down the flag pole
    | StopSong
    | PlaySong(name: string, loop: bool)
    | ResetLevel                      // the world rebuilds the level

  datatype Step = Step(flags: Flags, events: seq<Event>)

  /** The flags staying consistent: the level is reset or the finish song played only after it ended. */
  predicate Consistent(f: Flags)
  {
    (f.resetFlag ==> f.levelEnded) && (f.playingFinishSong ==> f.levelEnded)
  }

  /** The end-of-level check. */
  function EndLevelStep(f: Flags, i: Frame): (r: Step)
    ensures CaptureFlag in r.events <==> !f.levelEnded && i.overlapsFlag
    ensures CaptureFlag in r.events ==> r.events == [CaptureFlag] && r.flags == f.(levelEnded := true, resetFlag := true)
    ensures r.flags.levelEnded == (f.levelEnded || i.overlapsFlag)
    ensures r.flags.playingFinishSong == (f.playingFinishSong || PlaySong(FinishSong, false) in r.events)
    ensures PlaySong(FinishSong, false) in r.events <==>
      (f.levelEnded || !i.overlapsFlag) && f.resetFlag && !f.playingFinishSong && !i.playingBefore
    ensures ResetLevel in r.events <==> (f.levelEnded || !i.overlapsFlag) && f.resetFlag && !i.playingAfter
    ensures ResetLevel in r.events ==> !r.flags.resetFlag && r.flags.levelEnded == f.levelEnded
    ensures StopSong in r.events <==> (f.levelEnded || !i.overlapsFlag) && f.resetFlag && !i.finishIsCurrent
    ensures (f.levelEnded || !i.overlapsFlag) && f.resetFlag ==> r.flags.resetFlag == i.playingAfter
    ensures !f.resetFlag && (f.levelEnded || !i.overlapsFlag) ==> r == Step(f, [])
  {
    if !f.levelEnded && i.overlapsFlag then
      Step(f.(levelEnded := true, resetFlag := true), [CaptureFlag])
    else if f.resetFlag then
      var stop := if i.finishIsCurrent then [] else [StopSong];
      var start := !f.playingFinishSong && !i.playingBefore;
      var play := if start then [PlaySong(FinishSong, false)] else [];
      var reset := if i.playingAfter then [] else [ResetLevel];
      Step(Flags(f.levelEnded, i.playingAfter, f.playingFinishSong || start), stop + play + reset)
    else
      Step(f, [])
  }

  /** One update: the end-of-level check, then the level is reset if the player has died. */
  function UpdateStep(f: Flags, t: Tick): (r: Step)
    ensures r.flags.levelEnded == EndLevelStep(f, t.frame).flags.levelEnded
    ensures r.flags.playingFinishSong == EndLevelStep(f, t.frame).flags.playingFinishSong
    ensures t.playerDead ==> !r.flags.resetFlag && ResetLevel in r.events
    ensures !t.playerDead ==> r == EndLevelStep(f, t.frame)
  {
    var s := EndLevelStep(f, t.frame);
    if t.playerDead then Step(s.flags.(resetFlag := false), s.events + [ResetLevel]) else s
  }

  /** A sequence of updates from the given flags: the final flags and every event, in order. */
  function Run(f: Flags, ts: seq<Tick>): Step
    decreases |ts|
  {
    if ts == [] then Step(f, [])
    else
      var s := UpdateStep(f, ts[0]);
      var rest := Run(s.flags, ts[1..]);
      Step(rest.flags, s.events + rest.events)
  }

  /** Every update keeps the flags consistent. */
  lemma UpdateConsistent(f: Flags, t: Tick)
    requires Consistent(f)
    ensures Consistent(UpdateStep(f, t).flags)
  {
  }

  /** Once the level has ended it stays ended: a reset does not clear the flag. */
  lemma {:induction false} LevelEndedStays(f: Flags, ts: seq<Tick>)
    requires f.levelEnded
    ensures Run(f, ts).flags.levelEnded
    ensures CaptureFlag !in Run(f, ts).events
    decreases |ts|
  {
    if ts != [] {
      LevelEndedStays(UpdateStep(f, ts[0]).flags, ts[1..]);
    }
  }

  /** Across any number of updates, including resets, the flag is captured at most once. */
  lemma {:induction false} CaptureAtMostOnce(f: Flags, ts: seq<Tick>)
    ensures multiset(Run(f, ts).events)[CaptureFlag] <= if f.levelEnded then 0 else 1
    decreases |ts|
  {
    if ts != [] {
      var s := UpdateStep(f, ts[0]);
      var rest := Run(s.flags, ts[1..]);
      CaptureAtMostOnce(s.flags, ts[1..]);
      if CaptureFlag in s.events {
        LevelEndedStays(s.flags, ts[1..]);
        assert multiset(rest.events)[CaptureFlag] == 0;
      }
      assert multiset(Run(f, ts).events) == multiset(s.events) + multiset(rest.events);
    }
  }

  /** Across any number of updates the finish song is started at most once. */
  lemma {:induction false} FinishSongAtMostOnce(f: Flags, ts: seq<Tick>)
    ensures multiset(Run(f, ts).events)[PlaySong(FinishSong, false)] <= if f.playingFinishSong then 0 else 1
    ensures f.playingFinishSong ==> Run(f, ts).flags.playingFinishSong
    decreases |ts|
  {
    if ts != [] {
      var s := UpdateStep(f, ts[0]);
      var rest := Run(s.flags, ts[1..]);
      FinishSongAtMostOnce(s.flags, ts[1..]);
      assert multiset(Run(f, ts).events) == multiset(s.events) + multiset(rest.events);
    }
  }

  /**
    * After the level has ended and been reset by the end-of-level check, the check never
    * acts again: the only events of later updates are resets for a dead player.
    */
  lemma {:induction false} InertAfterLevelReset(f: Flags, ts: seq<Tick>)
    requires f.levelEnded && !f.resetFlag
    ensures forall e :: e in Run(f, ts).events ==> e == ResetLevel
    ensures Run(f, ts).flags == f
    decreases |ts|
  {
    if ts != [] {
      var s := UpdateStep(f, ts[0]);
      assert s.flags == f;
      InertAfterLevelReset(s.flags, ts[1..]);
    }
  }

  /** The end-of-level check's own reset leaves exactly that inert state. */
  lemma LevelResetIsFinal(f: Flags, i: Frame, ts: seq<Tick>)
    requires Consistent(f)
    requires ResetLevel in EndLevelStep(f, i).events
    ensures forall e :: e in Run(EndLevelStep(f, i).flags, ts).events ==> e == ResetLevel
  {
    InertAfterLevelReset(EndLevelStep(f, i).flags, ts);
  }
}
