/** The exit guard of the close handler, as a two-state machine: the guard
    starts false, is set by the first close event that carries the exiting
    flag, and is never reset. Only that event tries to save. */
module ExitGuard {
  import opened Connections
  import opened SaveList

  /** The bit of the host's file-event flags that marks a close caused by the
      application exiting. */
  const Exiting: bv32 := 1

  predicate HasExitingFlag(flags: bv32) {
    flags & Exiting == Exiting
  }

  /** What one close event does to the configuration store: nothing, one
      write of the encoded list, or a failed save reported to the user. */
  datatype CloseEffect = NoEffect | Saved(xml: string) | SaveFailed

  datatype CloseResult = CloseResult(exiting: bool, effect: CloseEffect)

  /** One close event with event flags `flags` while `docs` are open; the
      guard is set before the list is collected and encoded. */
  function OnClose(exiting: bool, flags: bv32, docs: seq<Document>,
                   encode: seq<IoConnection> -> Option<string>): (r: CloseResult)
    ensures !HasExitingFlag(flags) ==> r == CloseResult(exiting, NoEffect)
    ensures exiting ==> r == CloseResult(true, NoEffect)
    ensures r.exiting == (exiting || HasExitingFlag(flags))
    ensures r.effect != NoEffect <==> !exiting && HasExitingFlag(flags)
    ensures r.effect.Saved? <==>
      !exiting && HasExitingFlag(flags) && Collect(docs).Some? && encode(Collect(docs).value).Some?
    ensures r.effect.Saved? ==>
      Collect(docs) == Some(Collected(docs)) && encode(Collected(docs)) == Some(r.effect.xml)
  {
    if HasExitingFlag(flags) && !exiting then
      var effect := match Collect(docs)
        case None => SaveFailed
        case Some(connections) =>
          match encode(connections)
          case None => SaveFailed
          case Some(xml) => Saved(xml);
      CloseResult(true, effect)
    else
      CloseResult(exiting, NoEffect)
  }

  datatype CloseEvent = CloseEvent(flags: bv32, docs: seq<Document>)

  /** A run of close events: the guard value at the end, and the effect of
      each event, in order. */
  datatype CloseRun = CloseRun(exiting: bool, effects: seq<CloseEffect>)

  /** The run of close events `events` starting from guard value `exiting`,
      each event handled by `OnClose` with the guard left by the one before. */
  function Run(exiting: bool, events: seq<CloseEvent>,
               encode: seq<IoConnection> -> Option<string>): (r: CloseRun)
    ensures |r.effects| == |events|
    ensures exiting ==> r.exiting
    ensures forall i :: 0 <= i < |events| && r.effects[i] != NoEffect ==> HasExitingFlag(events[i].flags)
    decreases |events|
  {
    if events == [] then CloseRun(exiting, [])
    else
      var first := OnClose(exiting, events[0].flags, events[0].docs, encode);
      var rest := Run(first.exiting, events[1..], encode);
      assert forall i :: 1 <= i < |events| ==> events[i] == events[1..][i - 1];
      CloseRun(rest.exiting, [first.effect] + rest.effects)
  }

  /** The effects of a run of close events, one per event; only an event
      carrying the exiting flag can have one. */
  function RunCloses(exiting: bool, events: seq<CloseEvent>,
                     encode: seq<IoConnection> -> Option<string>): (effects: seq<CloseEffect>)
    ensures |effects| == |events|
    ensures forall i :: 0 <= i < |events| && effects[i] != NoEffect ==> HasExitingFlag(events[i].flags)
  {
    Run(exiting, events, encode).effects
  }

  /** The guard value after a run of close events. */
  function ExitingAfter(exiting: bool, events: seq<CloseEvent>,
                        encode: seq<IoConnection> -> Option<string>): bool
  {
    Run(exiting, events, encode).exiting
  }

  /** The guard ends up set exactly when it was set or some event carried the
      exiting flag; in particular it is never reset. */
  lemma {:induction false} ExitingAfterIff(exiting: bool, events: seq<CloseEvent>,
                                           encode: seq<IoConnection> -> Option<string>)
    ensures ExitingAfter(exiting, events, encode) ==
      (exiting || exists i :: 0 <= i < |events| && HasExitingFlag(events[i].flags))
    decreases |events|
  {
    if events != [] {
      var rest := events[1..];
      ExitingAfterIff(exiting || HasExitingFlag(events[0].flags), rest, encode);
      if exists i :: 0 <= i < |rest| && HasExitingFlag(rest[i].flags) {
        var i :| 0 <= i < |rest| && HasExitingFlag(rest[i].flags);
        assert events[i + 1] == rest[i];
      }
      if exists i :: 0 <= i < |events| && HasExitingFlag(events[i].flags) {
        var i :| 0 <= i < |events| && HasExitingFlag(events[i].flags);
        if i > 0 {
          assert rest[i - 1] == events[i];
        }
      }
    }
  }

  /** Once the guard is set, no close event has any effect. */
  lemma {:induction false} NoEffectOnceExiting(events: seq<CloseEvent>,
                                               encode: seq<IoConnection> -> Option<string>)
    ensures forall i :: 0 <= i < |events| ==> RunCloses(true, events, encode)[i] == NoEffect
  {
    if events != [] {
      NoEffectOnceExiting(events[1..], encode);
      assert RunCloses(true, events, encode) == [NoEffect] + RunCloses(true, events[1..], encode);
    }
  }

  /** Starting from the initial guard value, an event tries to save exactly
      when it carries the exiting flag and no earlier event did. */
  lemma {:induction false} SaveAttemptedAtFirstExiting(events: seq<CloseEvent>,
                                                       encode: seq<IoConnection> -> Option<string>)
    ensures forall i :: 0 <= i < |events| ==>
      (RunCloses(false, events, encode)[i] != NoEffect <==>
        HasExitingFlag(events[i].flags) &&
        forall j :: 0 <= j < i ==> !HasExitingFlag(events[j].flags))
  {
    if events != [] {
      var effects := RunCloses(false, events, encode);
      var rest := events[1..];
      if HasExitingFlag(events[0].flags) {
        NoEffectOnceExiting(rest, encode);
        forall i | 0 < i < |events|
          ensures effects[i] == NoEffect
        {
          assert effects[i] == RunCloses(true, rest, encode)[i - 1];
        }
      } else {
        SaveAttemptedAtFirstExiting(rest, encode);
        forall i | 0 < i < |events|
          ensures effects[i] != NoEffect <==>
            HasExitingFlag(events[i].flags) &&
            forall j :: 0 <= j < i ==> !HasExitingFlag(events[j].flags)
        {
          assert effects[i] == RunCloses(false, rest, encode)[i - 1];
          assert events[i] == rest[i - 1];
          if forall j :: 0 <= j < i - 1 ==> !HasExitingFlag(rest[j].flags) {
            forall j | 0 <= j < i ensures !HasExitingFlag(events[j].flags) {
              if j > 0 {
                assert events[j] == rest[j - 1];
              }
            }
          } else {
            var j :| 0 <= j < i - 1 && HasExitingFlag(rest[j].flags);
            assert events[j + 1] == rest[j];
          }
        }
      }
    }
  }

  /** Across any run of close events the store is written at most once, and a
      save that failed is never followed by a write. */
  lemma AtMostOneSaveAttempt(exiting: bool, events: seq<CloseEvent>,
                             encode: seq<IoConnection> -> Option<string>)
    ensures forall i, j :: 0 <= i < j < |events| ==>
      RunCloses(exiting, events, encode)[i] == NoEffect ||
      RunCloses(exiting, events, encode)[j] == NoEffect
    ensures forall i, j :: 0 <= i < |events| && 0 <= j < |events| ==>
      (RunCloses(exiting, events, encode)[i] == SaveFailed ==>
         !RunCloses(exiting, events, encode)[j].Saved?)
  {
    var effects := RunCloses(exiting, events, encode);
    if exiting {
      NoEffectOnceExiting(events, encode);
    } else {
      SaveAttemptedAtFirstExiting(events, encode);
      forall i, j | 0 <= i < j < |events|
        ensures effects[i] == NoEffect || effects[j] == NoEffect
      {
        if effects[i] != NoEffect {
          assert HasExitingFlag(events[i].flags);
        }
      }
    }
  }
}
