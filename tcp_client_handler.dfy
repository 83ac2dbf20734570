/** The telnet client handler (src/receiver/tcp_client_handler.cc), the
    revision of the menu that signals the audio receiver through an event
    pipe instead of an event queue. Its moves, commands and menu text are
    those of UiMenu; the events it sets are the sequence `audioEvents`. */
module TcpClientHandler {
  import opened Wrappers
  import opened StationSet
  import opened Events
  import opened UiMenu

  class TcpClientHandlerWorker {
    const roster: Stations
    const mark: string
    var audioEvents: seq<PipeEvent>
    var broadcasts: seq<string>

    constructor(roster: Stations, mark: string)
      ensures this.roster == roster && this.mark == mark
      ensures audioEvents == [] && broadcasts == []
    {
      this.roster := roster;
      this.mark := mark;
      audioEvents, broadcasts := [], [];
    }

    /** send_to_all(menu_to_str()). */
    method Broadcast()
      modifies this
      ensures broadcasts == old(broadcasts) + [MenuToStr(roster.stations, roster.current, mark)]
      ensures audioEvents == old(audioEvents)
    {
      broadcasts := broadcasts + [MenuToStr(roster.stations, roster.current, mark)];
    }

    /** cmd_move_up: STATION_CHANGE is set only when the iterator moves. */
    method CmdMoveUp() returns (ok: bool)
      requires roster.current.At? ==> roster.current.i < |roster.stations|
      modifies this, roster
      ensures var m := MoveUp(|old(roster.stations)|, old(roster.current));
        && roster.stations == old(roster.stations)
        && (ok <==> !m.BadIterator?)
        && (m.Moved? ==> roster.current == m.to && audioEvents == old(audioEvents) + [StationChange])
        && (!m.Moved? ==> roster.current == old(roster.current) && audioEvents == old(audioEvents))
        && broadcasts == old(broadcasts) + (if ok then [MenuToStr(roster.stations, roster.current, mark)] else [])
    {
      if roster.current.Dangling? {
        return false;
      }
      var begin := if |roster.stations| > 0 then At(0) else End;
      if roster.current != begin {
        roster.current := if roster.current.End? then At(|roster.stations| - 1) else At(roster.current.i - 1);
        audioEvents := audioEvents + [StationChange];
      }
      Broadcast();
      ok := true;
    }

    /** cmd_move_down: STATION_CHANGE is set only when the iterator moves. */
    method CmdMoveDown() returns (ok: bool)
      requires roster.current.At? ==> roster.current.i < |roster.stations|
      modifies this, roster
      ensures var m := MoveDown(|old(roster.stations)|, old(roster.current));
        && roster.stations == old(roster.stations)
        && (ok <==> !m.BadIterator?)
        && (m.Moved? ==> roster.current == m.to && audioEvents == old(audioEvents) + [StationChange])
        && (!m.Moved? ==> roster.current == old(roster.current) && audioEvents == old(audioEvents))
        && broadcasts == old(broadcasts) + (if ok then [MenuToStr(roster.stations, roster.current, mark)] else [])
    {
      if |roster.stations| == 0 || roster.current.Dangling? {
        return false;
      }
      var last := At(|roster.stations| - 1);
      if roster.current != last {
        if roster.current.End? {
          return false;
        }
        roster.current := At(roster.current.i + 1);
        audioEvents := audioEvents + [StationChange];
      }
      Broadcast();
      ok := true;
    }

    /** apply_cmd: an unknown command is an error and changes nothing. */
    method ApplyCommand(cmd: string) returns (r: Result<bool, string>)
      requires roster.current.At? ==> roster.current.i < |roster.stations|
      modifies this, roster
      ensures var a := ApplyCmd(cmd, |old(roster.stations)|, old(roster.current));
        && roster.stations == old(roster.stations)
        && (r.Err? <==> a.Err?)
        && (r.Err? ==> r.error == a.error && roster.current == old(roster.current)
                        && audioEvents == old(audioEvents) && broadcasts == old(broadcasts))
        && (r.Ok? ==> (r.value <==> !a.value.BadIterator?)
                      && (a.value.Moved? ==> roster.current == a.value.to)
                      && (!a.value.Moved? ==> roster.current == old(roster.current)))
    {
      if cmd == UP {
        var ok := CmdMoveUp();
        r := Ok(ok);
      } else if cmd == DOWN {
        var ok := CmdMoveDown();
        r := Ok(ok);
      } else {
        r := Err("Unknown command");
      }
    }

    /** The event switch of run() (lines 51-57): SIG_INT ends the loop (the
        source asserts that the program is no longer running), and
        STATION_CHANGE re-renders. */
    method HandleEvent(e: PipeEvent) returns (stop: bool)
      modifies this
      ensures stop <==> e == SigInt
      ensures audioEvents == old(audioEvents)
      ensures e == StationChange ==> broadcasts == old(broadcasts) + [MenuToStr(roster.stations, roster.current, mark)]
      ensures e != StationChange ==> broadcasts == old(broadcasts)
    {
      stop := false;
      match e {
        case SigInt => stop := true;
        case StationChange => Broadcast();
        case _ =>
      }
    }
  }
}
