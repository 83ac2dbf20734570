/** The telnet menu (src/receiver/ui_menu.cc): the arrow-key commands that
    move the current-station iterator, and the menu text broadcast to every
    client. The messages sent to clients are the sequence `broadcasts`;
    sockets, polling and the telnet negotiation are not modelled. The
    highlighted prefix is the parameter `mark`, since the `HIGHLIGHT`
    macro is not defined in the repository. */
module UiMenu {
  import opened Wrappers
  import opened Text
  import opened Station
  import opened StationSet
  import opened Events

  /** Seventy-two dashes. */
  const HORIZONTAL_BAR: string := Dashes(72)

  function Dashes(n: nat): (s: string)
    ensures |s| == n && forall i :: 0 <= i < n ==> s[i] == '-'
  {
    seq(n, _ => '-')
  }
  const PROGRAM_NAME: string := "SIK Radio"

  lemma BarIsOneLine()
    ensures |HORIZONTAL_BAR| == 72 && OneLine(HORIZONTAL_BAR)
  {
  }
  const CHOSEN_STATION_PREFIX: string := " > "

  /** The arrow-key sequences of ui.hh (`commands::UP`, `commands::DOWN`). */
  const UP: string := "\U{1b}[A"
  const DOWN: string := "\U{1b}[B"

  /** What a move does to the iterator: move it, leave it, or touch an
      iterator that may not be moved or compared (undefined behaviour). */
  datatype Move = Moved(to: Cursor) | Stayed | BadIterator

  /** cmd_move_up (lines 138-147) on a set of `n` stations: step back
      unless at begin(), which is end() for an empty set. */
  function MoveUp(n: nat, c: Cursor): (m: Move)
    requires c.At? ==> c.i < n
    ensures m.Moved? ==> m.to.At? && m.to.i < n
  {
    match c
    case Dangling => BadIterator
    case End => if n == 0 then Stayed else Moved(At(n - 1))
    case At(i) => if i == 0 then Stayed else Moved(At(i - 1))
  }

  /** cmd_move_down (lines 149-158): step forward unless at the last
      station; prev(end()) of an empty set and ++end() are undefined. */
  function MoveDown(n: nat, c: Cursor): (m: Move)
    requires c.At? ==> c.i < n
    ensures m.Moved? ==> m.to.At? && m.to.i < n
  {
    if n == 0 then BadIterator
    else match c
      case Dangling => BadIterator
      case End => BadIterator
      case At(i) => if i == n - 1 then Stayed else Moved(At(i + 1))
  }

  /** The two moves undo each other: one step up from a station is undone
      by one step down, and the other way round. */
  lemma MovesInverse(n: nat, i: nat)
    requires i < n
    ensures MoveUp(n, At(i)).Moved? ==> MoveDown(n, MoveUp(n, At(i)).to) == Moved(At(i))
    ensures MoveDown(n, At(i)).Moved? ==> MoveUp(n, MoveDown(n, At(i)).to) == Moved(At(i))
  {
  }

  /** Up moves exactly when the iterator is not begin(), down exactly when
      it is a station other than the last one; from end(), up goes to the
      last station. */
  lemma MovesMeaning(n: nat, c: Cursor)
    requires c.At? ==> c.i < n
    ensures MoveUp(n, c).Moved? <==> !c.Dangling? && c != (if n > 0 then At(0) else End)
    ensures c.End? && n > 0 ==> MoveUp(n, c) == Moved(At(n - 1))
    ensures MoveDown(n, c).Moved? <==> c.At? && c.i + 1 < n
    ensures MoveUp(n, c).BadIterator? <==> c.Dangling?
    ensures MoveDown(n, c).BadIterator? <==> n == 0 || !c.At?
  {
  }

  /** apply_cmd (lines 131-136): the arrow keys and nothing else. */
  function ApplyCmd(cmd: string, n: nat, c: Cursor): (r: Result<Move, string>)
    requires c.At? ==> c.i < n
    ensures r.Err? <==> cmd != UP && cmd != DOWN
    ensures r.Err? ==> r.error == "Unknown command"
  {
    if cmd == UP then Ok(MoveUp(n, c))
    else if cmd == DOWN then Ok(MoveDown(n, c))
    else Err("Unknown command")
  }

  /** One station's line, without its newline. */
  function Row(st: Station, chosen: bool, mark: string): string
  {
    (if chosen then mark else []) + st.name
  }

  /** The station lines, in set order. */
  function Rows(s: seq<Station>, c: Cursor, mark: string): (r: seq<string>)
    ensures |r| == |s|
    ensures forall k :: 0 <= k < |s| ==> r[k] == Row(s[k], c == At(k), mark)
  {
    if |s| == 0 then []
    else Rows(s[..|s| - 1], c, mark) + [Row(s[|s| - 1], c == At(|s| - 1), mark)]
  }

  /** Lines each written followed by a newline. */
  function Terminated(ls: seq<string>): string
  {
    if |ls| == 0 then [] else ls[0] + "\n" + Terminated(ls[1..])
  }

  /** menu_to_str (lines 81-94): bar, program name, bar, one line per
      station with the current one prefixed by `mark`, and a final bar with
      no newline after it. */
  function MenuToStr(s: seq<Station>, c: Cursor, mark: string): string
  {
    Terminated([HORIZONTAL_BAR, PROGRAM_NAME, HORIZONTAL_BAR] + Rows(s, c, mark)) + HORIZONTAL_BAR
  }

  predicate OneLine(l: string)
  {
    '\n' !in l
  }

  /** Newline-terminated lines followed by a non-empty last line read back
      as those lines. */
  lemma {:induction false} TokensOfTerminated(ls: seq<string>, last: string)
    requires forall k :: 0 <= k < |ls| ==> OneLine(ls[k])
    requires OneLine(last) && |last| > 0
    ensures var t := Tokens(Terminated(ls) + last, '\n');
      && |t| == |ls| + 1 && t[|ls|] == last
      && forall k :: 0 <= k < |ls| ==> t[k] == ls[k]
  {
    if |ls| == 0 {
      assert Terminated(ls) + last == last;
      assert Text.Find(last, '\n').None?;
    } else {
      var rest := Terminated(ls[1..]) + last;
      assert Terminated(ls) + last == ls[0] + "\n" + rest;
      assert Text.Find(ls[0], '\n').None?;
      Text.TokenThenRest(ls[0], rest, '\n');
      TokensOfTerminated(ls[1..], last);
    }
  }

  /** The menu read line by line: the header, then exactly one line per
      station in set order, the current one (and only it) prefixed by the
      highlight, then the closing bar. Station names are one line each. */
  lemma MenuLines(s: seq<Station>, c: Cursor, mark: string)
    requires forall k :: 0 <= k < |s| ==> IsValidName(s[k].name)
    requires OneLine(mark)
    ensures var ls := Tokens(MenuToStr(s, c, mark), '\n');
      && |ls| == |s| + 4
      && ls[0] == HORIZONTAL_BAR && ls[1] == PROGRAM_NAME && ls[2] == HORIZONTAL_BAR && ls[|s| + 3] == HORIZONTAL_BAR
      && (forall k :: 0 <= k < |s| ==> ls[k + 3] == Row(s[k], c == At(k), mark))
  {
    var rows := Rows(s, c, mark);
    var ls := [HORIZONTAL_BAR, PROGRAM_NAME, HORIZONTAL_BAR] + rows;
    MenuLinesOneLine(s, c, mark, ls);
    BarIsOneLine();
    TokensOfTerminated(ls, HORIZONTAL_BAR);
    assert MenuToStr(s, c, mark) == Terminated(ls) + HORIZONTAL_BAR;
    MenuLinesFrom(s, c, mark, ls, Tokens(MenuToStr(s, c, mark), '\n'));
  }

  /** The tokens `t` of the menu text, given that they are its lines `ls`
      followed by the closing bar. */
  lemma MenuLinesFrom(s: seq<Station>, c: Cursor, mark: string, ls: seq<string>, t: seq<string>)
    requires ls == [HORIZONTAL_BAR, PROGRAM_NAME, HORIZONTAL_BAR] + Rows(s, c, mark)
    requires |t| == |ls| + 1 && t[|ls|] == HORIZONTAL_BAR
    requires forall k :: 0 <= k < |ls| ==> t[k] == ls[k]
    ensures |t| == |s| + 4
    ensures t[0] == HORIZONTAL_BAR && t[1] == PROGRAM_NAME && t[2] == HORIZONTAL_BAR && t[|s| + 3] == HORIZONTAL_BAR
    ensures forall k :: 0 <= k < |s| ==> t[k + 3] == Row(s[k], c == At(k), mark)
  {
    var rows := Rows(s, c, mark);
    var head := [HORIZONTAL_BAR, PROGRAM_NAME, HORIZONTAL_BAR];
    assert t[0] == ls[0] == head[0];
    assert t[1] == ls[1] == head[1];
    assert t[2] == ls[2] == head[2];
    forall k | 0 <= k < |s|
      ensures t[k + 3] == rows[k]
    {
      assert t[k + 3] == ls[k + 3] == rows[k];
    }
  }

  /** Every line the menu writes before the closing bar is one line. */
  lemma MenuLinesOneLine(s: seq<Station>, c: Cursor, mark: string, ls: seq<string>)
    requires forall k :: 0 <= k < |s| ==> IsValidName(s[k].name)
    requires OneLine(mark)
    requires ls == [HORIZONTAL_BAR, PROGRAM_NAME, HORIZONTAL_BAR] + Rows(s, c, mark)
    ensures forall k :: 0 <= k < |ls| ==> OneLine(ls[k])
  {
    BarIsOneLine();
    forall k | 0 <= k < |ls|
      ensures OneLine(ls[k])
    {
      if k >= 3 {
        ValidNameIsOneLine(s[k - 3].name);
        assert ls[k] == Row(s[k - 3], c == At(k - 3), mark);
      } else if k == 1 {
        assert PROGRAM_NAME == ['S', 'I', 'K', ' ', 'R', 'a', 'd', 'i', 'o'];
      }
    }
  }

  /** The UI menu worker: the shared set and iterator, the audio receiver's
      event queue, and the messages broadcast to the clients. */
  class UiMenuWorker {
    const roster: Stations
    const mark: string
    var audioEvents: seq<QueueEvent>
    var broadcasts: seq<string>

    constructor(roster: Stations, mark: string)
      ensures this.roster == roster && this.mark == mark
      ensures audioEvents == [] && broadcasts == []
    {
      this.roster := roster;
      this.mark := mark;
      audioEvents, broadcasts := [], [];
    }

    /** send_to_all(menu_to_str()). */
    method Broadcast()
      modifies this
      ensures broadcasts == old(broadcasts) + [MenuToStr(roster.stations, roster.current, mark)]
      ensures audioEvents == old(audioEvents)
    {
      broadcasts := broadcasts + [MenuToStr(roster.stations, roster.current, mark)];
    }

    /** cmd_move_up; `ok` is false on undefined behaviour (a dangling
        iterator), which is not modelled further. */
    method CmdMoveUp() returns (ok: bool)
      requires roster.current.At? ==> roster.current.i < |roster.stations|
      modifies this, roster
      ensures var m := MoveUp(|old(roster.stations)|, old(roster.current));
        && roster.stations == old(roster.stations)
        && (ok <==> !m.BadIterator?)
        && (m.Moved? ==> roster.current == m.to && audioEvents == old(audioEvents) + [CurrentStationChanged])
        && (!m.Moved? ==> roster.current == old(roster.current) && audioEvents == old(audioEvents))
        && broadcasts == old(broadcasts) + (if ok then [MenuToStr(roster.stations, roster.current, mark)] else [])
    {
      if roster.current.Dangling? {
        return false;
      }
      var begin := if |roster.stations| > 0 then At(0) else End;
      if roster.current != begin {
        roster.current := if roster.current.End? then At(|roster.stations| - 1) else At(roster.current.i - 1);
        audioEvents := audioEvents + [CurrentStationChanged];
      }
      Broadcast();
      ok := true;
    }

    /** cmd_move_down. */
    method CmdMoveDown() returns (ok: bool)
      requires roster.current.At? ==> roster.current.i < |roster.stations|
      modifies this, roster
      ensures var m := MoveDown(|old(roster.stations)|, old(roster.current));
        && roster.stations == old(roster.stations)
        && (ok <==> !m.BadIterator?)
        && (m.Moved? ==> roster.current == m.to && audioEvents == old(audioEvents) + [CurrentStationChanged])
        && (!m.Moved? ==> roster.current == old(roster.current) && audioEvents == old(audioEvents))
        && broadcasts == old(broadcasts) + (if ok then [MenuToStr(roster.stations, roster.current, mark)] else [])
    {
      if |roster.stations| == 0 || roster.current.Dangling? {
        return false;
      }
      var last := At(|roster.stations| - 1);
      if roster.current != last {
        if roster.current.End? {
          return false;
        }
        roster.current := At(roster.current.i + 1);
        audioEvents := audioEvents + [CurrentStationChanged];
      }
      Broadcast();
      ok := true;
    }

    /** apply_cmd: an unknown command is an error and changes nothing. */
    method ApplyCommand(cmd: string) returns (r: Result<bool, string>)
      requires roster.current.At? ==> roster.current.i < |roster.stations|
      modifies this, roster
      ensures var a := ApplyCmd(cmd, |old(roster.stations)|, old(roster.current));
        && roster.stations == old(roster.stations)
        && (r.Err? <==> a.Err?)
        && (r.Err? ==> r.error == a.error && roster.current == old(roster.current)
                        && audioEvents == old(audioEvents) && broadcasts == old(broadcasts))
        && (r.Ok? ==> (r.value <==> !a.value.BadIterator?)
                      && (a.value.Moved? ==> roster.current == a.value.to)
                      && (!a.value.Moved? ==> roster.current == old(roster.current)))
    {
      if cmd == UP {
        var ok := CmdMoveUp();
        r := Ok(ok);
      } else if cmd == DOWN {
        var ok := CmdMoveDown();
        r := Ok(ok);
      } else {
        r := Err("Unknown command");
      }
    }

    /** The event switch of run() (lines 50-58): TERMINATE ends the loop;
        a change to the set or to the current station re-renders. */
    method HandleEvent(e: QueueEvent) returns (stop: bool)
      modifies this
      ensures stop <==> e == Terminate
      ensures audioEvents == old(audioEvents)
      ensures e in {StationAdded, StationRemoved, CurrentStationChanged} ==>
        broadcasts == old(broadcasts) + [MenuToStr(roster.stations, roster.current, mark)]
      ensures e !in {StationAdded, StationRemoved, CurrentStationChanged} ==> broadcasts == old(broadcasts)
    {
      stop := false;
      match e {
        case Terminate => stop := true;
        case StationAdded => Broadcast();
        case StationRemoved => Broadcast();
        case CurrentStationChanged => Broadcast();
        case _ =>
      }
    }
  }
}
