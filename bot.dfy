/** The bot object `ShowdownBot`: its fields, the message handlers that
    update them, and the stream of messages it writes to the websocket. */
module Bot {
  import opened Text
  import opened Json
  import opened Commands
  import opened Decision
  import opened Dispatch

  /** The format searched for when none is given. */
  const DefaultFormat: string := "gen9randombattle"

  /** The user name the fallback matchmaker acts for. */
  const FallbackUser: string := "mrbot1"

  class ShowdownBot {
    const username: string
    const battleFormat: string
    var battleRoom: Room
    var loggedIn: bool
    var battleStarted: bool
    var teamLogged: bool
    /** Every message written to the websocket, oldest first. */
    var sent: seq<string>

    /** The three fields the dispatcher reads and writes. */
    function State(): Status
      reads this
    {
      Status(loggedIn, battleRoom, battleStarted)
    }

    constructor(username: string, battleFormat: string := DefaultFormat)
      ensures this.username == username && this.battleFormat == battleFormat
      ensures State() == Initial && Consistent(State())
      ensures !teamLogged && sent == []
    {
      this.username := username;
      this.battleFormat := battleFormat;
      battleRoom := NoRoom;
      loggedIn := false;
      battleStarted := false;
      teamLogged := false;
      sent := [];
    }

    /** Answers a challenge string with the guest identity claim; a line that
        does not unpack into id and token raises, which is caught. */
    method HandleChallstr(line: string)
      modifies this`sent
      ensures sent == old(sent) + ChallstrReply(username, line)
    {
      var outer := Split(Strip(line), "|challstr|");
      if |outer| < 2 {
        assert ChallstrParts(line) == None;
        return;  // IndexError, caught
      }
      var parts := Split(outer[1], "|");
      assert ChallstrParts(line) == Some(parts);
      if |parts| != 2 {
        return;  // ValueError from the unpacking, caught
      }
      sent := sent + [Trn(username)];
    }

    /** Asks for a battle in the bot's format unless one has started. */
    method SearchBattle()
      modifies this`sent
      ensures sent == old(sent) + (if battleStarted then [] else [Search(battleFormat)])
    {
      if battleStarted {
        return;
      }
      sent := sent + [Search(battleFormat)];
    }

    /** Sends a switch to the first roster entry that may come in, or nothing.
        An exception from a roster entry ends the search. */
    method ChooseSwitch(req: Value)
      modifies this`sent
      ensures sent == old(sent) + ForcedReply(battleRoom, req)
    {
      var side := Get(req, "side", Object([]));
      if side.Raise? {
        return;
      }
      var pokemonList := Get(side.value, "pokemon", Array([]));
      if pokemonList.Raise? {
        return;
      }
      var mons := Iterate(pokemonList.value);
      if mons.Raise? {
        return;
      }
      var list := mons.value;
      var i := 0;
      while i < |list|
        invariant i <= |list|
        invariant forall j :: 0 <= j < i ==> CanSwitchTo(list[j]) == Ok(false)
        invariant sent == old(sent)
      {
        var eligible := CanSwitchTo(list[i]);
        if eligible.Raise? {
          SwitchTargetRaises(list, i, eligible.error);
          return;
        }
        if eligible.value {
          SwitchTargetSome(list, i);
          sent := sent + [SwitchCommand(battleRoom, i + 1)];
          return;
        }
        i := i + 1;
      }
      SwitchTargetNone(list);
    }

    /** Decides the turn for a `|request|` line and sends at most one choice;
        every exception on the way is caught and sends nothing. */
    method HandleBattleRequest(line: string, loads: string -> Option<Value>)
      modifies this`sent
      ensures |sent| >= |old(sent)| && sent[..|old(sent)|] == old(sent)
      ensures RequestReply(battleRoom, line, loads, sent[|old(sent)|..])
    {
      var parts := Split(line, "|request|");
      if |parts| < 2 {
        assert RequestOf(line, loads) == Raise(IndexError);
        return;  // IndexError, caught
      }
      var decoded := loads(parts[1]);
      if decoded.None? {
        assert RequestOf(line, loads) == Raise(ValueError);
        return;  // decode error, caught
      }
      var req := decoded.value;
      assert RequestOf(line, loads) == Ok(req);
      var decision := Decide(req);
      match decision
      case Raise(_) =>
        assert sent[|old(sent)|..] == [];
      case Ok(ForceSwitch) =>
        ChooseSwitch(req);
        assert sent[|old(sent)|..] == ForcedReply(battleRoom, req);
      case Ok(NoActive) =>
        assert sent[|old(sent)|..] == [];
      case Ok(SwitchToSecond) =>
        sent := sent + [SwitchCommand(battleRoom, SecondSlot)];
        assert sent[|old(sent)|..] == [SwitchCommand(battleRoom, SecondSlot)];
      case Ok(PickMove(moves, legal)) =>
        assert legal != [] && legal[0] in legal;
        var k :| k in legal;
        LegalInRange(moves, legal, k);
        var moveName := Subscript(moves[k], "move");
        if moveName.Ok? {
          sent := sent + [MoveCommand(battleRoom, k + 1)];
        }
        assert sent[|old(sent)|..] == MoveReply(battleRoom, moves, k);
        DrawnMoveReplies(battleRoom, req, moves, legal, k);
      case Ok(NoLegalMove) =>
        assert sent[|old(sent)|..] == [];
    }

    /** The direct challenge sent when no battle has started, for the first
        of the two local bots only. */
    method FallbackBattle()
      modifies this`sent
      ensures sent == old(sent) +
        (if !battleStarted && username == FallbackUser then [FallbackChallenge] else [])
    {
      if !battleStarted && username == FallbackUser {
        sent := sent + [FallbackChallenge];
      }
    }

    /** Handles one frame: every line, left to right, through the branch
        `Classify` names. */
    method HandleMessage(msg: string, loads: string -> Option<Value>)
      modifies this`loggedIn, this`battleRoom, this`battleStarted, this`sent
      ensures State() == Run(old(State()), Lines(msg), msg, username)
      ensures |sent| >= |old(sent)| && sent[..|old(sent)|] == old(sent)
      ensures Emits(old(State()), Lines(msg), msg, username, loads, sent[|old(sent)|..])
    {
      var lines := Split(msg, "\n");
      ghost var s0 := State();
      ghost var sent0 := sent;
      ghost var done: seq<string> := [];
      ghost var out: seq<string> := [];
      var i := 0;
      while i < |lines|
        invariant i <= |lines| && done == lines[..i]
        invariant State() == Run(s0, done, msg, username)
        invariant sent == sent0 + out
        invariant Emits(s0, done, msg, username, loads, out)
      {
        ghost var before := State();
        ghost var more := HandleLine(lines[i], msg, loads);
        LineStep(s0, done, lines[i], msg, username, loads, out, more, before, State());
        ConcatAssoc(sent0, out, more);
        PrefixSnoc(lines, i);
        done := done + [lines[i]];
        out := out + more;
        i := i + 1;
      }
      assert done == lines;
      assert sent[|sent0|..] == out;
    }

    /** One line of a frame through the `if/elif` chain: the first six tests
        look at the line, the last three at the whole frame `msg`. `more` is
        what the line sends. */
    method HandleLine(line: string, msg: string, loads: string -> Option<Value>) returns (ghost more: seq<string>)
      modifies this`loggedIn, this`battleRoom, this`battleStarted, this`sent
      ensures State() == Next(old(State()), line, msg, username)
      ensures sent == old(sent) + more
      ensures LineOutput(old(State()), line, msg, username, loads, more)
    {
      ghost var branch := Classify(line, msg, username, battleStarted);
      more := [];
      if StartsWith(line, "|challstr|") {
        assert branch == ChallstrLine;
        HandleChallstr(line);
        more := ChallstrReply(username, line);
      } else if Contains(line, "|updateuser|") && Contains(line, username) {
        assert branch == LoginLine;
        loggedIn := true;
      } else if Contains(line, "|updatesearch|") {
        assert branch == SearchLine;
      } else if StartsWith(line, ">battle-") {
        assert branch == RoomLine;
        JoinRooms(msg);
      } else if Contains(line, "|request|") {
        assert branch == RequestLine;
        ghost var sentBefore := sent;
        HandleBattleRequest(line, loads);
        more := sent[|sentBefore|..];
        assert sent == sentBefore + more;
      } else if Contains(line, "|win|") {
        assert branch == WinLine;
        SplitWith(line, "|win|");
        var winner := Strip(Split(line, "|win|")[1]);
      } else {
        more := HandleFrameTests(line, msg, loads);
      }
    }

    /** The last three tests of the chain, which look at the whole frame
        `msg`; reached only when none of the line tests matched. */
    method HandleFrameTests(line: string, msg: string, loads: string -> Option<Value>) returns (ghost more: seq<string>)
      requires !StartsWith(line, "|challstr|")
      requires !(Contains(line, "|updateuser|") && Contains(line, username))
      requires !Contains(line, "|updatesearch|") && !StartsWith(line, ">battle-")
      requires !Contains(line, "|request|") && !Contains(line, "|win|")
      modifies this`battleRoom, this`battleStarted, this`sent
      ensures State() == Next(old(State()), line, msg, username)
      ensures sent == old(sent) + more
      ensures LineOutput(old(State()), line, msg, username, loads, more)
    {
      ghost var branch := Classify(line, msg, username, battleStarted);
      more := [];
      if Contains(msg, "|turn|") {
        assert branch == TurnFrame;
      } else if StartsWith(msg, ">battle-") && !battleStarted {
        assert branch == LegacyRoom;
        battleStarted := true;
        battleRoom := EllipsisRoom;
      } else if Contains(msg, "|pm|") && Contains(msg, "/challenge") {
        assert branch == PmChallenge;
        SplitWith(msg, "|pm|");
        var parts := Split(Split(msg, "|pm|")[1], "|");
        var challenger := Strip(parts[0]);
        assert Challenger(msg) == Some(challenger);
        sent := sent + [Accept(challenger)];
        more := [Accept(challenger)];
      } else {
        assert branch == Unmatched;
      }
    }

    /** The room scan of a `>battle-` line: every line of the frame is
        looked at, and only the first room seen while none is stored is kept. */
    method JoinRooms(msg: string)
      modifies this`battleRoom, this`battleStarted
      ensures State() == Scan(old(State()), Lines(msg))
    {
      var ls := Split(msg, "\n");
      var j := 0;
      while j < |ls|
        invariant j <= |ls|
        invariant State() == Scan(old(State()), ls[..j])
      {
        ghost var before := State();
        var l := ls[j];
        if StartsWith(l, ">battle-") {
          var roomId := RoomId(l);
          if RoomFalsy(battleRoom) {
            battleRoom := Named(roomId);
            battleStarted := true;
          }
        }
        assert State() == ScanStep(before, l);
        ScanPrefix(old(State()), ls, j);
        j := j + 1;
      }
      assert ls[..j] == ls;
    }
  }
}
