/** The per-frame dispatcher `ShowdownBot.handle_message` as a specification:
    which branch of its `if/elif` chain a line takes, how each branch changes
    the bot's three state fields, and which messages a frame may send. */
module Dispatch {
  import opened Text
  import opened Json
  import opened Commands
  import opened Decision

  /** The branches of the chain, in the order they are tested. */
  datatype Branch =
    | ChallstrLine  // the line starts with `|challstr|`
    | LoginLine     // the line holds `|updateuser|` and the username
    | SearchLine    // the line holds `|updatesearch|`
    | RoomLine      // the line starts with `>battle-`: scan the frame for a room
    | RequestLine   // the line holds `|request|`
    | WinLine       // the line holds `|win|`
    | TurnFrame     // the frame holds `|turn|`
    | LegacyRoom    // the frame starts with `>battle-` and no battle has started
    | PmChallenge   // the frame holds `|pm|` and `/challenge`
    | Unmatched

  /** The fields `handle_message` reads and writes. */
  datatype Status = Status(loggedIn: bool, room: Room, started: bool)

  /** The fields as `__init__` leaves them. */
  const Initial: Status := Status(false, NoRoom, false)

  /** `msg.split("\n")` */
  function Lines(msg: string): seq<string> {
    Split(msg, "\n")
  }

  /** The login test: a line that holds `|updateuser|` and the username as
      case-sensitive substrings and is not a challenge string. */
  predicate IsLoginLine(line: string, username: string) {
    !StartsWith(line, "|challstr|") && Contains(line, "|updateuser|") && Contains(line, username)
  }

  /** The branch a line of frame `msg` takes. The first six tests look at the
      line; the `|turn|`, legacy-room and `|pm|` tests look at the whole frame. */
  function Classify(line: string, msg: string, username: string, started: bool): Branch {
    if StartsWith(line, "|challstr|") then ChallstrLine
    else if Contains(line, "|updateuser|") && Contains(line, username) then LoginLine
    else if Contains(line, "|updatesearch|") then SearchLine
    else if StartsWith(line, ">battle-") then RoomLine
    else if Contains(line, "|request|") then RequestLine
    else if Contains(line, "|win|") then WinLine
    else if Contains(msg, "|turn|") then TurnFrame
    else if StartsWith(msg, ">battle-") && !started then LegacyRoom
    else if Contains(msg, "|pm|") && Contains(msg, "/challenge") then PmChallenge
    else Unmatched
  }

  /** The pieces of `l.split(">")` that the room scan reads: there is a
      second one, and it starts with `battle-`. */
  lemma RoomPieces(l: string)
    requires StartsWith(l, ">battle-")
    ensures |Split(l, ">")| >= 2 && StartsWith(Split(l, ">")[1], "battle-")
  {
    assert l[..1] == ">";
    SplitLeading(l, ">");
    var rest := l[1..];
    assert rest[..7] == l[1..8] == "battle-";
    SplitKeepsPrefix(rest, "battle-", '>');
  }

  /** `l.split(">")[1].strip()` for a line that starts with `>battle-`; never
      empty, so a room once stored is truthy. */
  function RoomId(l: string): (id: string)
    requires StartsWith(l, ">battle-")
    ensures StartsWith(id, "battle-")
  {
    RoomPieces(l);
    var piece := Split(l, ">")[1];
    StripKeepsPrefix(piece, "battle-");
    Strip(piece)
  }

  /** A stored room id is truthy. */
  lemma RoomIdNonEmpty(l: string)
    requires StartsWith(l, ">battle-")
    ensures !RoomFalsy(Named(RoomId(l)))
  {
    var id := RoomId(l);
    assert |id| >= |"battle-"| > 0;
  }

  /** One step of the room scan: only a `>battle-` line seen while no room
      is stored sets the room and starts the battle. */
  function ScanStep(s: Status, l: string): Status {
    if StartsWith(l, ">battle-") && RoomFalsy(s.room) then
      s.(room := Named(RoomId(l)), started := true)
    else s
  }

  /** The room scan over `ls`, from the left. */
  function Scan(s: Status, ls: seq<string>): Status
    decreases |ls|
  {
    if ls == [] then s else ScanStep(Scan(s, ls[..|ls| - 1]), ls[|ls| - 1])
  }

  /** The scan of a prefix grows by one line. */
  lemma ScanPrefix(s: Status, ls: seq<string>, j: nat)
    requires j < |ls|
    ensures Scan(s, ls[..j + 1]) == ScanStep(Scan(s, ls[..j]), ls[j])
  {
    assert ls[..j + 1][..j] == ls[..j];
  }

  /** The fields after one line of frame `msg`. */
  function Next(s: Status, line: string, msg: string, username: string): Status {
    match Classify(line, msg, username, s.started)
    case LoginLine => s.(loggedIn := true)
    case RoomLine => Scan(s, Lines(msg))
    case LegacyRoom => s.(room := EllipsisRoom, started := true)
    case _ => s
  }

  /** The fields after the lines `lines` of frame `msg`, left to right. */
  function Run(s: Status, lines: seq<string>, msg: string, username: string): Status
    decreases |lines|
  {
    if lines == [] then s
    else Next(Run(s, lines[..|lines| - 1], msg, username), lines[|lines| - 1], msg, username)
  }

  /** The fields agree: a battle has started exactly when a room is stored. */
  predicate Consistent(s: Status) {
    s.started <==> !RoomFalsy(s.room)
  }

  /** `line.strip().split("|challstr|")[1].split("|")`; `None` where the
      `[1]` raises. */
  function ChallstrParts(line: string): Option<seq<string>> {
    var outer := Split(Strip(line), "|challstr|");
    if |outer| < 2 then None else Some(Split(outer[1], "|"))
  }

  /** What `handle_challstr` sends: the guest claim when the unpacking into
      id and token succeeds, otherwise nothing. */
  function ChallstrReply(username: string, line: string): (r: seq<string>)
    ensures r == [] || r == [Trn(username)]
    ensures r != [] ==> Contains(Strip(line), "|challstr|")
  {
    SplitHasSecond(Strip(line), "|challstr|");
    match ChallstrParts(line)
    case Some(parts) => if |parts| == 2 then [Trn(username)] else []
    case None => []
  }

  /** The challenger named in a `|pm|` frame: `msg.split("|pm|")[1].split("|")[0].strip()`. */
  function Challenger(msg: string): (r: Option<string>)
    ensures r.Some? <==> Contains(msg, "|pm|")
  {
    SplitHasSecond(msg, "|pm|");
    var outer := Split(msg, "|pm|");
    if |outer| < 2 then None else Some(Strip(Split(outer[1], "|")[0]))
  }

  /** What the `|pm|` branch sends. */
  function AcceptReply(msg: string): (r: seq<string>)
    ensures |r| <= 1
    ensures r != [] <==> Contains(msg, "|pm|")
  {
    match Challenger(msg)
    case Some(c) => [Accept(c)]
    case None => []
  }

  /** `out` is a possible list of messages sent for one line, from fields `s`. */
  predicate LineOutput(s: Status, line: string, msg: string, username: string,
                       loads: string -> Option<Value>, out: seq<string>) {
    match Classify(line, msg, username, s.started)
    case ChallstrLine => out == ChallstrReply(username, line)
    case RequestLine => RequestReply(s.room, line, loads, out)
    case PmChallenge => out == AcceptReply(msg)
    case _ => out == []
  }

  /** `out` is a possible list of messages sent for the lines `lines` of
      frame `msg`, starting from fields `s`. */
  ghost predicate Emits(s: Status, lines: seq<string>, msg: string, username: string,
                        loads: string -> Option<Value>, out: seq<string>)
    decreases |lines|
  {
    if lines == [] then out == []
    else
      var init := lines[..|lines| - 1];
      exists k :: 0 <= k <= |out| &&
        Emits(s, init, msg, username, loads, out[..k]) &&
        LineOutput(Run(s, init, msg, username), lines[|lines| - 1], msg, username, loads, out[k..])
  }

  // ---------------------------------------------------------------------
  // Properties
  // ---------------------------------------------------------------------

  /** The room scan never changes the login flag. */
  lemma {:induction false} ScanKeepsLogin(s: Status, ls: seq<string>)
    ensures Scan(s, ls).loggedIn == s.loggedIn
    decreases |ls|
  {
    if ls != [] {
      ScanKeepsLogin(s, ls[..|ls| - 1]);
    }
  }

  /** A scan without a `>battle-` line changes nothing. */
  lemma {:induction false} ScanNoBattle(s: Status, ls: seq<string>)
    requires forall j :: 0 <= j < |ls| ==> !StartsWith(ls[j], ">battle-")
    ensures Scan(s, ls) == s
    decreases |ls|
  {
    if ls != [] {
      ScanNoBattle(s, ls[..|ls| - 1]);
    }
  }

  /** A stored room survives the scan, and so does the started flag. */
  lemma {:induction false} ScanKeepsRoom(s: Status, ls: seq<string>)
    requires !RoomFalsy(s.room)
    ensures Scan(s, ls) == s
    decreases |ls|
  {
    if ls != [] {
      ScanKeepsRoom(s, ls[..|ls| - 1]);
    }
  }

  /** With no room stored, the scan stores the room of the first `>battle-`
      line and starts the battle; later `>battle-` lines are ignored. */
  lemma {:induction false} ScanFirstRoom(s: Status, ls: seq<string>, i: nat)
    requires RoomFalsy(s.room)
    requires i < |ls| && StartsWith(ls[i], ">battle-")
    requires forall j :: 0 <= j < i ==> !StartsWith(ls[j], ">battle-")
    ensures Scan(s, ls) == s.(room := Named(RoomId(ls[i])), started := true)
    decreases |ls|
  {
    var n := |ls| - 1;
    var init := ls[..n];
    assert Scan(s, ls) == ScanStep(Scan(s, init), ls[n]);
    if i < n {
      assert init[i] == ls[i];
      forall j | 0 <= j < i ensures !StartsWith(init[j], ">battle-") {
        assert init[j] == ls[j];
      }
      ScanFirstRoom(s, init, i);
      RoomIdNonEmpty(ls[i]);
      ScanStepKeepsRoom(Scan(s, init), ls[n]);
    } else {
      forall j | 0 <= j < n ensures !StartsWith(init[j], ">battle-") {
        assert init[j] == ls[j];
      }
      ScanNoBattle(s, init);
    }
  }

  lemma ScanStepKeepsRoom(s: Status, l: string)
    requires !RoomFalsy(s.room)
    ensures ScanStep(s, l) == s
  {
  }

  /** Each line keeps the two room fields consistent. */
  lemma NextConsistent(s: Status, line: string, msg: string, username: string)
    requires Consistent(s)
    ensures Consistent(Next(s, line, msg, username))
  {
    if Classify(line, msg, username, s.started) == RoomLine {
      ScanConsistent(s, Lines(msg));
    }
  }

  lemma {:induction false} ScanConsistent(s: Status, ls: seq<string>)
    requires Consistent(s)
    ensures Consistent(Scan(s, ls))
    decreases |ls|
  {
    if ls != [] {
      ScanConsistent(s, ls[..|ls| - 1]);
    }
  }

  /** A frame keeps the two room fields consistent. */
  lemma {:induction false} RunConsistent(s: Status, lines: seq<string>, msg: string, username: string)
    requires Consistent(s)
    ensures Consistent(Run(s, lines, msg, username))
    decreases |lines|
  {
    if lines != [] {
      RunConsistent(s, lines[..|lines| - 1], msg, username);
      NextConsistent(Run(s, lines[..|lines| - 1], msg, username), lines[|lines| - 1], msg, username);
    }
  }

  /** One line sets the login flag exactly when it is a login line. */
  lemma NextLogin(s: Status, line: string, msg: string, username: string)
    ensures Next(s, line, msg, username).loggedIn == (s.loggedIn || IsLoginLine(line, username))
  {
    if Classify(line, msg, username, s.started) == RoomLine {
      ScanKeepsLogin(s, Lines(msg));
    }
  }

  lemma RunLoginStep(s: Status, lines: seq<string>, msg: string, username: string)
    requires lines != []
    ensures Run(s, lines, msg, username).loggedIn ==
      (Run(s, lines[..|lines| - 1], msg, username).loggedIn || IsLoginLine(lines[|lines| - 1], username))
  {
    NextLogin(Run(s, lines[..|lines| - 1], msg, username), lines[|lines| - 1], msg, username);
  }

  /** After a frame the bot is logged in exactly when it was before or some
      line of the frame is a login line; the flag is never reset. */
  lemma {:induction false} LoggedInIff(s: Status, lines: seq<string>, msg: string, username: string)
    ensures Run(s, lines, msg, username).loggedIn <==> s.loggedIn || SomeLogin(lines, username)
    decreases |lines|
  {
    if lines != [] {
      LoggedInIff(s, lines[..|lines| - 1], msg, username);
      RunLoginStep(s, lines, msg, username);
      SomeLoginSnoc(lines, username);
    }
  }

  /** Some line of `lines` is a login line. */
  predicate SomeLogin(lines: seq<string>, username: string) {
    exists i :: 0 <= i < |lines| && IsLoginLine(lines[i], username)
  }

  lemma SomeLoginSnoc(lines: seq<string>, username: string)
    requires lines != []
    ensures SomeLogin(lines, username) <==>
      SomeLogin(lines[..|lines| - 1], username) || IsLoginLine(lines[|lines| - 1], username)
  {
    var init := lines[..|lines| - 1];
    var last := |lines| - 1;
    forall i | 0 <= i < |init| ensures init[i] == lines[i] {
    }
    if SomeLogin(lines, username) && !IsLoginLine(lines[last], username) {
      var i :| 0 <= i < |lines| && IsLoginLine(lines[i], username);
      assert i != last;
      assert IsLoginLine(init[i], username);
    }
  }

  /** Once a room is stored and the fields agree, no later line changes the
      room or the started flag: the first room wins. */
  lemma {:induction false} FirstRoomWins(s: Status, lines: seq<string>, msg: string, username: string)
    requires Consistent(s) && !RoomFalsy(s.room)
    ensures Run(s, lines, msg, username).room == s.room
    ensures Run(s, lines, msg, username).started
    decreases |lines|
  {
    if lines != [] {
      var before := Run(s, lines[..|lines| - 1], msg, username);
      FirstRoomWins(s, lines[..|lines| - 1], msg, username);
      ScanKeepsRoom(before, Lines(msg));
    }
  }

  /** The room id of a line `>` followed by an id that starts with `battle-`,
      holds no `>` and does not end in whitespace, is that id. */
  lemma RoomIdOf(id: string)
    requires StartsWith(id, "battle-") && '>' !in id && !IsSpace(id[|id| - 1])
    ensures RoomId(">" + id) == id
  {
    var l := ">" + id;
    assert l[..1] == ">";
    SplitLeading(l, ">");
    assert l[1..] == id;
    SplitNoSepChar(id, '>');
    StripUnchanged(id);
  }

  /** A well-formed challenge string `|challstr|<id>|<token>` (no `|` inside
      id or token, no trailing whitespace) unpacks into id and token. */
  lemma ChallstrParse(id: string, token: string)
    requires '|' !in id && '|' !in token
    requires token != [] ==> !IsSpace(token[|token| - 1])
    ensures ChallstrParts("|challstr|" + id + "|" + token) == Some([id, token])
  {
    var rest := id + "|" + token;
    var line := "|challstr|" + rest;
    assert line == "|challstr|" + id + "|" + token;
    assert line[|line| - 1] == rest[|rest| - 1];
    StripUnchanged(line);
    assert line[..10] == "|challstr|" && line[10..] == rest;
    SplitLeading(line, "|challstr|");
    NoMarkerIn(id, token);
    var outer := Split(line, "|challstr|");
    assert |outer| >= 2 && outer[1] == rest;
    PipePieces(id, token);
  }

  /** `<id>|<token>` holds no `|challstr|` when neither holds a `|`: the
      marker needs two `|` nine places apart. */
  lemma NoMarkerIn(id: string, token: string)
    requires '|' !in id && '|' !in token
    ensures Split(id + "|" + token, "|challstr|") == [id + "|" + token]
  {
    var rest := id + "|" + token;
    forall j | 0 <= j <= |rest| ensures !OccursAt(rest, "|challstr|", j) {
      if j + 10 <= |rest| {
        assert rest[j..j + 10][0] == rest[j];
        assert rest[j..j + 10][9] == rest[j + 9];
        if j < |id| {
          assert rest[j] == id[j];
        } else if j == |id| {
          assert rest[j + 9] == token[8];
        } else {
          assert rest[j] == token[j - |id| - 1];
        }
      }
    }
  }

  /** `<id>|<token>` splits on `|` into id and token when neither holds a `|`. */
  lemma PipePieces(id: string, token: string)
    requires '|' !in id && '|' !in token
    ensures Split(id + "|" + token, "|") == [id, token]
  {
    var rest := id + "|" + token;
    assert OccursAt(rest, "|", |id|);
    forall j | 0 <= j < |id| ensures rest[j] != '|' {
      assert rest[j] == id[j];
    }
    NoOccurrenceBefore(rest, "|", |id|);
    SplitAt(rest, "|", |id|);
    assert rest[..|id|] == id;
    assert rest[|id| + 1..] == token;
    SplitNoSepChar(token, '|');
  }

  /** So a well-formed challenge string is answered with the guest claim. */
  lemma ChallstrAnswered(username: string, id: string, token: string)
    requires '|' !in id && '|' !in token
    requires token != [] ==> !IsSpace(token[|token| - 1])
    ensures ChallstrReply(username, "|challstr|" + id + "|" + token) == [Trn(username)]
  {
    ChallstrParse(id, token);
  }

  /** The text after the first `|pm|` of `<pre>|pm|<after>`, up to the next
      `|pm|`, when `pre` holds no `|`. */
  lemma PmPiece(pre: string, after: string)
    requires '|' !in pre
    ensures |Split(pre + "|pm|" + after, "|pm|")| >= 2
    ensures Split(pre + "|pm|" + after, "|pm|")[1] == Split(after, "|pm|")[0]
  {
    var msg := pre + "|pm|" + after;
    assert OccursAt(msg, "|pm|", |pre|);
    forall j | 0 <= j < |pre| ensures msg[j] != '|' {
      assert msg[j] == pre[j];
    }
    NoOccurrenceBefore(msg, "|pm|", |pre|);
    SplitAt(msg, "|pm|", |pre|);
    assert msg[|pre| + 4..] == after;
  }

  /** The first `|`-separated piece of the first `|pm|`-separated piece of
      `<sender>|<rest>` is `sender` when `sender` holds no `|`. */
  lemma SenderPiece(sender: string, rest: string)
    requires '|' !in sender
    ensures Split(Split(sender + "|" + rest, "|pm|")[0], "|")[0] == sender
  {
    var after := sender + "|" + rest;
    var piece := Split(after, "|pm|")[0];
    SplitFirst(after, "|pm|");
    forall j | 0 <= j < |sender| ensures after[j] != '|' {
      assert after[j] == sender[j];
    }
    NoOccurrenceBefore(after, "|pm|", |sender|);
    assert |piece| >= |sender|;
    assert piece[..|sender|] == after[..|sender|] == sender;
    if |piece| == |sender| {
      SplitNoSepChar(sender, '|');
    } else {
      assert piece[|sender|] == after[|sender|] == '|';
      assert piece == sender + piece[|sender|..];
      SplitFirstPiece(sender, piece[|sender|..], '|');
    }
  }

  /** A frame `<pre>|pm|<sender>|<rest>`, with no `|` in `pre` or `sender`,
      is answered by accepting `sender` stripped of surrounding whitespace
      (Showdown puts a rank character, a space for a regular user, before
      the name). */
  lemma AcceptsSender(pre: string, sender: string, rest: string)
    requires '|' !in pre && '|' !in sender
    ensures AcceptReply(pre + "|pm|" + sender + "|" + rest) == [Accept(Strip(sender))]
  {
    var msg := pre + "|pm|" + sender + "|" + rest;
    var after := sender + "|" + rest;
    assert msg == pre + "|pm|" + after;
    PmPiece(pre, after);
    SenderPiece(sender, rest);
  }

  /** The accept is sent for every `|pm|` frame, as one message. */
  lemma AcceptOne(msg: string)
    requires Contains(msg, "|pm|")
    ensures |AcceptReply(msg)| == 1
  {
    SplitWith(msg, "|pm|");
  }

  /** In a frame that holds `|turn|` the legacy-room and `|pm|` branches are
      never taken: every line not caught by a line test lands in the turn branch. */
  lemma TurnShadowsFrameTests(line: string, msg: string, username: string, started: bool)
    requires Contains(msg, "|turn|")
    ensures Classify(line, msg, username, started) !in {LegacyRoom, PmChallenge, Unmatched}
  {
  }

  /** Extending a frame by one line applies that line to the fields. */
  lemma RunAppend(s: Status, init: seq<string>, line: string, msg: string, username: string)
    ensures Run(s, init + [line], msg, username) == Next(Run(s, init, msg, username), line, msg, username)
  {
    assert (init + [line])[..|init|] == init;
  }

  /** Extending a frame by one line extends its output by what that line sends. */
  lemma EmitsAppend(s: Status, init: seq<string>, line: string, msg: string, username: string,
                    loads: string -> Option<Value>, out: seq<string>, more: seq<string>)
    requires Emits(s, init, msg, username, loads, out)
    requires LineOutput(Run(s, init, msg, username), line, msg, username, loads, more)
    ensures Emits(s, init + [line], msg, username, loads, out + more)
  {
    var lines := init + [line];
    assert lines[..|lines| - 1] == init && lines[|lines| - 1] == line;
    var k := |out|;
    assert (out + more)[..k] == out && (out + more)[k..] == more;
  }

  /** One more line of a frame: the fields it leaves and what it sends extend
      the run and the output of the lines before it. */
  lemma LineStep(s: Status, init: seq<string>, line: string, msg: string, username: string,
                 loads: string -> Option<Value>, out: seq<string>, more: seq<string>,
                 before: Status, after: Status)
    requires before == Run(s, init, msg, username) && Emits(s, init, msg, username, loads, out)
    requires after == Next(before, line, msg, username)
    requires LineOutput(before, line, msg, username, loads, more)
    ensures after == Run(s, init + [line], msg, username)
    ensures Emits(s, init + [line], msg, username, loads, out + more)
  {
    RunAppend(s, init, line, msg, username);
    EmitsAppend(s, init, line, msg, username, loads, out, more);
  }

  /** Every line sends at most one message. */
  lemma LineOutputAtMostOne(s: Status, line: string, msg: string, username: string,
                            loads: string -> Option<Value>, out: seq<string>)
    requires LineOutput(s, line, msg, username, loads, out)
    ensures |out| <= 1
  {
    if Classify(line, msg, username, s.started) == RequestLine && RequestOf(line, loads).Ok? {
      ReplyShape(s.room, RequestOf(line, loads).value, out);
    }
  }

  /** A frame sends at most one message per line. */
  lemma {:induction false} EmitsBound(s: Status, lines: seq<string>, msg: string, username: string,
                                      loads: string -> Option<Value>, out: seq<string>)
    requires Emits(s, lines, msg, username, loads, out)
    ensures |out| <= |lines|
    decreases |lines|
  {
    if lines != [] {
      var init := lines[..|lines| - 1];
      var k :| 0 <= k <= |out| &&
        Emits(s, init, msg, username, loads, out[..k]) &&
        LineOutput(Run(s, init, msg, username), lines[|lines| - 1], msg, username, loads, out[k..]);
      EmitsBound(s, init, msg, username, loads, out[..k]);
      LineOutputAtMostOne(Run(s, init, msg, username), lines[|lines| - 1], msg, username, loads, out[k..]);
    }
  }

  /** A room header that also carries `|updatesearch|`. */
  const LegacyFirst: string := ">battle-" + "x" + "|updatesearch|"

  /** The frame `LegacyFirst` followed by the line `foo`. */
  const LegacyFrame: string := LegacyFirst + "\n" + "foo"

  lemma LegacyFrameLines()
    ensures Lines(LegacyFrame) == [LegacyFirst, "foo"]
  {
    SplitAround(LegacyFirst, '\n', "foo");
  }

  /** The first line of the frame takes the search branch, for every user name. */
  lemma LegacyFirstLine(username: string, started: bool)
    ensures Classify(LegacyFirst, LegacyFrame, username, started) == SearchLine
  {
    LegacyFirstNoLogin();
    assert LegacyFirst[..10][0] == '>';
    OccursBetween(">battle-" + "x", "|updatesearch|", "");
    assert ">battle-" + "x" + "|updatesearch|" + "" == LegacyFirst;
    ContainsIff(LegacyFirst, "|updatesearch|");
  }

  /** The only `|` of `LegacyFirst` that could start `|updateuser|` is the
      one after `x`, and `|updates` is not `|updateu`. */
  lemma LegacyFirstNoLogin()
    ensures !Contains(LegacyFirst, "|updateuser|")
  {
    var s := LegacyFirst;
    var sub := "|updateuser|";
    var a, c := ">battle-" + "x", "updatesearch";
    assert s == a + "|" + c + "|";
    assert '|' !in a && '|' !in c;
    forall j | 0 <= j ensures !OccursAt(s, sub, j) {
      if j + |sub| <= |s| {
        if j < |a| {
          assert s[j..j + |sub|][0] == a[j];
        } else if j == |a| {
          assert s[j..j + |sub|][7] == c[6] == 's';
        } else {
          assert s[j..j + |sub|][0] == c[j - |a| - 1];
        }
      }
    }
    ContainsIff(s, sub);
  }

  /** `foo` holds none of the markers the line tests look for, and the frame
      holds no `|turn|` and starts with `>battle-`. */
  lemma LegacySecondLine()
    ensures !StartsWith("foo", "|challstr|") && !Contains("foo", "|updateuser|")
    ensures !Contains("foo", "|updatesearch|") && !StartsWith("foo", ">battle-")
    ensures !Contains("foo", "|request|") && !Contains("foo", "|win|")
    ensures !Contains(LegacyFrame, "|turn|")
    ensures StartsWith(LegacyFrame, ">battle-")
  {
    CharAbsent("foo", "|updateuser|", 0);
    CharAbsent("foo", "|updatesearch|", 0);
    CharAbsent("foo", "|request|", 0);
    CharAbsent("foo", "|win|", 0);
    CharAbsent(LegacyFrame, "|turn|", 4);
    StartsWithAppend(">battle-", ">battle-", "x");
    StartsWithAppend(">battle-" + "x", ">battle-", "|updatesearch|");
    StartsWithAppend(LegacyFirst, ">battle-", "\n");
    StartsWithAppend(LegacyFirst + "\n", ">battle-", "foo");
  }

  /** The legacy branch is reachable: the first line of `LegacyFrame` takes
      the search branch, so no room is stored, and the second line stores
      `...` as the room and starts the battle. */
  lemma LegacyRoomReachable(username: string)
    ensures Run(Initial, Lines(LegacyFrame), LegacyFrame, username) == Status(false, EllipsisRoom, true)
  {
    var lines := [LegacyFirst, "foo"];
    LegacyFrameLines();
    LegacyFirstLine(username, false);
    LegacySecondLine();
    assert lines[..1] == [lines[0]] && lines[..1][..0] == [];
    assert Run(Initial, lines[..1], LegacyFrame, username) == Initial;
    assert Classify("foo", LegacyFrame, username, false) == LegacyRoom;
  }
}
