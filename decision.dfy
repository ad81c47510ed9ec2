/** The per-turn decision of `ShowdownBot.handle_battle_request` and the
    replacement search of `choose_switch`, as functions of the decoded
    request. A `Raise` result is an exception that `handle_battle_request`
    catches, so that turn sends nothing. */
module Decision {
  import opened Text
  import opened Json
  import opened Commands

  /** The HP at or below which the bot leaves the field. */
  const SwitchHp: int := 20

  /** The roster slot the HP-triggered switch always names. */
  const SecondSlot: nat := 2

  // ---------------------------------------------------------------------
  // Reading the request
  // ---------------------------------------------------------------------

  /** `request_json.get("side", {}).get("pokemon", [{}])[0]`: roster entry 0,
      which the bot reads both for the name it logs and for the HP. */
  function FirstMon(req: Value): Result<Value> {
    var side :- Get(req, "side", Object([]));
    var mons :- Get(side, "pokemon", Array([Object([])]));
    Index0(mons)
  }

  /** The species name logged with each choice: the text before the first
      comma of `details`. Computed before any choice, so it can abort the turn. */
  function PokemonName(req: Value): Result<string> {
    var mon :- FirstMon(req);
    var details :- Get(mon, "details", Str("???"));
    var parts :- StrSplit(details, ",");
    Ok(parts[0])
  }

  /** The HP numerator of a condition string: the text before the first `/`,
      then its last space-separated word, read with `int()`. */
  function HpOf(condition: Value): (r: Result<int>)
    ensures !condition.Str? ==> r == Raise(AttributeError)
    ensures r.Raise? ==> r.error == AttributeError || r.error == ValueError
  {
    var halves :- StrSplit(condition, "/");
    var words := Split(halves[0], " ");
    match IntOf(Last(words))
    case Some(n) => Ok(n)
    case None => Raise(ValueError)
  }

  /** The HP of roster entry 0; a missing condition reads as `"100/100"`. */
  function CurrentHp(req: Value): Result<int> {
    var mon :- FirstMon(req);
    var condition :- Get(mon, "condition", Str("100/100"));
    HpOf(condition)
  }

  /** `not m.get("disabled", False)` */
  function MoveEnabled(m: Value): Result<bool> {
    var disabled :- Get(m, "disabled", Bool(false));
    Ok(!Truthy(disabled))
  }

  /** `any(not m.get("disabled", False) for m in moves)`: stops at the first
      enabled move, so later entries are not looked at. */
  function AnyEnabled(moves: seq<Value>): (r: Result<bool>)
    ensures r == Ok(true) ==> exists i :: 0 <= i < |moves| && MoveEnabled(moves[i]) == Ok(true)
    ensures r == Ok(false) ==> forall i :: 0 <= i < |moves| ==> MoveEnabled(moves[i]) == Ok(false)
    decreases |moves|
  {
    if moves == [] then Ok(false)
    else
      var enabled :- MoveEnabled(moves[0]);
      if enabled then Ok(true) else AnyEnabled(moves[1..])
  }

  /** `[i for i, move in enumerate(moves) if not move.get("disabled", False)]`
      on the moves from position `base` on; every entry is evaluated. */
  function LegalFrom(moves: seq<Value>, base: nat): (r: Result<seq<nat>>)
    ensures r.Ok? ==> |r.value| <= |moves|
    ensures r.Ok? ==> forall k :: k in r.value ==> base <= k < base + |moves|
    decreases |moves|
  {
    if moves == [] then Ok([])
    else
      var enabled :- MoveEnabled(moves[0]);
      var rest :- LegalFrom(moves[1..], base + 1);
      Ok(if enabled then [base] + rest else rest)
  }

  function LegalMoves(moves: seq<Value>): Result<seq<nat>> {
    LegalFrom(moves, 0)
  }

  // ---------------------------------------------------------------------
  // The forced switch (choose_switch)
  // ---------------------------------------------------------------------

  /** The roster `choose_switch` walks: `request_json.get("side", {}).get("pokemon", [])`. */
  function SwitchCandidates(req: Value): Result<seq<Value>> {
    var side :- Get(req, "side", Object([]));
    var pokemon :- Get(side, "pokemon", Array([]));
    Iterate(pokemon)
  }

  /** A roster entry may be switched in when it is not active and the first
      space-separated word of its condition does not start with `"0"`; a
      missing condition reads as `""`, which qualifies. */
  function CanSwitchTo(mon: Value): (r: Result<bool>)
    ensures r == Ok(true) ==> Get(mon, "active", Bool(false)).Ok? && !Truthy(Get(mon, "active", Bool(false)).value)
    ensures Get(mon, "condition", Str("")) == Ok(Str("0 fnt")) ==> r != Ok(true)
    ensures mon.Object? && Lookup(mon.members, "active") == None && Lookup(mon.members, "condition") == None ==> r == Ok(true)
  {
    FaintedWords();
    var isActive :- Get(mon, "active", Bool(false));
    var condition :- Get(mon, "condition", Str(""));
    var words :- StrSplit(condition, " ");
    Ok(!Truthy(isActive) && !StartsWith(words[0], "0"))
  }

  /** The zero-based index of the first entry that may be switched in. */
  function SwitchTarget(mons: seq<Value>): (r: Result<Option<nat>>)
    ensures r.Ok? && r.value.Some? ==> r.value.value < |mons| && CanSwitchTo(mons[r.value.value]) == Ok(true)
    ensures r == Ok(None) ==> forall i :: 0 <= i < |mons| ==> CanSwitchTo(mons[i]) == Ok(false)
    decreases |mons|
  {
    if mons == [] then Ok(None)
    else
      var eligible :- CanSwitchTo(mons[0]);
      if eligible then Ok(Some(0))
      else
        var rest :- SwitchTarget(mons[1..]);
        Ok(match rest case None => None case Some(i) => Some(i + 1))
  }

  function ForcedTarget(req: Value): Result<Option<nat>> {
    var mons :- SwitchCandidates(req);
    SwitchTarget(mons)
  }

  /** What `choose_switch` sends: one switch to the 1-based slot found, or nothing. */
  function ForcedReply(room: Room, req: Value): seq<string> {
    match ForcedTarget(req)
    case Ok(Some(i)) => [SwitchCommand(room, i + 1)]
    case _ => []
  }

  // ---------------------------------------------------------------------
  // The turn decision (handle_battle_request)
  // ---------------------------------------------------------------------

  datatype Decision =
    | ForceSwitch                                  // delegate to choose_switch
    | NoActive                                     // no active slot: send nothing
    | SwitchToSecond                               // HP at most 20 or every move disabled
    | PickMove(moves: seq<Value>, legal: seq<nat>) // a random index from `legal`
    | NoLegalMove                                  // the `if legal_moves:` test fails

  /** Everything `handle_battle_request` does before its one random choice,
      in the order it does it. */
  function Decide(req: Value): (r: Result<Decision>)
    ensures r != Ok(NoLegalMove)
    ensures r.Ok? && r.value.PickMove? ==>
      r.value.legal != [] && LegalMoves(r.value.moves) == Ok(r.value.legal)
  {
    var force :- Get(req, "forceSwitch", Null);
    if Truthy(force) then Ok(ForceSwitch)
    else
      var active :- Get(req, "active", Null);
      if !Truthy(active) then Ok(NoActive) else DecideActive(req)
  }

  /** The turn once an active slot is known: read slot 0, the logged name,
      the move list and the HP of roster entry 0, then choose. */
  function DecideActive(req: Value): (r: Result<Decision>)
    ensures r != Ok(NoLegalMove)
    ensures r.Ok? && r.value.PickMove? ==>
      r.value.legal != [] && LegalMoves(r.value.moves) == Ok(r.value.legal)
  {
    var activeList :- Subscript(req, "active");
    var slot :- Index0(activeList);
    var _ :- PokemonName(req);
    var movesValue :- Get(slot, "moves", Array([]));
    var hp :- CurrentHp(req);
    Choose(hp, movesValue)
  }

  /** The switch trigger and the legal-move list: HP at most 20 switches
      without looking at the moves; otherwise all-disabled switches too. */
  function Choose(hp: int, movesValue: Value): (r: Result<Decision>)
    ensures r != Ok(NoLegalMove)
    ensures r.Ok? && r.value.PickMove? ==>
      r.value.legal != [] && LegalMoves(r.value.moves) == Ok(r.value.legal)
  {
    if hp <= SwitchHp then Ok(SwitchToSecond)
    else
      var moves :- Iterate(movesValue);
      var anyEnabled :- AnyEnabled(moves);
      if !anyEnabled then Ok(SwitchToSecond)
      else
        var legal :- LegalMoves(moves);
        LegalFromAgreesWithAny(moves, 0, legal);
        if legal == [] then Ok(NoLegalMove) else Ok(PickMove(moves, legal))
  }

  /** What is sent once index `k` is drawn: `moves[k]["move"]` is read
      before sending, so a move without a name aborts the turn. */
  function MoveReply(room: Room, moves: seq<Value>, k: nat): (r: seq<string>)
    requires k < |moves|
    ensures |r| <= 1
    ensures r != [] <==> Subscript(moves[k], "move").Ok?
    ensures forall c :: c in r ==> ChoiceIndex(c, MovePrefix(room)) == Some(k + 1)
  {
    MoveIndexRoundTrip(room, k + 1);
    match Subscript(moves[k], "move")
    case Ok(_) => [MoveCommand(room, k + 1)]
    case Raise(_) => []
  }

  /** `out` is a possible list of messages sent for request `req`. */
  predicate IsReply(room: Room, req: Value, out: seq<string>)
    ensures IsReply(room, req, out) ==> |out| <= 1
    ensures Decide(req).Raise? ==> (IsReply(room, req, out) <==> out == [])
  {
    match Decide(req)
    case Raise(_) => out == []
    case Ok(ForceSwitch) => out == ForcedReply(room, req)
    case Ok(NoActive) => out == []
    case Ok(SwitchToSecond) => out == [SwitchCommand(room, SecondSlot)]
    case Ok(PickMove(moves, legal)) =>
      exists k :: k in legal && k < |moves| && out == MoveReply(room, moves, k)
    case Ok(NoLegalMove) => out == []
  }

  /** The request carried by a `|request|` line: the text between the first
      and second `|request|`, decoded by `loads` (`None` is a decode error). */
  function RequestOf(line: string, loads: string -> Option<Value>): Result<Value> {
    var parts := Split(line, "|request|");
    if |parts| < 2 then Raise(IndexError)
    else
      match loads(parts[1])
      case Some(req) => Ok(req)
      case None => Raise(ValueError)
  }

  /** `out` is a possible list of messages sent for a `|request|` line. */
  predicate RequestReply(room: Room, line: string, loads: string -> Option<Value>, out: seq<string>) {
    match RequestOf(line, loads)
    case Raise(_) => out == []
    case Ok(req) => IsReply(room, req, out)
  }

  // ---------------------------------------------------------------------
  // Properties
  // ---------------------------------------------------------------------

  /** A condition `"<n>/<rest>"` reads as HP `n`, whatever follows the slash
      (`"45/100 psn"` reads as 45). */
  lemma HpOfFraction(n: nat, rest: string)
    ensures HpOf(Str(Decimal(n) + "/" + rest)) == Ok(n)
  {
    var d := Decimal(n);
    var c := d + "/" + rest;
    var halves := Split(c, "/");
    assert halves[0] == d by {
      DecimalHasNo(n, '/');
      assert c == d + ("/" + rest);
      SplitFirstPiece(d, "/" + rest, '/');
    }
    var words := Split(d, " ");
    assert words == [d] by {
      DecimalHasNo(n, ' ');
      SplitNoSepChar(d, ' ');
    }
    assert IntOf(d) == Some(n) by {
      DecimalRoundTrip(n);
    }
  }

  /** A missing condition defaults to `"100/100"`, that is full HP 100. */
  lemma DefaultConditionIsFull()
    ensures HpOf(Str("100/100")) == Ok(100)
  {
    assert Decimal(10) == "10";
    assert Decimal(100) == "100";
    assert Decimal(100) + "/" + "100" == "100/100";
    HpOfFraction(100, "100");
  }

  /** The condition of a fainted entry, `"0 fnt"`, has no slash, so its last
      word `"fnt"` is read with `int()` and raises. */
  lemma FaintedConditionRaises()
    ensures HpOf(Str("0 fnt")) == Raise(ValueError)
  {
    var s := "0 fnt";
    SplitNoSepChar(s, '/');
    assert StrSplit(Str(s), "/") == Ok([s]);
    FaintedWords();
    FntIsNotInt();
  }

  /** A roster entry 0 without a condition reads as full HP 100. */
  lemma MissingConditionIsFull(req: Value, mon: seq<(string, Value)>)
    requires FirstMon(req) == Ok(Object(mon)) && Lookup(mon, "condition") == None
    ensures CurrentHp(req) == Ok(100)
  {
    DefaultConditionIsFull();
  }

  /** When the HP of roster entry 0 cannot be read, the exception is caught
      and that turn sends nothing, whatever the moves are. */
  lemma UnparsableHpSendsNothing(room: Room, req: Value, force: Value, active: Value, out: seq<string>)
    requires Get(req, "forceSwitch", Null) == Ok(force) && !Truthy(force)
    requires Get(req, "active", Null) == Ok(active) && Truthy(active)
    requires CurrentHp(req).Raise?
    ensures IsReply(room, req, out) <==> out == []
  {
  }

  /** A turn whose roster entry 0 has fainted (condition `"0 fnt"`) sends
      nothing unless a switch is forced. */
  lemma FaintedTurnSendsNothing(room: Room, req: Value, force: Value, active: Value,
                                mon: seq<(string, Value)>, out: seq<string>)
    requires Get(req, "forceSwitch", Null) == Ok(force) && !Truthy(force)
    requires Get(req, "active", Null) == Ok(active) && Truthy(active)
    requires FirstMon(req) == Ok(Object(mon)) && Lookup(mon, "condition") == Some(Str("0 fnt"))
    ensures IsReply(room, req, out) <==> out == []
  {
    FaintedConditionRaises();
    UnparsableHpSendsNothing(room, req, force, active, out);
  }

  /** `"0 fnt".split(" ")` is `["0", "fnt"]`. */
  lemma FaintedWords()
    ensures Split("0 fnt", " ") == ["0", "fnt"]
  {
    assert "0 fnt" == "0" + [' '] + "fnt";
    SplitAround("0", ' ', "fnt");
  }

  /** `int("fnt")` raises. */
  lemma FntIsNotInt()
    ensures IntOf("fnt") == None
  {
    var t := "fnt";
    assert t[0] == 'f' && t[|t| - 1] == 't';
    NotAnInt(t);
  }

  /** The forced-switch target is the lowest index whose entry qualifies,
      with every earlier entry evaluated and found not to qualify. */
  lemma {:induction false} SwitchTargetSome(mons: seq<Value>, i: nat)
    ensures SwitchTarget(mons) == Ok(Some(i)) <==>
      i < |mons| && CanSwitchTo(mons[i]) == Ok(true) &&
      forall j :: 0 <= j < i ==> CanSwitchTo(mons[j]) == Ok(false)
    decreases |mons|
  {
    if SwitchTarget(mons) == Ok(Some(i)) {
      SwitchTargetFound(mons, i);
    }
    if i < |mons| && CanSwitchTo(mons[i]) == Ok(true) &&
       forall j :: 0 <= j < i ==> CanSwitchTo(mons[j]) == Ok(false) {
      SwitchTargetLowest(mons, i);
    }
  }

  lemma {:induction false} SwitchTargetFound(mons: seq<Value>, i: nat)
    requires SwitchTarget(mons) == Ok(Some(i))
    ensures i < |mons| && CanSwitchTo(mons[i]) == Ok(true)
    ensures forall j :: 0 <= j < i ==> CanSwitchTo(mons[j]) == Ok(false)
    decreases |mons|
  {
    if CanSwitchTo(mons[0]) != Ok(true) {
      var rest := mons[1..];
      assert SwitchTarget(rest) == Ok(Some(i - 1));
      SwitchTargetFound(rest, i - 1);
      forall j | 0 <= j < i ensures CanSwitchTo(mons[j]) == Ok(false) {
        if j > 0 {
          assert mons[j] == rest[j - 1];
        }
      }
    }
  }

  lemma {:induction false} SwitchTargetLowest(mons: seq<Value>, i: nat)
    requires i < |mons| && CanSwitchTo(mons[i]) == Ok(true)
    requires forall j :: 0 <= j < i ==> CanSwitchTo(mons[j]) == Ok(false)
    ensures SwitchTarget(mons) == Ok(Some(i))
    decreases i
  {
    if i > 0 {
      var rest := mons[1..];
      forall j | 0 <= j < i - 1 ensures CanSwitchTo(rest[j]) == Ok(false) {
        assert rest[j] == mons[j + 1];
      }
      assert rest[i - 1] == mons[i];
      SwitchTargetLowest(rest, i - 1);
    }
  }

  /** No target is found exactly when every entry is evaluated and none qualifies. */
  lemma {:induction false} SwitchTargetNone(mons: seq<Value>)
    ensures SwitchTarget(mons) == Ok(None) <==>
      forall j :: 0 <= j < |mons| ==> CanSwitchTo(mons[j]) == Ok(false)
    decreases |mons|
  {
    if mons != [] {
      SwitchTargetNone(mons[1..]);
      forall j | 0 <= j < |mons| - 1 ensures mons[1..][j] == mons[j + 1] { }
    }
  }

  /** An entry whose check raises, after entries that were all found not to
      qualify, makes the whole search raise with that exception. */
  lemma {:induction false} SwitchTargetRaises(mons: seq<Value>, i: nat, e: Error)
    requires i < |mons| && CanSwitchTo(mons[i]) == Raise(e)
    requires forall j :: 0 <= j < i ==> CanSwitchTo(mons[j]) == Ok(false)
    ensures SwitchTarget(mons) == Raise(e)
    decreases i
  {
    if i > 0 {
      forall j | 0 <= j < i - 1 ensures CanSwitchTo(mons[1..][j]) == Ok(false) {
        assert mons[1..][j] == mons[j + 1];
      }
      assert mons[1..][i - 1] == mons[i];
      SwitchTargetRaises(mons[1..], i - 1, e);
    }
  }

  /** What `choose_switch` sends follows the search: at most one message,
      the switch to slot `i + 1` exactly when the search found index `i`. */
  lemma ForcedReplyTarget(room: Room, req: Value, mons: seq<Value>, i: nat)
    requires SwitchCandidates(req) == Ok(mons)
    ensures |ForcedReply(room, req)| <= 1
    ensures ForcedReply(room, req) == [SwitchCommand(room, i + 1)] <==> SwitchTarget(mons) == Ok(Some(i))
  {
    assert ForcedTarget(req) == SwitchTarget(mons);
    match SwitchTarget(mons) {
      case Ok(Some(t)) =>
        assert ForcedReply(room, req) == [SwitchCommand(room, t + 1)];
        if ForcedReply(room, req) == [SwitchCommand(room, i + 1)] {
          SwitchCommandInjective(room, t + 1, i + 1);
        }
      case _ =>
        assert ForcedReply(room, req) == [];
    }
  }

  /** `choose_switch` sends at most one message, and when it sends one it is
      the switch to the 1-based slot of the lowest qualifying entry. */
  lemma ForcedReplyLowest(room: Room, req: Value, mons: seq<Value>, i: nat)
    requires SwitchCandidates(req) == Ok(mons)
    ensures |ForcedReply(room, req)| <= 1
    ensures ForcedReply(room, req) == [SwitchCommand(room, i + 1)] <==>
      i < |mons| && CanSwitchTo(mons[i]) == Ok(true) &&
      forall j :: 0 <= j < i ==> CanSwitchTo(mons[j]) == Ok(false)
  {
    ForcedReplyTarget(room, req, mons, i);
    SwitchTargetSome(mons, i);
  }

  /** The entries the comprehension keeps: exactly the enabled ones, in
      increasing order, numbered from `base`. */
  lemma LegalFromExact(moves: seq<Value>, base: nat, legal: seq<nat>)
    requires LegalFrom(moves, base) == Ok(legal)
    ensures forall k :: k in legal <==>
      base <= k < base + |moves| && MoveEnabled(moves[k - base]) == Ok(true)
    ensures forall a, b :: 0 <= a < b < |legal| ==> legal[a] < legal[b]
    ensures forall k :: 0 <= k < |moves| ==> MoveEnabled(moves[k]).Ok?
  {
    LegalFromMembers(moves, base, legal);
    LegalFromSorted(moves, base, legal);
    LegalFromReadsAll(moves, base, legal);
  }

  lemma {:induction false} LegalFromMembers(moves: seq<Value>, base: nat, legal: seq<nat>)
    requires LegalFrom(moves, base) == Ok(legal)
    ensures forall k :: k in legal <==>
      base <= k < base + |moves| && MoveEnabled(moves[k - base]) == Ok(true)
    decreases |moves|
  {
    if moves != [] {
      var rest := moves[1..];
      var restLegal := LegalFrom(rest, base + 1).value;
      LegalFromMembers(rest, base + 1, restLegal);
      assert legal == (if MoveEnabled(moves[0]) == Ok(true) then [base] + restLegal else restLegal);
      forall k ensures k in legal <==> base <= k < base + |moves| && MoveEnabled(moves[k - base]) == Ok(true) {
        if base < k < base + |moves| {
          assert moves[k - base] == rest[k - (base + 1)];
        }
      }
    }
  }

  lemma {:induction false} LegalFromSorted(moves: seq<Value>, base: nat, legal: seq<nat>)
    requires LegalFrom(moves, base) == Ok(legal)
    ensures forall a, b :: 0 <= a < b < |legal| ==> legal[a] < legal[b]
    decreases |moves|
  {
    if moves != [] {
      var rest := moves[1..];
      var restLegal := LegalFrom(rest, base + 1).value;
      LegalFromSorted(rest, base + 1, restLegal);
      if MoveEnabled(moves[0]) == Ok(true) {
        assert legal == [base] + restLegal;
        LegalFromMembers(rest, base + 1, restLegal);
        forall a, b | 0 <= a < b < |legal| ensures legal[a] < legal[b] {
          assert legal[b] == restLegal[b - 1];
          if a > 0 {
            assert legal[a] == restLegal[a - 1];
          } else {
            assert restLegal[b - 1] in restLegal;
          }
        }
      } else {
        assert legal == restLegal;
      }
    }
  }

  lemma {:induction false} LegalFromReadsAll(moves: seq<Value>, base: nat, legal: seq<nat>)
    requires LegalFrom(moves, base) == Ok(legal)
    ensures forall k :: 0 <= k < |moves| ==> MoveEnabled(moves[k]).Ok?
    decreases |moves|
  {
    if moves != [] {
      var rest := moves[1..];
      LegalFromReadsAll(rest, base + 1, LegalFrom(rest, base + 1).value);
      forall k | 0 < k < |moves| ensures MoveEnabled(moves[k]).Ok? {
        assert moves[k] == rest[k - 1];
      }
    }
  }

  /** The comprehension is empty exactly when `any` finds no enabled move. */
  lemma {:induction false} LegalFromAgreesWithAny(moves: seq<Value>, base: nat, legal: seq<nat>)
    requires LegalFrom(moves, base) == Ok(legal)
    ensures AnyEnabled(moves) == Ok(legal != [])
    decreases |moves|
  {
    if moves != [] {
      var rest := LegalFrom(moves[1..], base + 1).value;
      LegalFromAgreesWithAny(moves[1..], base + 1, rest);
    }
  }

  /** A drawn move is enabled, its 1-based index is within the move list,
      and every enabled move can be drawn. */
  lemma PickedMoveIsLegal(req: Value, moves: seq<Value>, legal: seq<nat>)
    requires Decide(req) == Ok(PickMove(moves, legal))
    ensures legal != []
    ensures forall k: nat :: k in legal <==> k < |moves| && MoveEnabled(moves[k]) == Ok(true)
  {
    assert LegalFrom(moves, 0) == Ok(legal) && legal != [];
    LegalFromExact(moves, 0, legal);
  }

  /** Every index in the legal list is a position of the move list. */
  lemma LegalInRange(moves: seq<Value>, legal: seq<nat>, k: nat)
    requires LegalMoves(moves) == Ok(legal) && k in legal
    ensures k < |moves|
  {
    LegalFromExact(moves, 0, legal);
  }

  /** Drawing any legal index gives a possible reply. */
  lemma DrawnMoveReplies(room: Room, req: Value, moves: seq<Value>, legal: seq<nat>, k: nat)
    requires Decide(req) == Ok(PickMove(moves, legal)) && k in legal && k < |moves|
    ensures IsReply(room, req, MoveReply(room, moves, k))
  {
  }

  /** A truthy `forceSwitch` hands the turn to `choose_switch` and no move
      command is sent. */
  lemma ForceSwitchTakesPriority(room: Room, req: Value, force: Value, out: seq<string>)
    requires Get(req, "forceSwitch", Null) == Ok(force) && Truthy(force)
    requires IsReply(room, req, out)
    ensures out == ForcedReply(room, req)
    ensures forall k :: 0 <= k < |out| ==> forall m :: out[k] != MoveCommand(room, m)
  {
    forall k, m | 0 <= k < |out| ensures out[k] != MoveCommand(room, m) {
      var t := ForcedTarget(req).value.value;
      SwitchIsNotMove(room, t + 1, m);
    }
  }

  /** Without a forced switch, a falsy `active` means nothing is sent. */
  lemma NoActiveSendsNothing(room: Room, req: Value, force: Value, active: Value, out: seq<string>)
    requires Get(req, "forceSwitch", Null) == Ok(force) && !Truthy(force)
    requires Get(req, "active", Null) == Ok(active) && !Truthy(active)
    ensures IsReply(room, req, out) <==> out == []
  {
  }

  /** Every request gets at most one message, and that message is a switch
      or a move with a 1-based index. */
  lemma ReplyShape(room: Room, req: Value, out: seq<string>)
    requires IsReply(room, req, out)
    ensures |out| <= 1
    ensures out != [] ==> exists n :: 1 <= n && (out[0] == SwitchCommand(room, n) || out[0] == MoveCommand(room, n))
  {
    var d := Decide(req);
    if d.Ok? && d.value.ForceSwitch? {
      ForcedReplyShape(room, req);
    } else if d.Ok? && d.value.SwitchToSecond? {
      assert out == [SwitchCommand(room, SecondSlot)];
    } else if d.Ok? && d.value.PickMove? {
      var k :| k in d.value.legal && k < |d.value.moves| && out == MoveReply(room, d.value.moves, k);
      MoveReplyShape(room, d.value.moves, k);
    } else {
      assert out == [];
    }
  }

  /** A forced switch names one slot, numbered from 1, or nothing. */
  lemma ForcedReplyShape(room: Room, req: Value)
    ensures |ForcedReply(room, req)| <= 1
    ensures ForcedReply(room, req) != [] ==> exists n :: 1 <= n && ForcedReply(room, req)[0] == SwitchCommand(room, n)
  {
    match ForcedTarget(req) {
      case Ok(Some(t)) =>
        assert ForcedReply(room, req)[0] == SwitchCommand(room, t + 1);
      case _ =>
    }
  }

  /** A drawn move sends `move k+1` or nothing. */
  lemma MoveReplyShape(room: Room, moves: seq<Value>, k: nat)
    requires k < |moves|
    ensures |MoveReply(room, moves, k)| <= 1
    ensures MoveReply(room, moves, k) != [] ==> MoveReply(room, moves, k)[0] == MoveCommand(room, k + 1)
  {
  }

  /** The species of roster entry 0 in the example requests. */
  const Species: string := "Pikachu"

  /** A well-formed singles request: one active slot with `moves`, and
      roster entry 0 with the given condition. */
  function SinglesRequest(condition: string, moves: seq<Value>): Value {
    Object([
      ("active", Array([Object([("moves", Array(moves))])])),
      ("side", Object([("pokemon", Array([Object([
        ("condition", Str(condition)),
        ("details", Str(Species + ", L50"))])]))]))])
  }

  /** The fields of a well-formed singles request, as the bot reads them. */
  lemma SinglesRequestFields(condition: string, moves: seq<Value>)
    ensures Get(SinglesRequest(condition, moves), "forceSwitch", Null) == Ok(Null)
    ensures Get(SinglesRequest(condition, moves), "active", Null) == Ok(Array([Object([("moves", Array(moves))])]))
    ensures Subscript(SinglesRequest(condition, moves), "active") == Ok(Array([Object([("moves", Array(moves))])]))
    ensures FirstMon(SinglesRequest(condition, moves)) ==
      Ok(Object([("condition", Str(condition)), ("details", Str(Species + ", L50"))]))
  {
    var members := SinglesRequest(condition, moves).members;
    assert members[..1] == [members[0]] && members[..1][..0] == [];
    assert Lookup(members[..1], "active") == Some(members[0].1);
    assert Lookup(members[..1], "forceSwitch") == None;
  }

  /** The condition of roster entry 0 of a well-formed singles request. */
  lemma SinglesRequestCondition(condition: string, moves: seq<Value>)
    ensures CurrentHp(SinglesRequest(condition, moves)) == HpOf(Str(condition))
  {
    SinglesRequestFields(condition, moves);
    var mon := [("condition", Str(condition)), ("details", Str(Species + ", L50"))];
    assert mon[..1] == [mon[0]];
    assert Lookup(mon[..1], "condition") == Some(Str(condition));
    assert Get(Object(mon), "condition", Str("100/100")) == Ok(Str(condition));
  }

  /** The species name of the well-formed request is read without raising. */
  lemma SinglesRequestName(condition: string, moves: seq<Value>)
    ensures PokemonName(SinglesRequest(condition, moves)) == Ok(Species)
  {
    SinglesRequestFields(condition, moves);
    var details := Species + ", L50";
    assert ',' !in Species;
    SplitFirstPiece(Species, ", L50", ',');
    assert StrSplit(Str(details), ",") == Ok(Split(details, ","));
  }

  /** A well-formed singles request is decided by `Choose` on the HP of its
      condition and its move list. */
  lemma SinglesRequestReads(condition: string, moves: seq<Value>, hp: int)
    requires HpOf(Str(condition)) == Ok(hp)
    ensures Decide(SinglesRequest(condition, moves)) == Choose(hp, Array(moves))
  {
    SinglesRequestFields(condition, moves);
    SinglesRequestName(condition, moves);
    SinglesRequestCondition(condition, moves);
    var req := SinglesRequest(condition, moves);
    var slot := Object([("moves", Array(moves))]);
    var activeList := Array([slot]);
    assert Index0(activeList) == Ok(slot);
    assert Get(slot, "moves", Array([])) == Ok(Array(moves));
    assert CurrentHp(req) == Ok(hp);
    assert DecideActive(req) == Choose(hp, Array(moves));
    assert Truthy(activeList) && !Truthy(Null);
  }

  /** The switch trigger: HP 20 or less, or no enabled move, switches to
      slot 2; otherwise a move is drawn from the enabled ones. */
  lemma ChooseThreshold(hp: int, moves: seq<Value>, legal: seq<nat>)
    requires LegalMoves(moves) == Ok(legal)
    ensures Choose(hp, Array(moves)) ==
      if hp <= SwitchHp || legal == [] then Ok(SwitchToSecond) else Ok(PickMove(moves, legal))
  {
    LegalFromAgreesWithAny(moves, 0, legal);
  }

  /** On a well-formed request with condition `"<n>/100"`: HP 20 switches and
      HP 21 does not, unless every move is disabled. */
  lemma SwitchTrigger(n: nat, moves: seq<Value>, legal: seq<nat>)
    requires LegalMoves(moves) == Ok(legal)
    ensures Decide(SinglesRequest(Decimal(n) + "/" + "100", moves)) ==
      if n <= SwitchHp || legal == [] then Ok(SwitchToSecond) else Ok(PickMove(moves, legal))
  {
    HpOfFraction(n, "100");
    SinglesRequestReads(Decimal(n) + "/" + "100", moves, n);
    ChooseThreshold(n, moves, legal);
  }

  /** A move entry `{"move": name, "disabled": disabled}`. */
  function MoveEntry(name: string, disabled: bool): Value {
    Object([("move", Str(name)), ("disabled", Bool(disabled))])
  }

  /** Tackle enabled and Ember disabled: only index 0 is legal. */
  lemma TackleEmberLegal()
    ensures LegalMoves([MoveEntry("tackle", false), MoveEntry("ember", true)]) == Ok([0])
  {
    var moves := [MoveEntry("tackle", false), MoveEntry("ember", true)];
    assert MoveEnabled(moves[0]) == Ok(true);
    assert MoveEnabled(moves[1]) == Ok(false);
    assert moves[1..] == [moves[1]];
    assert LegalFrom([moves[1]], 1) == Ok([]) by {
      assert [moves[1]][1..] == [];
      assert LegalFrom([], 2) == Ok([]);
    }
    assert LegalFrom(moves, 0) == Ok([0] + []);
    assert [0] + [] == [0];
    assert LegalMoves(moves) == LegalFrom(moves, 0);
  }

  /** Tackle enabled, Ember disabled, HP 45: the only possible reply is
      `move 1`. */
  lemma TackleAt45(room: Room, out: seq<string>)
    ensures IsReply(room, SinglesRequest("45/100", [MoveEntry("tackle", false), MoveEntry("ember", true)]), out)
      <==> out == [MoveCommand(room, 1)]
  {
    var moves := [MoveEntry("tackle", false), MoveEntry("ember", true)];
    TackleEmberLegal();
    assert Decimal(45) == "45";
    assert Decimal(45) + "/" + "100" == "45/100";
    SwitchTrigger(45, moves, [0]);
    assert MoveReply(room, moves, 0) == [MoveCommand(room, 1)];
  }

  /** The same moves at HP 15: the only possible reply is `switch 2`. */
  lemma TackleAt15(room: Room, out: seq<string>)
    ensures IsReply(room, SinglesRequest("15/100", [MoveEntry("tackle", false), MoveEntry("ember", true)]), out)
      <==> out == [SwitchCommand(room, 2)]
  {
    var moves := [MoveEntry("tackle", false), MoveEntry("ember", true)];
    TackleEmberLegal();
    assert Decimal(15) == "15";
    assert Decimal(15) + "/" + "100" == "15/100";
    SwitchTrigger(15, moves, [0]);
  }
}
