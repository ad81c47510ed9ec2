/** The messages the bot writes to the websocket, and the room it writes
    battle choices to. */
module Commands {
  import opened Text

  /** `self.battle_room`: `None` until a room is joined, then a room id; the
      legacy branch of the dispatcher stores Python's `...` (Ellipsis). */
  datatype Room = NoRoom | Named(id: string) | EllipsisRoom

  /** `not self.battle_room` */
  predicate RoomFalsy(room: Room) {
    room.NoRoom? || (room.Named? && room.id == [])
  }

  /** How an f-string renders `self.battle_room`. */
  function RoomText(room: Room): string {
    match room
    case NoRoom => "None"
    case Named(id) => id
    case EllipsisRoom => "Ellipsis"
  }

  function SwitchPrefix(room: Room): string { RoomText(room) + "|/choose switch " }

  function MovePrefix(room: Room): string { RoomText(room) + "|/choose move " }

  /** `<room>|/choose switch <slot>` */
  function SwitchCommand(room: Room, slot: nat): string {
    SwitchPrefix(room) + Decimal(slot)
  }

  /** `<room>|/choose move <slot>` */
  function MoveCommand(room: Room, slot: nat): string {
    MovePrefix(room) + Decimal(slot)
  }

  /** The guest identity claim sent in answer to a challenge string. */
  function Trn(username: string): string { "|/trn " + username + ",0" }

  function Search(format: string): string { "|/search " + format }

  function Accept(challenger: string): string { "|/accept " + challenger }

  /** The direct challenge the fallback matchmaker sends. */
  const FallbackChallenge: string := "|/challenge mrbot2, gen9randombattle"

  /** The number a choice command carries after `prefix`, read back with
      `int()` the way a receiver of the command would. */
  function ChoiceIndex(cmd: string, prefix: string): Option<int> {
    if StartsWith(cmd, prefix) then IntOf(cmd[|prefix|..]) else None
  }

  lemma SwitchIndexRoundTrip(room: Room, slot: nat)
    ensures ChoiceIndex(SwitchCommand(room, slot), SwitchPrefix(room)) == Some(slot)
  {
    var cmd := SwitchCommand(room, slot);
    assert cmd[|SwitchPrefix(room)|..] == Decimal(slot);
    DecimalRoundTrip(slot);
  }

  lemma MoveIndexRoundTrip(room: Room, slot: nat)
    ensures ChoiceIndex(MoveCommand(room, slot), MovePrefix(room)) == Some(slot)
  {
    var cmd := MoveCommand(room, slot);
    assert cmd[|MovePrefix(room)|..] == Decimal(slot);
    DecimalRoundTrip(slot);
  }

  /** Two switch commands to one room are equal only for the same slot. */
  lemma SwitchCommandInjective(room: Room, a: nat, b: nat)
    requires SwitchCommand(room, a) == SwitchCommand(room, b)
    ensures a == b
  {
    SwitchIndexRoundTrip(room, a);
    SwitchIndexRoundTrip(room, b);
  }

  /** A switch command is never a move command. */
  lemma SwitchIsNotMove(room: Room, a: nat, b: nat)
    ensures SwitchCommand(room, a) != MoveCommand(room, b)
  {
    var n := |RoomText(room)| + 9;
    assert SwitchCommand(room, a)[n] == 's';
    assert MoveCommand(room, b)[n] == 'm';
  }
}
