/**
 * Worked examples of reply bodies, written out byte by byte, and what the
 * decoder makes of them.
 */
module Scenarios {
  import opened Bytes
  import opened Wire
  import opened Reply
  import opened ReplyLemmas

  const Name: Text := Ascii("Test")
  const Map: Text := Ascii("de_dust2")
  const Folder: Text := Ascii("cstrike")
  const Game: Text := Ascii("Counter-Strike")
  const Version: Text := Ascii("1.0")

  /**
   * A reply body for a Counter-Strike server "Test" on de_dust2, with
   * raw server type and environment bytes, then the EDF byte and the
   * optional fields it selects.
   */
  function Body(typeCode: byte, osCode: byte, edf: byte, extras: seq<byte>): seq<byte> {
    [0x49] + (              // header
    [0x11] + (              // protocol version
    Name + [0] + (
    Map + [0] + (
    Folder + [0] + (
    Game + [0] + (
    [0x10, 0x00] + (        // steamapp id, 16
    [0x05] + (              // players
    [0x10] + (              // max players
    [0x00] + (              // bots
    [typeCode] + (
    [osCode] + (
    [0x00] + (              // visibility: public
    [0x01] + (              // VAC
    Version + [0] + (
    [edf] + extras)))))))))))))))
  }

  /** The record `Body` describes, with no optional field. */
  const Plain: ServerInfo :=
    ServerInfo(0x11, Name, Map, Folder, Game, 0x10, 5, 0x10, 0, Dedicated, Linux, true, true, Version,
               None, None, None, None, None, None)

  lemma AsciiNoNul(t: string)
    requires forall i :: 0 <= i < |t| ==> 0 < t[i] as int < 0x100
    ensures 0 !in Ascii(t)
  {
    var b := Ascii(t);
    assert forall i :: 0 <= i < |b| ==> b[i] != 0;
  }

  lemma TextsHaveNoNul()
    ensures 0 !in Name && 0 !in Map && 0 !in Folder && 0 !in Game && 0 !in Version
  {
    AsciiNoNul("Test");
    AsciiNoNul("de_dust2");
    AsciiNoNul("cstrike");
    AsciiNoNul("Counter-Strike");
    AsciiNoNul("1.0");
  }

  /** `info` with the optional fields of `x`. */
  function WithExtras(info: ServerInfo, x: Extras): ServerInfo {
    info.(port := x.port, steamId := x.steamId, spectatorPort := x.spectatorPort,
          spectatorName := x.spectatorName, keywords := x.keywords, gameId := x.gameId)
  }

  lemma BodyIsEncoding(x: Extras, typeCode: byte, osCode: byte, edf: byte)
    requires Encodable(WithExtras(Plain, x), edf)
    ensures Body(typeCode, osCode, edf, PutExtras(x, []))
         == EncodeRaw(WithExtras(Plain, x), edf, typeCode, osCode, 0, 1, [])
  {
    assert ExtrasOf(WithExtras(Plain, x)) == x;
    assert I16ToLe(0x10) == [0x10, 0x00];
  }

  const NoExtras: Extras := Extras(None, None, None, None, None, None)

  /**
   * The body with EDF 00 and any server type and environment bytes: the
   * first unknown code is the error, otherwise the literal values.
   */
  lemma PlainBody(typeCode: byte, osCode: byte)
    ensures Decode(Body(typeCode, osCode, 0x00, []))
         == if ServerTypeOf(typeCode).Err? then Err(UnknownServerType(typeCode))
            else if OsOf(osCode).Err? then Err(UnknownEnvironment(osCode))
            else Ok(Plain.(serverType := ServerTypeOf(typeCode).value, os := OsOf(osCode).value))
  {
    TextsHaveNoNul();
    assert WithExtras(Plain, NoExtras) == Plain;
    BodyIsEncoding(NoExtras, typeCode, osCode, 0x00);
    DecodeRaw(Plain, 0x00, typeCode, osCode, 0, 1, []);
  }

  /** EDF 00: the record with the literal values and no optional field. */
  lemma PlainReply()
    ensures Decode(Body(CodeDedicated, CodeLinux, 0x00, [])) == Ok(Plain)
  {
    PlainBody(CodeDedicated, CodeLinux);
  }

  /** Little-endian readings: 01 6B is 27393 and 2A 00 … 00 is 42. */
  lemma LittleEndianExamples()
    ensures I16Le([0x01, 0x6B]) == 27393 && I16ToLe(27393) == [0x01, 0x6B]
    ensures U64Le([0x2A, 0, 0, 0, 0, 0, 0, 0]) == 42 && U64ToLe(42) == [0x2A, 0, 0, 0, 0, 0, 0, 0]
  {
    var port: seq<byte> := [0x01, 0x6B];
    var gameId: seq<byte> := [0x2A, 0, 0, 0, 0, 0, 0, 0];
    assert port[1..][1..] == [];
    assert gameId[1..][1..][1..][1..][1..][1..][1..][1..] == [];
    I16LeBijective(port);
    U64LeBijective(gameId);
  }

  /**
   * EDF 81 (0x80 | 0x01): the port and the game id follow, in that order,
   * and nothing else is present.
   */
  lemma PortAndGameIdReply(port: int16, gameId: uint64)
    ensures Decode(Body(CodeDedicated, CodeLinux, 0x81, I16ToLe(port) + U64ToLe(gameId)))
         == Ok(Plain.(port := Some(port), gameId := Some(gameId)))
  {
    TextsHaveNoNul();
    var x := NoExtras.(port := Some(port), gameId := Some(gameId));
    assert PutExtras(x, []) == I16ToLe(port) + U64ToLe(gameId);
    BodyIsEncoding(x, CodeDedicated, CodeLinux, 0x81);
    DecodeRaw(WithExtras(Plain, x), 0x81, CodeDedicated, CodeLinux, 0, 1, []);
  }

  /** A server type byte other than 'd', 'l' and 'p' ('x', say) is an error naming it. */
  lemma UnknownServerTypeReply(typeCode: byte)
    requires typeCode != CodeDedicated && typeCode != CodeNonDedicated && typeCode != CodeRelay
    ensures Decode(Body(typeCode, CodeLinux, 0x00, [])) == Err(UnknownServerType(typeCode))
  {
    PlainBody(typeCode, CodeLinux);
  }

  /** An environment byte other than 'l', 'w' and 'm' ('z', say) is an error naming it. */
  lemma UnknownEnvironmentReply(osCode: byte)
    requires osCode != CodeLinux && osCode != CodeWindows && osCode != CodeMac
    ensures Decode(Body(CodeDedicated, osCode, 0x00, [])) == Err(UnknownEnvironment(osCode))
  {
    PlainBody(CodeDedicated, osCode);
  }

  /** The plain reply cut short at any point is truncated. */
  lemma PlainReplyCutShort(m: nat)
    requires m < |Body(CodeDedicated, CodeLinux, 0x00, [])|
    ensures Decode(Body(CodeDedicated, CodeLinux, 0x00, [])[..m]) == Err(Truncated)
  {
    TextsHaveNoNul();
    assert WithExtras(Plain, NoExtras) == Plain;
    BodyIsEncoding(NoExtras, CodeDedicated, CodeLinux, 0x00);
    EncodingCutShort(Plain, 0x00, m);
  }
}
