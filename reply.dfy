/**
 * The A2S_INFO reply body (the datagram after its 4-byte frame header) as
 * a reference decoder, and the encoder it inverts.
 *
 * Layout: 0x49, protocol, name, map, folder, game, steamapp id (i16),
 * players, max players, bots, server type, environment, visibility, VAC,
 * version, Extra Data Flags (EDF), and then the optional fields that the
 * EDF byte selects, always in the order port, steam id, spectator port
 * and name, keywords, game id.
 */
module Reply {
  import opened Bytes
  import opened Wire

  datatype ServerType = Dedicated | NonDedicated | SourceTVRelay

  datatype OS = Linux | Windows | Mac

  /** Information about a server, as `Response` / `ServerInfo` hold it. */
  datatype ServerInfo = ServerInfo(
    protocolVersion: byte,
    name: Text,
    mapName: Text,
    folder: Text,
    game: Text,
    steamappId: int16,
    players: byte,
    maxPlayers: byte,
    bots: byte,
    serverType: ServerType,
    os: OS,
    isPublic: bool,
    usesVac: bool,
    version: Text,
    port: Option<int16>,
    steamId: Option<uint64>,
    spectatorPort: Option<int16>,
    spectatorName: Option<Text>,
    keywords: Option<Text>,
    gameId: Option<uint64>)

  /** The optional trailing fields, in wire order. */
  datatype Extras = Extras(
    port: Option<int16>,
    steamId: Option<uint64>,
    spectatorPort: Option<int16>,
    spectatorName: Option<Text>,
    keywords: Option<Text>,
    gameId: Option<uint64>)

  const Header: byte := 0x49

  const EdfPort: bv8 := 0x80
  const EdfSteamId: bv8 := 0x10
  const EdfSpectator: bv8 := 0x40
  const EdfKeywords: bv8 := 0x20
  const EdfGameId: bv8 := 0x01

  /** The EDF test `edf & flag != 0`. */
  predicate EdfHas(edf: byte, flag: bv8) {
    (edf as bv8) & flag != 0
  }

  /** The bits of EDF that select a field; the other three are ignored. */
  function EdfMeaningful(edf: byte): bv8 {
    (edf as bv8) & (EdfPort | EdfSteamId | EdfSpectator | EdfKeywords | EdfGameId)
  }

  // The server type and environment codes are ASCII letters.
  const CodeDedicated: byte := 0x64    // 'd'
  const CodeNonDedicated: byte := 0x6C // 'l'
  const CodeRelay: byte := 0x70        // 'p'
  const CodeLinux: byte := 0x6C        // 'l'
  const CodeWindows: byte := 0x77      // 'w'
  const CodeMac: byte := 0x6D          // 'm'

  function ServerTypeCode(t: ServerType): byte {
    match t
    case Dedicated => CodeDedicated
    case NonDedicated => CodeNonDedicated
    case SourceTVRelay => CodeRelay
  }

  function OsCode(os: OS): byte {
    match os
    case Linux => CodeLinux
    case Windows => CodeWindows
    case Mac => CodeMac
  }

  /** The server type byte: exactly the three codes decode, any other is an error. */
  function ServerTypeOf(code: byte): (r: Result<ServerType>)
    ensures r.Err? ==> r.error == UnknownServerType(code)
  {
    if code == CodeDedicated then Ok(Dedicated)
    else if code == CodeNonDedicated then Ok(NonDedicated)
    else if code == CodeRelay then Ok(SourceTVRelay)
    else Err(UnknownServerType(code))
  }

  /** The environment byte: exactly the three codes decode, any other is an error. */
  function OsOf(code: byte): (r: Result<OS>)
    ensures r.Err? ==> r.error == UnknownEnvironment(code)
  {
    if code == CodeLinux then Ok(Linux)
    else if code == CodeWindows then Ok(Windows)
    else if code == CodeMac then Ok(Mac)
    else Err(UnknownEnvironment(code))
  }

  /** A server type decodes from a byte exactly when that byte is its code. */
  lemma ServerTypeCodes(code: byte, t: ServerType)
    ensures ServerTypeOf(code) == Ok(t) <==> ServerTypeCode(t) == code
  {
  }

  /** An environment decodes from a byte exactly when that byte is its code. */
  lemma OsCodes(code: byte, os: OS)
    ensures OsOf(code) == Ok(os) <==> OsCode(os) == code
  {
  }

  /** An optional field: `read` when `present`, otherwise nothing is consumed from `s`. */
  function Optional<T>(present: bool, read: Result<Parsed<T>>, s: seq<byte>): (r: Result<Parsed<Option<T>>>)
    ensures r.Ok? ==> (r.value.value.Some? <==> present)
    ensures r.Err? <==> present && read.Err?
  {
    if present then
      var p :- read;
      Ok(Parsed(Some(p.value), p.rest))
    else
      Ok(Parsed(None, s))
  }

  /** Which optional fields follow, as the EDF byte selects them. */
  datatype Selection = Selection(port: bool, steamId: bool, spectator: bool, keywords: bool, gameId: bool)

  /** Each optional field is selected exactly when its EDF bit is set. */
  function SelectionOf(edf: byte): (sel: Selection) {
    Selection(EdfHas(edf, EdfPort), EdfHas(edf, EdfSteamId), EdfHas(edf, EdfSpectator),
              EdfHas(edf, EdfKeywords), EdfHas(edf, EdfGameId))
  }

  /**
   * The fields after the EDF byte.  Each is read only when selected, in
   * the fixed wire order; the spectator port and name share one bit.
   */
  ghost function ParseExtras(sel: Selection, s: seq<byte>): (r: Result<Parsed<Extras>>)
    ensures r.Ok? ==> (r.value.value.port.Some? <==> sel.port)
    ensures r.Ok? ==> (r.value.value.steamId.Some? <==> sel.steamId)
    ensures r.Ok? ==> (r.value.value.spectatorPort.Some? <==> sel.spectator)
    ensures r.Ok? ==> (r.value.value.spectatorName.Some? <==> sel.spectator)
    ensures r.Ok? ==> (r.value.value.keywords.Some? <==> sel.keywords)
    ensures r.Ok? ==> (r.value.value.gameId.Some? <==> sel.gameId)
  {
    var port :- Optional(sel.port, I16(s), s);
    var steamId :- Optional(sel.steamId, U64(port.rest), port.rest);
    var spectatorPort :- Optional(sel.spectator, I16(steamId.rest), steamId.rest);
    var spectatorName :- Optional(sel.spectator, Str(spectatorPort.rest), spectatorPort.rest);
    var keywords :- Optional(sel.keywords, Str(spectatorName.rest), spectatorName.rest);
    var gameId :- Optional(sel.gameId, U64(keywords.rest), keywords.rest);
    Ok(Parsed(Extras(port.value, steamId.value, spectatorPort.value, spectatorName.value, keywords.value, gameId.value), gameId.rest))
  }

  /** The reference decoder of a reply body; what follows the last field is returned as `rest`. */
  ghost function Parse(s: seq<byte>): (r: Result<Parsed<ServerInfo>>)
    ensures |s| == 0 ==> r == Err(Truncated)
    ensures |s| > 0 && s[0] != Header ==> r == Err(BadHeader(s[0]))
    ensures r.Ok? ==> s[0] == Header
  {
    var header :- U8(s);
    if header.value != Header then Err(BadHeader(header.value)) else
    var protocolVersion :- U8(header.rest);
    var name :- Str(protocolVersion.rest);
    var mapName :- Str(name.rest);
    var folder :- Str(mapName.rest);
    var game :- Str(folder.rest);
    var steamappId :- I16(game.rest);
    var players :- U8(steamappId.rest);
    var maxPlayers :- U8(players.rest);
    var bots :- U8(maxPlayers.rest);
    var typeCode :- U8(bots.rest);
    var serverType :- ServerTypeOf(typeCode.value);
    var osCode :- U8(typeCode.rest);
    var os :- OsOf(osCode.value);
    var visibility :- U8(osCode.rest);
    var vac :- U8(visibility.rest);
    var version :- Str(vac.rest);
    var edf :- U8(version.rest);
    var extras :- ParseExtras(SelectionOf(edf.value), edf.rest);
    var x := extras.value;
    Ok(Parsed(
      ServerInfo(protocolVersion.value, name.value, mapName.value, folder.value, game.value,
                 steamappId.value, players.value, maxPlayers.value, bots.value, serverType, os,
                 visibility.value == 0, vac.value == 1, version.value,
                 x.port, x.steamId, x.spectatorPort, x.spectatorName, x.keywords, x.gameId),
      extras.rest))
  }

  /** What `from_bytes` returns: the decoded record, trailing bytes ignored. */
  ghost function Decode(s: seq<byte>): (r: Result<ServerInfo>) {
    var p :- Parse(s);
    Ok(p.value)
  }

  // ---------------------------------------------------------------------
  // The encoder

  predicate NoNul(t: Text) { 0 !in t }

  predicate NoNulOpt(t: Option<Text>) { t.Some? ==> 0 !in t.value }

  /** Each optional field of `x` is present exactly when `sel` selects it. */
  predicate Selected(x: Extras, sel: Selection) {
    && (x.port.Some? <==> sel.port)
    && (x.steamId.Some? <==> sel.steamId)
    && (x.spectatorPort.Some? <==> sel.spectator)
    && (x.spectatorName.Some? <==> sel.spectator)
    && (x.keywords.Some? <==> sel.keywords)
    && (x.gameId.Some? <==> sel.gameId)
  }

  function ExtrasOf(info: ServerInfo): Extras {
    Extras(info.port, info.steamId, info.spectatorPort, info.spectatorName, info.keywords, info.gameId)
  }

  /**
   * `info` can be written with flags byte `edf`: its strings hold no zero
   * byte and its optional fields are the ones `edf` selects.
   */
  predicate Encodable(info: ServerInfo, edf: byte) {
    && NoNul(info.name) && NoNul(info.mapName) && NoNul(info.folder)
    && NoNul(info.game) && NoNul(info.version)
    && NoNulOpt(info.spectatorName) && NoNulOpt(info.keywords)
    && Selected(ExtrasOf(info), SelectionOf(edf))
  }

  function PutOptI16(v: Option<int16>, rest: seq<byte>): (s: seq<byte>)
    ensures Optional(v.Some?, I16(s), s) == Ok(Parsed(v, rest))
    ensures |s| == |rest| + if v.Some? then 2 else 0
  {
    if v.Some? then PutI16(v.value, rest) else rest
  }

  function PutOptU64(v: Option<uint64>, rest: seq<byte>): (s: seq<byte>)
    ensures Optional(v.Some?, U64(s), s) == Ok(Parsed(v, rest))
    ensures |s| == |rest| + if v.Some? then 8 else 0
  {
    if v.Some? then PutU64(v.value, rest) else rest
  }

  ghost function PutOptString(t: Option<Text>, rest: seq<byte>): (s: seq<byte>)
    requires NoNulOpt(t)
    ensures Optional(t.Some?, Str(s), s) == Ok(Parsed(t, rest))
    ensures |s| == |rest| + if t.Some? then |t.value| + 1 else 0
  {
    if t.Some? then PutString(t.value, rest) else rest
  }

  /** The optional fields present in `x`, in wire order, followed by `rest`. */
  ghost function PutExtras(x: Extras, rest: seq<byte>): (s: seq<byte>)
    requires NoNulOpt(x.spectatorName) && NoNulOpt(x.keywords)
  {
    PutOptI16(x.port,
    PutOptU64(x.steamId,
    PutOptI16(x.spectatorPort,
    PutOptString(x.spectatorName,
    PutOptString(x.keywords,
    PutOptU64(x.gameId, rest))))))
  }

  /**
   * A reply body followed by `rest`, holding the fields of `info` except
   * that the server type, environment, visibility and VAC bytes are the
   * raw bytes given (so that unknown codes can be written too).
   */
  ghost function EncodeRaw(info: ServerInfo, edf: byte, typeCode: byte, osCode: byte,
                           visibility: byte, vac: byte, rest: seq<byte>): (s: seq<byte>)
    requires Encodable(info, edf)
  {
    PutU8(Header,
    PutU8(info.protocolVersion,
    PutString(info.name,
    PutString(info.mapName,
    PutString(info.folder,
    PutString(info.game,
    PutI16(info.steamappId,
    PutU8(info.players,
    PutU8(info.maxPlayers,
    PutU8(info.bots,
    PutU8(typeCode,
    PutU8(osCode,
    PutU8(visibility,
    PutU8(vac,
    PutString(info.version,
    PutU8(edf,
    PutExtras(ExtrasOf(info), rest)))))))))))))))))
  }

  /** The visibility byte: 0 means no password. */
  function VisibilityByte(isPublic: bool): byte { if isPublic then 0 else 1 }

  function VacByte(usesVac: bool): byte { if usesVac then 1 else 0 }

  /** The reply body a server sends for `info` with flags byte `edf`. */
  ghost function Encode(info: ServerInfo, edf: byte): (s: seq<byte>)
    requires Encodable(info, edf)
  {
    EncodeRaw(info, edf, ServerTypeCode(info.serverType), OsCode(info.os),
              VisibilityByte(info.isPublic), VacByte(info.usesVac), [])
  }
}
