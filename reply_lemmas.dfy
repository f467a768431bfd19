/**
 * Properties of the reference decoder in module Reply: it inverts the
 * encoder, it accepts nothing but encodings, the EDF byte decides exactly
 * which optional fields are read and how many bytes they take, the error
 * cases are the ones the decoder names, and a reply cut short is reported
 * as truncated.
 */
module ReplyLemmas {
  import opened Bytes
  import opened Wire
  import opened Reply

  /** The optional part of an encoding decodes back to the optional fields. */
  lemma ExtrasRoundTrip(x: Extras, sel: Selection, rest: seq<byte>)
    requires NoNulOpt(x.spectatorName) && NoNulOpt(x.keywords) && Selected(x, sel)
    ensures ParseExtras(sel, PutExtras(x, rest)) == Ok(Parsed(x, rest))
  {
  }

  /**
   * Decoding a reply body written with raw server type, environment,
   * visibility and VAC bytes: the first unknown code is the error, checked
   * in wire order; otherwise every field comes back, with `visibility == 0`
   * and `vac == 1` as the two flags, and the bytes after the body untouched.
   */
  lemma DecodeRaw(info: ServerInfo, edf: byte, typeCode: byte, osCode: byte,
                  visibility: byte, vac: byte, rest: seq<byte>)
    requires Encodable(info, edf)
    ensures Parse(EncodeRaw(info, edf, typeCode, osCode, visibility, vac, rest))
         == if ServerTypeOf(typeCode).Err? then Err(UnknownServerType(typeCode))
            else if OsOf(osCode).Err? then Err(UnknownEnvironment(osCode))
            else Ok(Parsed(info.(serverType := ServerTypeOf(typeCode).value, os := OsOf(osCode).value,
                                 isPublic := visibility == 0, usesVac := vac == 1), rest))
  {
    var fromExtras := PutExtras(ExtrasOf(info), rest);
    ExtrasRoundTrip(ExtrasOf(info), SelectionOf(edf), rest);
    var fromEdf := PutU8(edf, fromExtras);
    var fromVersion := PutString(info.version, fromEdf);
    var fromVac := PutU8(vac, fromVersion);
    var fromVisibility := PutU8(visibility, fromVac);
    var fromOs := PutU8(osCode, fromVisibility);
    var fromType := PutU8(typeCode, fromOs);
    var fromBots := PutU8(info.bots, fromType);
    var fromMaxPlayers := PutU8(info.maxPlayers, fromBots);
    var fromPlayers := PutU8(info.players, fromMaxPlayers);
    var fromSteamappId := PutI16(info.steamappId, fromPlayers);
    var fromGame := PutString(info.game, fromSteamappId);
    var fromFolder := PutString(info.folder, fromGame);
    var fromMap := PutString(info.mapName, fromFolder);
    var fromName := PutString(info.name, fromMap);
    var fromProtocol := PutU8(info.protocolVersion, fromName);
    var s := PutU8(Header, fromProtocol);
    assert s == EncodeRaw(info, edf, typeCode, osCode, visibility, vac, rest);
  }

  /** Decoding an encoding gives back exactly the record encoded. */
  lemma RoundTrip(info: ServerInfo, edf: byte)
    requires Encodable(info, edf)
    ensures Parse(Encode(info, edf)) == Ok(Parsed(info, []))
    ensures Decode(Encode(info, edf)) == Ok(info)
  {
    ServerTypeCodes(ServerTypeCode(info.serverType), info.serverType);
    OsCodes(OsCode(info.os), info.os);
    DecodeRaw(info, edf, ServerTypeCode(info.serverType), OsCode(info.os),
              VisibilityByte(info.isPublic), VacByte(info.usesVac), []);
  }

  // ---------------------------------------------------------------------
  // Nothing but encodings decodes

  lemma OptI16Consumed(present: bool, s: seq<byte>)
    requires Optional(present, I16(s), s).Ok?
    ensures var p := Optional(present, I16(s), s).value;
      (p.value.Some? <==> present) && s == PutOptI16(p.value, p.rest)
  {
    if present {
      I16Consumed(s);
    }
  }

  lemma OptU64Consumed(present: bool, s: seq<byte>)
    requires Optional(present, U64(s), s).Ok?
    ensures var p := Optional(present, U64(s), s).value;
      (p.value.Some? <==> present) && s == PutOptU64(p.value, p.rest)
  {
    if present {
      U64Consumed(s);
    }
  }

  lemma OptStrConsumed(present: bool, s: seq<byte>)
    requires Optional(present, Str(s), s).Ok?
    ensures var p := Optional(present, Str(s), s).value;
      (p.value.Some? <==> present) && NoNulOpt(p.value) && s == PutOptString(p.value, p.rest)
  {
    if present {
      StrConsumed(s);
    }
  }

  /** Whatever the optional part decodes from is the encoding of what it decodes to. */
  lemma ExtrasComplete(sel: Selection, s: seq<byte>)
    requires ParseExtras(sel, s).Ok?
    ensures var p := ParseExtras(sel, s).value;
      && NoNulOpt(p.value.spectatorName) && NoNulOpt(p.value.keywords) && Selected(p.value, sel)
      && s == PutExtras(p.value, p.rest)
  {
    var port := Optional(sel.port, I16(s), s).value;
    OptI16Consumed(sel.port, s);
    var steamId := Optional(sel.steamId, U64(port.rest), port.rest).value;
    OptU64Consumed(sel.steamId, port.rest);
    var spectatorPort := Optional(sel.spectator, I16(steamId.rest), steamId.rest).value;
    OptI16Consumed(sel.spectator, steamId.rest);
    var spectatorName := Optional(sel.spectator, Str(spectatorPort.rest), spectatorPort.rest).value;
    OptStrConsumed(sel.spectator, spectatorPort.rest);
    var keywords := Optional(sel.keywords, Str(spectatorName.rest), spectatorName.rest).value;
    OptStrConsumed(sel.keywords, spectatorName.rest);
    var gameId := Optional(sel.gameId, U64(keywords.rest), keywords.rest).value;
    OptU64Consumed(sel.gameId, keywords.rest);
  }

  /**
   * Whatever a reply body decodes from is the encoding of what it decodes
   * to, for some EDF, visibility and VAC bytes that agree with the record.
   */
  lemma ParseComplete(s: seq<byte>) returns (edf: byte, visibility: byte, vac: byte)
    requires Parse(s).Ok?
    ensures var p := Parse(s).value;
      && Encodable(p.value, edf)
      && (p.value.isPublic <==> visibility == 0) && (p.value.usesVac <==> vac == 1)
      && s == EncodeRaw(p.value, edf, ServerTypeCode(p.value.serverType), OsCode(p.value.os),
                        visibility, vac, p.rest)
  {
    var header := U8(s).value;
    U8Consumed(s);
    var protocolVersion := U8(header.rest).value;
    U8Consumed(header.rest);
    var name := Str(protocolVersion.rest).value;
    StrConsumed(protocolVersion.rest);
    var mapName := Str(name.rest).value;
    StrConsumed(name.rest);
    var folder := Str(mapName.rest).value;
    StrConsumed(mapName.rest);
    var game := Str(folder.rest).value;
    StrConsumed(folder.rest);
    var steamappId := I16(game.rest).value;
    I16Consumed(game.rest);
    var players := U8(steamappId.rest).value;
    U8Consumed(steamappId.rest);
    var maxPlayers := U8(players.rest).value;
    U8Consumed(players.rest);
    var bots := U8(maxPlayers.rest).value;
    U8Consumed(maxPlayers.rest);
    var typeCode := U8(bots.rest).value;
    U8Consumed(bots.rest);
    ServerTypeCodes(typeCode.value, ServerTypeOf(typeCode.value).value);
    var osCode := U8(typeCode.rest).value;
    U8Consumed(typeCode.rest);
    OsCodes(osCode.value, OsOf(osCode.value).value);
    var visibilityByte := U8(osCode.rest).value;
    U8Consumed(osCode.rest);
    var vacByte := U8(visibilityByte.rest).value;
    U8Consumed(visibilityByte.rest);
    var version := Str(vacByte.rest).value;
    StrConsumed(vacByte.rest);
    var edfByte := U8(version.rest).value;
    U8Consumed(version.rest);
    var extras := ParseExtras(SelectionOf(edfByte.value), edfByte.rest).value;
    ExtrasComplete(SelectionOf(edfByte.value), edfByte.rest);
    var info := Parse(s).value.value;
    assert ExtrasOf(info) == extras.value;
    edf, visibility, vac := edfByte.value, visibilityByte.value, vacByte.value;
  }

  /** The decoder accepts exactly the encodings (with arbitrary trailing bytes). */
  lemma OnlyEncodingsDecode(s: seq<byte>)
    requires Parse(s).Ok?
    ensures var p := Parse(s).value;
      exists edf: byte, visibility: byte, vac: byte ::
        && Encodable(p.value, edf)
        && s == EncodeRaw(p.value, edf, ServerTypeCode(p.value.serverType), OsCode(p.value.os),
                          visibility, vac, p.rest)
  {
    var edf, visibility, vac := ParseComplete(s);
  }

  // ---------------------------------------------------------------------
  // How many bytes a reply takes

  /** The bytes the optional fields of `x` take. */
  function ExtrasLength(x: Extras): nat {
    (if x.port.Some? then 2 else 0)
    + (if x.steamId.Some? then 8 else 0)
    + (if x.spectatorPort.Some? then 2 else 0)
    + (if x.spectatorName.Some? then |x.spectatorName.value| + 1 else 0)
    + (if x.keywords.Some? then |x.keywords.value| + 1 else 0)
    + (if x.gameId.Some? then 8 else 0)
  }

  /**
   * The bytes a reply body for `info` takes: fourteen single bytes and
   * bytes, header to EDF byte, the i16 steamapp id, five terminated strings
   * and the optional fields.
   */
  function EncodedLength(info: ServerInfo): nat {
    1 + 1 + (|info.name| + 1) + (|info.mapName| + 1) + (|info.folder| + 1) + (|info.game| + 1)
    + 2 + 1 + 1 + 1 + 1 + 1 + 1 + 1 + (|info.version| + 1) + 1
    + ExtrasLength(ExtrasOf(info))
  }

  lemma PutExtrasLength(x: Extras, rest: seq<byte>)
    requires NoNulOpt(x.spectatorName) && NoNulOpt(x.keywords)
    ensures |PutExtras(x, rest)| == ExtrasLength(x) + |rest|
  {
  }

  lemma EncodeRawLength(info: ServerInfo, edf: byte, typeCode: byte, osCode: byte,
                        visibility: byte, vac: byte, rest: seq<byte>)
    requires Encodable(info, edf)
    ensures |EncodeRaw(info, edf, typeCode, osCode, visibility, vac, rest)| == EncodedLength(info) + |rest|
  {
    PutExtrasLength(ExtrasOf(info), rest);
  }

  /**
   * The optional part consumes exactly the bytes its EDF bits call for:
   * 2 for the port, 8 for the steam id, 2 and the terminated name for the
   * spectator pair, the terminated keywords, and 8 for the game id.
   */
  lemma ExtrasConsumption(edf: byte, s: seq<byte>)
    requires ParseExtras(SelectionOf(edf), s).Ok?
    ensures var p := ParseExtras(SelectionOf(edf), s).value;
      |s| - |p.rest|
      == (if EdfHas(edf, EdfPort) then 2 else 0)
       + (if EdfHas(edf, EdfSteamId) then 8 else 0)
       + (if EdfHas(edf, EdfSpectator) then 2 + |p.value.spectatorName.value| + 1 else 0)
       + (if EdfHas(edf, EdfKeywords) then |p.value.keywords.value| + 1 else 0)
       + (if EdfHas(edf, EdfGameId) then 8 else 0)
  {
    ExtrasComplete(SelectionOf(edf), s);
    var p := ParseExtras(SelectionOf(edf), s).value;
    PutExtrasLength(p.value, p.rest);
  }

  /** A decoded reply body took exactly the bytes its fields call for. */
  lemma Consumption(s: seq<byte>)
    requires Parse(s).Ok?
    ensures |s| - |Parse(s).value.rest| == EncodedLength(Parse(s).value.value)
  {
    var p := Parse(s).value;
    var edf, visibility, vac := ParseComplete(s);
    EncodeRawLength(p.value, edf, ServerTypeCode(p.value.serverType), OsCode(p.value.os), visibility, vac, p.rest);
  }

  // ---------------------------------------------------------------------
  // The EDF byte

  /**
   * Two EDF bytes select the same fields exactly when they agree on the
   * five meaningful bits; the other three bits are ignored.
   */
  lemma EdfOtherBitsIgnored(edf1: byte, edf2: byte)
    ensures SelectionOf(edf1) == SelectionOf(edf2) <==> EdfMeaningful(edf1) == EdfMeaningful(edf2)
  {
    var a, b := edf1 as bv8, edf2 as bv8;
    if SelectionOf(edf1) == SelectionOf(edf2) {
      assert a & 0xF1 == b & 0xF1;
    }
    if EdfMeaningful(edf1) == EdfMeaningful(edf2) {
      assert a & 0x80 == (a & 0xF1) & 0x80 && b & 0x80 == (b & 0xF1) & 0x80;
      assert a & 0x10 == (a & 0xF1) & 0x10 && b & 0x10 == (b & 0xF1) & 0x10;
      assert a & 0x40 == (a & 0xF1) & 0x40 && b & 0x40 == (b & 0xF1) & 0x40;
      assert a & 0x20 == (a & 0xF1) & 0x20 && b & 0x20 == (b & 0xF1) & 0x20;
      assert a & 0x01 == (a & 0xF1) & 0x01 && b & 0x01 == (b & 0xF1) & 0x01;
    }
  }

  // ---------------------------------------------------------------------
  // A reply cut short

  lemma OptionalExtends<T>(present: bool, short: Result<Parsed<T>>, long: Result<Parsed<T>>,
                           s: seq<byte>, t: seq<byte>)
    requires Extends(short, long, t)
    ensures Extends(Optional(present, short, s), Optional(present, long, s + t), t)
  {
  }

  lemma ParseExtrasExtends(sel: Selection, s: seq<byte>, t: seq<byte>)
    ensures Extends(ParseExtras(sel, s), ParseExtras(sel, s + t), t)
  {
    I16Extends(s, t);
    OptionalExtends(sel.port, I16(s), I16(s + t), s, t);
    var port := Optional(sel.port, I16(s), s);
    if port.Err? { return; }
    var r1 := port.value.rest;
    U64Extends(r1, t);
    OptionalExtends(sel.steamId, U64(r1), U64(r1 + t), r1, t);
    var steamId := Optional(sel.steamId, U64(r1), r1);
    if steamId.Err? { return; }
    var r2 := steamId.value.rest;
    I16Extends(r2, t);
    OptionalExtends(sel.spectator, I16(r2), I16(r2 + t), r2, t);
    var spectatorPort := Optional(sel.spectator, I16(r2), r2);
    if spectatorPort.Err? { return; }
    var r3 := spectatorPort.value.rest;
    StrExtends(r3, t);
    OptionalExtends(sel.spectator, Str(r3), Str(r3 + t), r3, t);
    var spectatorName := Optional(sel.spectator, Str(r3), r3);
    if spectatorName.Err? { return; }
    var r4 := spectatorName.value.rest;
    StrExtends(r4, t);
    OptionalExtends(sel.keywords, Str(r4), Str(r4 + t), r4, t);
    var keywords := Optional(sel.keywords, Str(r4), r4);
    if keywords.Err? { return; }
    var r5 := keywords.value.rest;
    U64Extends(r5, t);
    OptionalExtends(sel.gameId, U64(r5), U64(r5 + t), r5, t);
  }

  /**
   * Decoding is decided by the bytes it reads: a reply body that decodes
   * still decodes to the same record when more bytes follow, and a failure
   * other than running out of bytes stays the same failure.
   */
  lemma ParseExtends(s: seq<byte>, t: seq<byte>)
    ensures Extends(Parse(s), Parse(s + t), t)
  {
    U8Extends(s, t);
    var header := U8(s);
    if header.Err? || header.value.value != Header { return; }
    var r := header.value.rest;
    U8Extends(r, t);
    var protocolVersion := U8(r);
    if protocolVersion.Err? { return; }
    r := protocolVersion.value.rest;
    StrExtends(r, t);
    var name := Str(r);
    if name.Err? { return; }
    r := name.value.rest;
    StrExtends(r, t);
    var mapName := Str(r);
    if mapName.Err? { return; }
    r := mapName.value.rest;
    StrExtends(r, t);
    var folder := Str(r);
    if folder.Err? { return; }
    r := folder.value.rest;
    StrExtends(r, t);
    var game := Str(r);
    if game.Err? { return; }
    r := game.value.rest;
    I16Extends(r, t);
    var steamappId := I16(r);
    if steamappId.Err? { return; }
    r := steamappId.value.rest;
    U8Extends(r, t);
    var players := U8(r);
    if players.Err? { return; }
    r := players.value.rest;
    U8Extends(r, t);
    var maxPlayers := U8(r);
    if maxPlayers.Err? { return; }
    r := maxPlayers.value.rest;
    U8Extends(r, t);
    var bots := U8(r);
    if bots.Err? { return; }
    r := bots.value.rest;
    U8Extends(r, t);
    var typeCode := U8(r);
    if typeCode.Err? || ServerTypeOf(typeCode.value.value).Err? { return; }
    r := typeCode.value.rest;
    U8Extends(r, t);
    var osCode := U8(r);
    if osCode.Err? || OsOf(osCode.value.value).Err? { return; }
    r := osCode.value.rest;
    U8Extends(r, t);
    var visibility := U8(r);
    if visibility.Err? { return; }
    r := visibility.value.rest;
    U8Extends(r, t);
    var vac := U8(r);
    if vac.Err? { return; }
    r := vac.value.rest;
    StrExtends(r, t);
    var version := Str(r);
    if version.Err? { return; }
    r := version.value.rest;
    U8Extends(r, t);
    var edf := U8(r);
    if edf.Err? { return; }
    ParseExtrasExtends(SelectionOf(edf.value.value), edf.value.rest, t);
  }

  /** `ParseExtends` for a buffer split at `m`. */
  lemma ParseSplit(s: seq<byte>, m: nat)
    requires m <= |s|
    ensures Extends(Parse(s[..m]), Parse(s), s[m..])
  {
    assert s[..m] + s[m..] == s;
    ParseExtends(s[..m], s[m..]);
  }

  /**
   * A reply body cut short anywhere before the end of what the decoder
   * reads is reported as truncated: no record is made up from the part
   * that arrived.
   */
  lemma CutShort(s: seq<byte>, m: nat)
    requires Parse(s).Ok? && m < |s| - |Parse(s).value.rest|
    ensures Parse(s[..m]) == Err(Truncated)
  {
    ParseSplit(s, m);
    ExtendsCut(Parse(s[..m]), Parse(s), s[m..]);
  }

  /** Every proper prefix of an encoded reply body is truncated. */
  lemma EncodingCutShort(info: ServerInfo, edf: byte, m: nat)
    requires Encodable(info, edf) && m < |Encode(info, edf)|
    ensures Parse(Encode(info, edf)[..m]) == Err(Truncated)
    ensures Decode(Encode(info, edf)[..m]) == Err(Truncated)
  {
    RoundTrip(info, edf);
    CutShort(Encode(info, edf), m);
  }
}
