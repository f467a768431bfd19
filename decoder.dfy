/**
 * The decoder as the source runs it: a cursor over the received bytes
 * whose position every read advances, `get_string` as a loop that grows a
 * string until it reads a zero byte, and `from_bytes` as the straight-line
 * sequence of reads.  Each step is proved against the reference readers
 * of module Wire and the whole against `Reply.Decode`.
 */
module Decoder {
  import opened Bytes
  import opened Wire
  import opened Reply

  /** A read position over a byte buffer (std::io::Cursor with bytes::Buf). */
  class Cursor {
    const data: seq<byte>
    var pos: nat

    ghost predicate Valid()
      reads this
    {
      pos <= |data|
    }

    /** The bytes not yet read. */
    ghost function Remaining(): seq<byte>
      reads this
      requires Valid()
    {
      data[pos..]
    }

    /** A read's outcome as the reference readers state it: value and what is left. */
    ghost function Seen<T>(r: Result<T>): Result<Parsed<T>>
      reads this
      requires Valid()
    {
      match r
      case Ok(v) => Ok(Parsed(v, data[pos..]))
      case Err(e) => Err(e)
    }

    constructor (b: seq<byte>)
      ensures Valid() && data == b && pos == 0
    {
      data := b;
      pos := 0;
    }

    /** The next `n` bytes; fails, rather than making up bytes, if fewer are left. */
    method Advance(n: nat) returns (r: Result<seq<byte>>)
      requires Valid()
      modifies this
      ensures Valid() && Seen(r) == Take(old(Remaining()), n)
    {
      if |data| - pos < n {
        return Err(Truncated);
      }
      r := Ok(data[pos..pos + n]);
      assert data[pos..][..n] == data[pos..pos + n] && data[pos..][n..] == data[pos + n..];
      pos := pos + n;
    }

    method GetU8() returns (r: Result<byte>)
      requires Valid()
      modifies this
      ensures Valid() && Seen(r) == U8(old(Remaining()))
    {
      var b :- Advance(1);
      r := Ok(b[0]);
    }

    method GetI16() returns (r: Result<int16>)
      requires Valid()
      modifies this
      ensures Valid() && Seen(r) == I16(old(Remaining()))
    {
      var b :- Advance(2);
      r := Ok(I16Le(b));
    }

    method GetI32() returns (r: Result<int32>)
      requires Valid()
      modifies this
      ensures Valid() && Seen(r) == I32(old(Remaining()))
    {
      var b :- Advance(4);
      r := Ok(I32Le(b));
    }

    method GetU64() returns (r: Result<uint64>)
      requires Valid()
      modifies this
      ensures Valid() && Seen(r) == U64(old(Remaining()))
    {
      var b :- Advance(8);
      r := Ok(U64Le(b));
    }

    /** The unread bytes, copied out (`cur.bytes().to_owned()`). */
    method Rest() returns (b: seq<byte>)
      requires Valid()
      ensures b == Remaining()
    {
      b := data[pos..];
    }
  }

  /** Reads bytes up to and including the first zero; returns those before it. */
  method GetString(cur: Cursor) returns (r: Result<Text>)
    requires cur.Valid()
    modifies cur
    ensures cur.Valid() && cur.Seen(r) == Str(old(cur.Remaining()))
  {
    ghost var input := cur.Remaining();
    var s: Text := [];
    while true
      invariant cur.Valid()
      invariant input == s + cur.Remaining() && 0 !in s
      decreases |cur.data| - cur.pos
    {
      ghost var before := cur.Remaining();
      var next := cur.GetU8();
      if next.Err? {
        assert input == s;
        StrFails(input);
        return Err(next.error);
      }
      var b := next.value;
      StrStep(input, s, before, b, cur.Remaining());
      if b == 0 {
        break;
      }
      s := s + [b];
    }
    r := Ok(s);
  }

  /** The fields after the EDF byte, each read only when its bit is set. */
  method ReadExtras(cur: Cursor, edf: byte) returns (r: Result<Extras>)
    requires cur.Valid()
    modifies cur
    ensures cur.Valid() && cur.Seen(r) == ParseExtras(SelectionOf(edf), old(cur.Remaining()))
  {
    var port: Option<int16> := None;
    if EdfHas(edf, EdfPort) {
      var v :- cur.GetI16();
      port := Some(v);
    }
    var steamId: Option<uint64> := None;
    if EdfHas(edf, EdfSteamId) {
      var v :- cur.GetU64();
      steamId := Some(v);
    }
    var spectatorPort: Option<int16> := None;
    var spectatorName: Option<Text> := None;
    if EdfHas(edf, EdfSpectator) {
      var p :- cur.GetI16();
      var n :- GetString(cur);
      spectatorPort, spectatorName := Some(p), Some(n);
    }
    var keywords: Option<Text> := None;
    if EdfHas(edf, EdfKeywords) {
      var k :- GetString(cur);
      keywords := Some(k);
    }
    var gameId: Option<uint64> := None;
    if EdfHas(edf, EdfGameId) {
      var g :- cur.GetU64();
      gameId := Some(g);
    }
    r := Ok(Extras(port, steamId, spectatorPort, spectatorName, keywords, gameId));
  }

  /** `from_bytes`: decodes a reply body, or reports why it cannot. */
  method FromBytes(b: seq<byte>) returns (r: Result<ServerInfo>)
    ensures r == Decode(b)
  {
    var cur := new Cursor(b);
    var header :- cur.GetU8();
    if header != Header {
      return Err(BadHeader(header));
    }
    var protocolVersion :- cur.GetU8();
    var name :- GetString(cur);
    var mapName :- GetString(cur);
    var folder :- GetString(cur);
    var game :- GetString(cur);
    var steamappId :- cur.GetI16();
    var players :- cur.GetU8();
    var maxPlayers :- cur.GetU8();
    var bots :- cur.GetU8();
    var typeCode :- cur.GetU8();
    var serverType :- ServerTypeOf(typeCode);
    var osCode :- cur.GetU8();
    var os :- OsOf(osCode);
    var visibility :- cur.GetU8();
    var vac :- cur.GetU8();
    var isPublic := visibility == 0;
    var usesVac := vac == 1;
    var version :- GetString(cur);
    var edf :- cur.GetU8();

    var x :- ReadExtras(cur, edf);

    r := Ok(ServerInfo(protocolVersion, name, mapName, folder, game, steamappId,
                       players, maxPlayers, bots, serverType, os, isPublic, usesVac,
                       version, x.port, x.steamId, x.spectatorPort, x.spectatorName, x.keywords, x.gameId));
  }
}
