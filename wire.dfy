/**
 * Reference readers and writers for the primitive fields of a Source
 * "Server Queries" reply.  Each reader takes the unread part of the
 * datagram and returns the value together with what is left after it;
 * each writer puts the field in front of a given tail.  A reader never
 * makes up a value: when the bytes it needs are not there it fails with
 * `Truncated`.
 */
module Wire {
  import opened Bytes

  /** Why a reply could not be decoded. */
  datatype Error =
    | Truncated                      // a field ran past the end of the datagram
    | BadHeader(got: byte)           // the reply does not start with 0x49
    | UnknownServerType(code: byte)  // server type byte is not 'd', 'l' or 'p'
    | UnknownEnvironment(code: byte) // environment byte is not 'l', 'w' or 'm'
    | UnknownFrameHeader(header: int32) // outer frame value is not -1 (split reply)

  datatype Result<+T> = Ok(value: T) | Err(error: Error) {
    predicate IsFailure() { Err? }
    function PropagateFailure<U>(): Result<U>
      requires Err?
    {
      Err(error)
    }
    function Extract(): T
      requires Ok?
    {
      value
    }
  }

  datatype Option<+T> = None | Some(value: T)

  /** A decoded value and the bytes that follow it. */
  datatype Parsed<+T> = Parsed(value: T, rest: seq<byte>)

  /** The first `n` bytes of `s`, or `Truncated` if `s` is shorter. */
  function Take(s: seq<byte>, n: nat): (r: Result<Parsed<seq<byte>>>)
    ensures r.Ok? <==> n <= |s|
    ensures r.Ok? ==> |r.value.value| == n && s == r.value.value + r.value.rest
    ensures r.Err? ==> r.error == Truncated
  {
    if |s| < n then Err(Truncated) else Ok(Parsed(s[..n], s[n..]))
  }

  function U8(s: seq<byte>): (r: Result<Parsed<byte>>)
  {
    var p :- Take(s, 1);
    Ok(Parsed(p.value[0], p.rest))
  }

  function I16(s: seq<byte>): (r: Result<Parsed<int16>>)
  {
    var p :- Take(s, 2);
    Ok(Parsed(I16Le(p.value), p.rest))
  }

  function I32(s: seq<byte>): (r: Result<Parsed<int32>>)
  {
    var p :- Take(s, 4);
    Ok(Parsed(I32Le(p.value), p.rest))
  }

  function U64(s: seq<byte>): (r: Result<Parsed<uint64>>)
  {
    var p :- Take(s, 8);
    Ok(Parsed(U64Le(p.value), p.rest))
  }

  /** A buffer holding a zero byte has a first one. */
  lemma {:induction false} FirstZeroExists(s: seq<byte>)
    requires 0 in s
    ensures exists k :: 0 <= k < |s| && s[k] == 0 && 0 !in s[..k]
  {
    if s[0] != 0 {
      FirstZeroExists(s[1..]);
      var k :| 0 <= k < |s[1..]| && s[1..][k] == 0 && 0 !in s[1..][..k];
      assert s[..k + 1] == [s[0]] + s[1..][..k];
      assert 0 <= k + 1 < |s| && s[k + 1] == 0 && 0 !in s[..k + 1];
    } else {
      assert 0 < |s| && s[0] == 0 && 0 !in s[..0];
    }
  }

  /**
   * A NUL-terminated string: the bytes before the first zero byte, with
   * that zero consumed.  Without a zero byte it is `Truncated`.
   */
  ghost function Str(s: seq<byte>): (r: Result<Parsed<Text>>) {
    if 0 in s then
      FirstZeroExists(s);
      var k :| 0 <= k < |s| && s[k] == 0 && 0 !in s[..k];
      Ok(Parsed(s[..k], s[k + 1..]))
    else
      Err(Truncated)
  }

  /** Writing `t` and a zero byte in front of `rest` reads back as `t`. */
  lemma StrOfEncoding(t: Text, rest: seq<byte>)
    requires 0 !in t
    ensures Str(t + [0] + rest) == Ok(Parsed(t, rest))
  {
    var s := t + [0] + rest;
    assert s[|t|] == 0;
    var k :| 0 <= k < |s| && s[k] == 0 && 0 !in s[..k] && Str(s) == Ok(Parsed(s[..k], s[k + 1..]));
    assert forall i | 0 <= i < |t| :: s[i] == t[i];
    assert k == |t|;
    assert s[..k] == t && s[k + 1..] == rest;
  }

  /** A successful string read splits its input at the first zero byte. */
  lemma StrSplits(s: seq<byte>)
    requires Str(s).Ok?
    ensures 0 !in Str(s).value.value
    ensures s == Str(s).value.value + [0] + Str(s).value.rest
  {
    var k :| 0 <= k < |s| && s[k] == 0 && 0 !in s[..k] && Str(s) == Ok(Parsed(s[..k], s[k + 1..]));
    assert s == s[..k] + [s[k]] + s[k + 1..];
  }

  /**
   * A string read yields `t` and leaves `rest` exactly when the input is
   * `t`, a zero byte and `rest`, with no zero byte inside `t`.
   */
  lemma StrIff(s: seq<byte>, t: Text, rest: seq<byte>)
    ensures Str(s) == Ok(Parsed(t, rest)) <==> 0 !in t && s == t + [0] + rest
  {
    if 0 !in t && s == t + [0] + rest {
      StrOfEncoding(t, rest);
    }
    if Str(s).Ok? {
      StrSplits(s);
    }
  }

  /** One step of reading a string byte by byte. */
  lemma StrStep(input: seq<byte>, s: Text, before: seq<byte>, b: byte, after: seq<byte>)
    requires input == s + before && 0 !in s && before == [b] + after
    ensures b == 0 ==> Str(input) == Ok(Parsed(s, after))
    ensures b != 0 ==> input == (s + [b]) + after && 0 !in s + [b]
  {
    if b == 0 {
      StrIff(input, s, after);
    } else {
      assert s + before == (s + [b]) + after;
    }
  }

  /** A string read fails only for want of a zero byte. */
  lemma StrFails(s: seq<byte>)
    ensures Str(s).Err? <==> 0 !in s
    ensures Str(s).Err? ==> Str(s).error == Truncated
  {
  }

  function PutU8(b: byte, rest: seq<byte>): (s: seq<byte>)
    ensures U8(s) == Ok(Parsed(b, rest))
    ensures |s| == 1 + |rest|
  {
    var s := [b] + rest;
    assert Take(s, 1).value.value == [b];
    s
  }

  function PutI16(v: int16, rest: seq<byte>): (s: seq<byte>)
    ensures I16(s) == Ok(Parsed(v, rest))
    ensures |s| == 2 + |rest|
  {
    var s := I16ToLe(v) + rest;
    assert s[..2] == I16ToLe(v) && s[2..] == rest;
    s
  }

  function PutI32(v: int32, rest: seq<byte>): (s: seq<byte>)
    ensures I32(s) == Ok(Parsed(v, rest))
    ensures |s| == 4 + |rest|
  {
    var s := I32ToLe(v) + rest;
    assert s[..4] == I32ToLe(v) && s[4..] == rest;
    s
  }

  function PutU64(v: uint64, rest: seq<byte>): (s: seq<byte>)
    ensures U64(s) == Ok(Parsed(v, rest))
    ensures |s| == 8 + |rest|
  {
    var s := U64ToLe(v) + rest;
    assert s[..8] == U64ToLe(v) && s[8..] == rest;
    s
  }

  ghost function PutString(t: Text, rest: seq<byte>): (s: seq<byte>)
    requires 0 !in t
    ensures Str(s) == Ok(Parsed(t, rest))
    ensures |s| == |t| + 1 + |rest|
  {
    var s := t + [0] + rest;
    StrIff(s, t, rest);
    s
  }

  /** Every successful fixed-width read consumed exactly its encoding. */
  lemma I16Consumed(s: seq<byte>)
    requires I16(s).Ok?
    ensures s == PutI16(I16(s).value.value, I16(s).value.rest)
  {
    I16LeBijective(s[..2]);
  }

  lemma I32Consumed(s: seq<byte>)
    requires I32(s).Ok?
    ensures s == PutI32(I32(s).value.value, I32(s).value.rest)
  {
    I32LeBijective(s[..4]);
  }

  lemma U64Consumed(s: seq<byte>)
    requires U64(s).Ok?
    ensures s == PutU64(U64(s).value.value, U64(s).value.rest)
  {
    U64LeBijective(s[..8]);
  }

  lemma U8Consumed(s: seq<byte>)
    requires U8(s).Ok?
    ensures s == PutU8(U8(s).value.value, U8(s).value.rest)
  {
    assert s == [s[0]] + s[1..];
  }

  /** A successful string read consumed its bytes and their terminator. */
  lemma StrConsumed(s: seq<byte>)
    requires Str(s).Ok?
    ensures 0 !in Str(s).value.value
    ensures s == PutString(Str(s).value.value, Str(s).value.rest)
  {
    StrIff(s, Str(s).value.value, Str(s).value.rest);
  }

  // ---------------------------------------------------------------------
  // Reading from a longer buffer

  /**
   * How the read of `s` relates to the read of `s + t`: a value read from
   * `s` is read from `s + t` as well, with `t` left over in addition; a
   * failure other than running out of bytes is the same failure.
   */
  ghost predicate Extends<T>(short: Result<Parsed<T>>, long: Result<Parsed<T>>, t: seq<byte>) {
    match short
    case Ok(p) => long == Ok(Parsed(p.value, p.rest + t))
    case Err(e) => e == Truncated || long == short
  }

  /**
   * When the read of a longer buffer left fewer bytes than were added,
   * the read of the shorter one ran out of bytes.
   */
  lemma ExtendsCut<T>(short: Result<Parsed<T>>, long: Result<Parsed<T>>, t: seq<byte>)
    requires Extends(short, long, t) && long.Ok? && |long.value.rest| < |t|
    ensures short == Err(Truncated)
  {
  }

  lemma TakeExtends(s: seq<byte>, t: seq<byte>, n: nat)
    ensures Extends(Take(s, n), Take(s + t, n), t)
  {
    if n <= |s| {
      assert (s + t)[..n] == s[..n] && (s + t)[n..] == s[n..] + t;
    }
  }

  lemma U8Extends(s: seq<byte>, t: seq<byte>)
    ensures Extends(U8(s), U8(s + t), t)
  {
    TakeExtends(s, t, 1);
  }

  lemma I16Extends(s: seq<byte>, t: seq<byte>)
    ensures Extends(I16(s), I16(s + t), t)
  {
    TakeExtends(s, t, 2);
  }

  lemma U64Extends(s: seq<byte>, t: seq<byte>)
    ensures Extends(U64(s), U64(s + t), t)
  {
    TakeExtends(s, t, 8);
  }

  lemma StrExtends(s: seq<byte>, t: seq<byte>)
    ensures Extends(Str(s), Str(s + t), t)
  {
    if Str(s).Ok? {
      var p := Str(s).value;
      StrIff(s, p.value, p.rest);
      assert s + t == p.value + [0] + (p.rest + t);
      StrIff(s + t, p.value, p.rest + t);
    }
  }
}
