/** The voice protocol's variable-length integer, for the non-negative values
    the audio tunnel carries (speaker session id, sequence number, Opus length).

    The first byte's leading bits select the width:
      0xxxxxxx                  7-bit value
      10xxxxxx + 1 byte         14-bit value
      110xxxxx + 2 bytes        21-bit value
      1110xxxx + 3 bytes        28-bit value
      111100__ + 4 bytes        32-bit value
      111101__ + 8 bytes        64-bit value
      111110__ / 111111__       negative forms (not carried here)
    This table is the Mumble protocol's published encoding; the stream class
    that implements it in the proxy is not part of this model. */
module Varint {
  import opened Bytes

  datatype VarintError =
    | Truncated      // the buffer ends inside the integer
    | NegativeForm   // a 0xF8.. or 0xFC.. prefix: a negative number

  /** Encodes `v` modulo 2^64 in the shortest form the table above allows. */
  function PutVarint(v: nat): (r: seq<byte>)
    ensures 1 <= |r| <= 9
    ensures v < 0x80 ==> r == [v]
  {
    var u := Uint32Bytes(v);
    if v < 0x80 then [v]
    else if v < 0x4000 then [0x80 + u[2], u[3]]
    else if v < 0x20_0000 then [0xC0 + u[1], u[2], u[3]]
    else if v < 0x1000_0000 then [0xE0 + u[0], u[1], u[2], u[3]]
    else if v < TWO_32 then [0xF0] + u
    else [0xF4] + Uint32Bytes(v / TWO_32) + u
  }

  /** Decodes one variable-length integer from the front of `s`, giving the
      value and the number of bytes it occupied. */
  function GetVarint(s: seq<byte>): (r: Result<(nat, nat), VarintError>)
    ensures r.Ok? ==> 1 <= r.value.1 <= |s| && r.value.1 <= 9 && r.value.0 < TWO_64
    ensures |s| == 0 ==> r == Err(Truncated)
    ensures |s| > 0 && s[0] < 0x80 ==> r == Ok((s[0], 1))
    ensures |s| > 0 && s[0] >= 0xF8 ==> r == Err(NegativeForm)
  {
    if |s| == 0 then Err(Truncated)
    else
      var b: int := s[0];
      if b < 0x80 then Ok((b, 1))
      else if b < 0xC0 then
        if |s| < 2 then Err(Truncated) else Ok((ReadUint32([0, 0, b - 0x80, s[1]]), 2))
      else if b < 0xE0 then
        if |s| < 3 then Err(Truncated) else Ok((ReadUint32([0, b - 0xC0, s[1], s[2]]), 3))
      else if b < 0xF0 then
        if |s| < 4 then Err(Truncated) else Ok((ReadUint32([b - 0xE0, s[1], s[2], s[3]]), 4))
      else if b < 0xF4 then
        if |s| < 5 then Err(Truncated) else Ok((ReadUint32(s[1..5]), 5))
      else if b < 0xF8 then
        if |s| < 9 then Err(Truncated) else Ok((ReadUint32(s[1..5]) * TWO_32 + ReadUint32(s[5..9]), 9))
      else Err(NegativeForm)
  }

  /** Whatever follows an encoded integer, decoding reads back exactly the
      value and the bytes that were written. */
  lemma VarintRoundTrip(v: nat, rest: seq<byte>)
    requires v < TWO_64
    ensures GetVarint(PutVarint(v) + rest) == Ok((v, |PutVarint(v)|))
  {
    var u := Uint32Bytes(v);
    var e := PutVarint(v);
    var s := e + rest;
    assert ReadUint32(u) == v % TWO_32;
    if v < 0x80 {
    } else if v < 0x4000 {
      assert [0, 0, s[0] - 0x80, s[1]] == u;
    } else if v < 0x20_0000 {
      assert [0, s[0] - 0xC0, s[1], s[2]] == u;
    } else if v < 0x1000_0000 {
      assert [s[0] - 0xE0, s[1], s[2], s[3]] == u;
    } else if v < TWO_32 {
      assert s[1..5] == u;
    } else {
      var hi := Uint32Bytes(v / TWO_32);
      assert s[1..5] == hi;
      assert s[5..9] == u;
      assert ReadUint32(hi) == v / TWO_32;
    }
  }

  /** Bytes after an integer do not change how it decodes. */
  lemma GetVarintPrefix(s: seq<byte>, t: seq<byte>)
    requires GetVarint(s).Ok?
    ensures GetVarint(s + t) == GetVarint(s)
  {
    var n := GetVarint(s).value.1;
    assert (s + t)[..n] == s[..n];
    if n >= 5 {
      assert (s + t)[1..5] == s[1..5];
    }
    if n == 9 {
      assert (s + t)[5..9] == s[5..9];
    }
  }
}
