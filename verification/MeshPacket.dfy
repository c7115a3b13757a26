/** The mesh packet and its two wire forms: Packet.h, Packet.cpp, and the parsing of Dispatcher.cpp. */
module MeshPacket {
  import opened Arith
  import opened Bits
  import opened Buffers
  import opened Options

  const MAX_PATH_SIZE: nat := 64
  const MAX_PACKET_PAYLOAD: nat := 184
  const MAX_TRANS_UNIT: nat := 255

  const PAYLOAD_TYPE_TXT_MSG: nat := 2
  const PAYLOAD_TYPE_ACK: nat := 3
  const PAYLOAD_TYPE_PATH: nat := 8
  const PAYLOAD_TYPE_TRACE: nat := 9

  type uint16 = x: int | 0 <= x < 65536

  // -------------------------------------------------------------------------
  // Bit fields
  // -------------------------------------------------------------------------

  lemma LowBits(x: nat, k: nat, m: nat)
    requires m == Pow2(k) - 1
    ensures And(x, m) == x % (m + 1)
  {
    MaskIsMod(x, k);
  }

  function RouteType(header: byte): (r: nat)
    ensures r == header % 4
  {
    hide Pow2, And;
    Pow2Small();
    LowBits(header, 2, 3);
    And(header, 3)
  }

  function PayloadType(header: byte): (t: nat)
    ensures t == (header / 4) % 16
  {
    hide Pow2, And;
    Pow2Small();
    LowBits(Shr(header, 2), 4, 15);
    And(Shr(header, 2), 15)
  }

  function PayloadVer(header: byte): (v: nat)
    ensures v == header / 64
  {
    hide Pow2, And;
    Pow2Small();
    LowBits(Shr(header, 6), 2, 3);
    And(Shr(header, 6), 3)
  }

  predicate IsRouteFlood(header: byte) {
    RouteType(header) == 1 || RouteType(header) == 0
  }

  predicate IsRouteDirect(header: byte) {
    RouteType(header) == 2 || RouteType(header) == 3
  }

  predicate HasTransportCodes(header: byte) {
    RouteType(header) == 0 || RouteType(header) == 3
  }

  function HashSize(pathLen: uint16): (n: nat)
    ensures pathLen < 256 ==> n == pathLen / 64 + 1
  {
    hide Pow2;
    Pow2Small();
    (Shr(pathLen, 6) + 1) % 256
  }

  function HashCount(pathLen: uint16): (n: nat)
    ensures n == pathLen % 64
  {
    hide Pow2, And;
    Pow2Small();
    LowBits(pathLen, 6, 63);
    And(pathLen, 63)
  }

  function PathByteLen(pathLen: uint16): (n: nat)
    ensures pathLen < 256 ==> n == (pathLen % 64) * (pathLen / 64 + 1) < 256
  {
    ByteLenBound(HashCount(pathLen), HashSize(pathLen));
    (HashCount(pathLen) * HashSize(pathLen)) % 256
  }

  lemma ByteLenBound(c: nat, s: nat)
    requires c <= 63
    ensures 0 <= c * s && (s <= 4 ==> c * s < 256)
  {
    MulMono(c, 63, s);
  }

  /** isValidPathLen: size 4 is reserved, and the path must fit its buffer. */
  predicate IsValidPathLen(pathLen: byte) {
    HashSize(pathLen) != 4 && HashCount(pathLen) * HashSize(pathLen) <= MAX_PATH_SIZE
  }

  lemma ValidLen(p: byte)
    requires IsValidPathLen(p)
    ensures HashCount(p) * HashSize(p) == PathByteLen(p) <= MAX_PATH_SIZE
  {
  }

  /** setPathHashCount: the size bits stay; a count from 64 up spills into them. */
  function WithHashCount(pathLen: uint16, n: byte): (p: uint16)
    ensures n < 64 ==> p == pathLen - pathLen % 64 + n
  {
    CountMasks(pathLen, n);
    Or(And(pathLen, 0xffff - 63), n)
  }

  lemma CountMasks(p: nat, n: nat)
    requires p < 65536 && n < 256
    ensures And(p, 0xffff - 63) >= 0 && Or(And(p, 0xffff - 63), n) < 65536
    ensures n < 64 ==> Or(And(p, 0xffff - 63), n) == p - p % 64 + n
  {
    Pow2Small();
    hide And, Or, Pow2;
    HighMask(p);
    OrBound(p - p % 64, n, 16);
    if n < 64 {
      OrIsSum(n, p / 64, 6);
      OrComm(n, Shl(p / 64, 6));
    }
  }

  /** The low six of 16 bits cleared. */
  lemma HighMask(p: nat)
    requires p < 65536
    ensures And(p, 0xffff - 63) == p - p % 64
  {
    Pow2Small();
    hide And, Pow2;
    AndEven(p, 0x7fe0);
    AndEven(p / 2, 0x3ff0);
    AndEven(p / 4, 0x1ff8);
    AndEven(p / 8, 0xffc);
    AndEven(p / 16, 0x7fe);
    AndEven(p / 32, 0x3ff);
    Pow2Add(8, 2);
    LowBits(p / 64, 10, 0x3ff);
    assert p / 64 < 1024 && (p / 64) % 1024 == p / 64;
  }

  // -------------------------------------------------------------------------
  // The value of a packet, and its wire form
  // -------------------------------------------------------------------------

  datatype View = View(header: byte, code0: uint16, code1: uint16, pathLen: byte, path: seq<byte>, payload: seq<byte>)

  /** What the parsers produce and what the senders accept. */
  ghost predicate WellFormed(v: View) {
    && IsValidPathLen(v.pathLen) && |v.path| == PathByteLen(v.pathLen)
    && |v.payload| <= MAX_PACKET_PAYLOAD
    && (!HasTransportCodes(v.header) ==> v.code0 == 0 && v.code1 == 0)
  }

  /** A 16-bit field as memcpy stores it, low byte first. */
  function LE16(x: uint16): (b: seq<byte>)
    ensures |b| == 2 && x == Read16(b[0], b[1])
  {
    var i: int := x;
    [i % 256, i / 256]
  }

  function Read16(lo: byte, hi: byte): (x: uint16)
    ensures x % 256 == lo && x / 256 == hi
  {
    var l: int, h: int := lo, hi;
    l + 256 * h
  }

  function Codes(v: View): seq<byte> {
    if HasTransportCodes(v.header) then LE16(v.code0) + LE16(v.code1) else []
  }

  function Wire(v: View): (w: seq<byte>) {
    [v.header] + Codes(v) + [v.pathLen] + v.path + v.payload
  }

  /** Where the path length is. */
  function PathLenAt(header: byte): nat {
    if HasTransportCodes(header) then 5 else 1
  }

  /** The fields of a byte string, if it has the form of a packet. */
  function Fields(raw: seq<byte>): (r: Option<View>) {
    if |raw| == 0 then None else
    var at := PathLenAt(raw[0]);
    if |raw| <= at || !IsValidPathLen(raw[at]) then None else
    var from := at + 1 + PathByteLen(raw[at]);
    if |raw| < from || |raw| - from > MAX_PACKET_PAYLOAD then None else
    Some(View(raw[0], if at == 5 then Read16(raw[1], raw[2]) else 0, if at == 5 then Read16(raw[3], raw[4]) else 0,
              raw[at], raw[at + 1..from], raw[from..]))
  }

  /** What the radio side accepts: version 1 only. */
  function ParsedFromRadio(raw: seq<byte>): Option<View> {
    if |raw| == 0 || PayloadVer(raw[0]) > 0 then None else Fields(raw)
  }

  /** What readFrom accepts: any version, but a payload there must be. */
  function ParsedFromBlob(raw: seq<byte>): Option<View> {
    var f := Fields(raw);
    if f.Some? && |f.value.payload| == 0 then None else f
  }

  lemma CodesBytes(v: View, raw: seq<byte>)
    requires HasTransportCodes(v.header) && |raw| >= 5 && raw[1..5] == LE16(v.code0) + LE16(v.code1)
    ensures Read16(raw[1], raw[2]) == v.code0 && Read16(raw[3], raw[4]) == v.code1
  {
    assert raw[1] == raw[1..5][0] && raw[2] == raw[1..5][1] && raw[3] == raw[1..5][2] && raw[4] == raw[1..5][3];
  }

  /** Parsing recovers what was written. */
  lemma FieldsOfWire(v: View)
    requires WellFormed(v)
    ensures Fields(Wire(v)) == Some(v)
  {
    hide PathByteLen, IsValidPathLen, HasTransportCodes, LE16, Read16;
    var w, at := Wire(v), PathLenAt(v.header);
    var head := [v.header] + Codes(v);
    assert |head| == at && w == head + [v.pathLen] + v.path + v.payload;
    assert w[0] == v.header && w[at] == v.pathLen;
    assert w[at + 1..at + 1 + |v.path|] == v.path && w[at + 1 + |v.path|..] == v.payload;
    if HasTransportCodes(v.header) {
      assert w[1..5] == Codes(v);
      CodesBytes(v, w);
    }
  }

  /** What parses is well formed, and writes back to the same bytes. */
  lemma WireOfFields(raw: seq<byte>)
    requires Fields(raw).Some?
    ensures WellFormed(Fields(raw).value) && Wire(Fields(raw).value) == raw
  {
    hide PathByteLen, IsValidPathLen, HasTransportCodes, LE16, Read16;
    var v, at := Fields(raw).value, PathLenAt(raw[0]);
    var n := at + 1 + |v.path|;
    if at == 5 {
      CodesRead(v, raw);
    }
    Pieces(raw, at, n);
    assert Codes(v) == raw[1..at];
  }

  /** A string cut at 1, at, at + 1 and n. */
  lemma Pieces(raw: seq<byte>, at: nat, n: nat)
    requires 1 <= at < n <= |raw|
    ensures raw == [raw[0]] + raw[1..at] + [raw[at]] + raw[at + 1..n] + raw[n..]
  {
    assert raw == raw[..n] + raw[n..] && raw[..n] == raw[..at + 1] + raw[at + 1..n];
    assert raw[..at + 1] == raw[..at] + [raw[at]] && raw[..at] == [raw[0]] + raw[1..at];
  }

  lemma CodesRead(v: View, raw: seq<byte>)
    requires HasTransportCodes(v.header) && |raw| >= 5
    requires v.code0 == Read16(raw[1], raw[2]) && v.code1 == Read16(raw[3], raw[4])
    ensures raw[1..5] == Codes(v)
  {
    assert LE16(v.code0) == [raw[1], raw[2]] && LE16(v.code1) == [raw[3], raw[4]];
  }

  /** A well-formed packet fits the radio's transmission unit. */
  lemma WireFits(v: View)
    requires WellFormed(v)
    ensures |Wire(v)| <= MAX_TRANS_UNIT
  {
    hide HasTransportCodes, LE16;
  }

  /** A version 1 packet survives the radio. */
  lemma RadioRoundTrip(v: View)
    requires WellFormed(v) && PayloadVer(v.header) == 0
    ensures ParsedFromRadio(Wire(v)) == Some(v)
  {
    FieldsOfWire(v);
  }

  /** Every byte string that the radio side accepts is the wire form of what it accepted. */
  lemma RadioParseIsExact(raw: seq<byte>)
    requires ParsedFromRadio(raw).Some?
    ensures WellFormed(ParsedFromRadio(raw).value) && Wire(ParsedFromRadio(raw).value) == raw
  {
    WireOfFields(raw);
  }

  /** A blob is read back exactly when the packet has a payload. */
  lemma BlobRoundTrip(v: View)
    requires WellFormed(v)
    ensures ParsedFromBlob(Wire(v)) == if |v.payload| > 0 then Some(v) else None
  {
    FieldsOfWire(v);
  }

  /** What the radio side accepts: exactly the wire forms of well-formed packets of version 1, which has the number 0. */
  lemma RadioExactly(raw: seq<byte>, v: View)
    ensures ParsedFromRadio(raw) == Some(v) <==> WellFormed(v) && v.header / 64 == 0 && raw == Wire(v)
  {
    hide Fields, WellFormed, Wire;
    HeaderFirst(v);
    if ParsedFromRadio(raw) == Some(v) {
      WireOfFields(raw);
    }
    if WellFormed(v) && raw == Wire(v) {
      FieldsOfWire(v);
    }
  }

  /** What is read back: exactly the wire forms of well-formed packets with a payload. */
  lemma BlobExactly(raw: seq<byte>, v: View)
    ensures ParsedFromBlob(raw) == Some(v) <==> WellFormed(v) && |v.payload| > 0 && raw == Wire(v)
  {
    hide Fields, WellFormed, Wire;
    if ParsedFromBlob(raw) == Some(v) {
      WireOfFields(raw);
    }
    if WellFormed(v) && raw == Wire(v) {
      FieldsOfWire(v);
    }
  }

  lemma HeaderFirst(v: View)
    ensures |Wire(v)| > 0 && Wire(v)[0] == v.header
  {
    hide LE16;
  }

  /** Where everything stands: header, two codes of two bytes, low byte first, if the route has them, path length, path, payload. */
  lemma WireLayout(v: View)
    ensures var w: seq<int>, at := Wire(v), if v.header % 4 == 0 || v.header % 4 == 3 then 5 else 1;
            && |w| == at + 1 + |v.path| + |v.payload| && w[0] == v.header && w[at] == v.pathLen
            && (at == 5 ==> w[1] + 256 * w[2] == v.code0 && w[3] + 256 * w[4] == v.code1)
            && w[at + 1..at + 1 + |v.path|] == v.path && w[at + 1 + |v.path|..] == v.payload
  {
    hide RouteType;
    var w, at := Wire(v), PathLenAt(v.header);
    var head := [v.header] + Codes(v);
    assert |head| == at && w == head + [v.pathLen] + v.path + v.payload;
    if at == 5 {
      LowAndHigh(v.code0);
      LowAndHigh(v.code1);
    }
    hide LE16;
  }

  lemma LowAndHigh(x: uint16)
    ensures var b: seq<int> := LE16(x); b[0] + 256 * b[1] == x
  {
  }

  /** A well-formed packet: entries of one to three bytes, as many as the low bits say and no more than 64 bytes of them. */
  lemma WellFormedExactly(v: View)
    ensures WellFormed(v) <==>
            && v.pathLen / 64 != 3 && |v.path| == (v.pathLen % 64) * (v.pathLen / 64 + 1) <= 64 && |v.payload| <= 184
            && (v.header % 4 == 0 || v.header % 4 == 3 || (v.code0 == 0 && v.code1 == 0))
  {
    hide HashSize, HashCount, PathByteLen, RouteType;
  }

  // -------------------------------------------------------------------------
  // The packet object
  // -------------------------------------------------------------------------

  class Packet {
    var header: byte
    var payloadLen: uint16
    var pathLen: uint16
    var code0: uint16
    var code1: uint16
    const path: array<byte>
    const payload: array<byte>

    ghost predicate Shape() {
      path.Length == MAX_PATH_SIZE && payload.Length == MAX_PACKET_PAYLOAD && path != payload
    }

    /** The fields describe a packet. */
    ghost predicate Valid()
      reads this
    {
      && Shape() && pathLen < 256 && IsValidPathLen(pathLen) && payloadLen <= MAX_PACKET_PAYLOAD
    }

    /** Codes that the header does not announce are not part of the value. */
    ghost function Contents(): View
      requires Valid()
      reads this, path, payload
    {
      var codes := HasTransportCodes(header);
      View(header, if codes then code0 else 0, if codes then code1 else 0, pathLen, path[..PathByteLen(pathLen)], payload[..payloadLen])
    }

    /** Codes that the header does not announce are zero, as they are after parsing. */
    ghost predicate Clear()
      reads this
    {
      HasTransportCodes(header) || code0 == code1 == 0
    }

    constructor ()
      ensures Valid() && fresh(path) && fresh(payload) && header == 0 && pathLen == payloadLen == code0 == code1 == 0
    {
      header, pathLen, payloadLen, code0, code1 := 0, 0, 0, 0, 0;
      path := new byte[64];
      payload := new byte[184];
    }

    /** getRawLength. */
    method GetRawLength() returns (n: nat)
      requires Valid()
      ensures n == |Wire(Contents())|
    {
      n := 2 + PathByteLen(pathLen) + payloadLen + (if HasTransportCodes(header) then 4 else 0);
    }

    /** The bytes before the payload; checkSend and writeTo write them alike. */
    method WriteHead(dest: array<byte>) returns (i: nat)
      requires Valid() && dest.Length >= MAX_TRANS_UNIT && dest != path && dest != payload
      modifies dest
      ensures i <= 70 && dest[..i] == [header] + Codes(Contents()) + [pathLen] + path[..PathByteLen(pathLen)]
    {
      hide PathByteLen, IsValidPathLen, LE16, HasTransportCodes;
      ValidLen(pathLen);
      dest[0] := header;
      i := 1;
      if HasTransportCodes(header) {
        var a, b := LE16(code0), LE16(code1);
        dest[1], dest[2], dest[3], dest[4] := a[0], a[1], b[0], b[1];
        i := 5;
      }
      assert dest[..i] == [header] + Codes(Contents());
      dest[i] := pathLen;
      i := i + 1;
      assert dest[..i] == [header] + Codes(Contents()) + [pathLen];
      i := WritePath(dest, i, path, 0, pathLen);
      assert path[0..PathByteLen(pathLen)] == path[..PathByteLen(pathLen)];
    }

    /** writeTo. */
    method WriteTo(dest: array<byte>) returns (i: nat)
      requires Valid() && dest.Length >= MAX_TRANS_UNIT && dest != path && dest != payload
      modifies dest
      ensures i <= MAX_TRANS_UNIT && dest[..i] == Wire(Contents())
    {
      hide PathByteLen, IsValidPathLen, Codes;
      i := WriteHead(dest);
      CopyBytes(dest, i, payload, 0, payloadLen);
      i := i + payloadLen;
    }

    /** The head of a received buffer: header and codes. */
    method ReadHead(raw: array<byte>) returns (i: nat)
      requires Shape() && raw.Length >= MAX_TRANS_UNIT
      modifies this
      ensures header == raw[0] && i == PathLenAt(header)
      ensures code0 == (if i == 5 then Read16(raw[1], raw[2]) else 0) && code1 == (if i == 5 then Read16(raw[3], raw[4]) else 0)
    {
      hide Read16, HasTransportCodes;
      header := raw[0];
      if HasTransportCodes(header) {
        code0 := Read16(raw[1], raw[2]);
        code1 := Read16(raw[3], raw[4]);
        i := 5;
      } else {
        code0, code1 := 0, 0;
        i := 1;
      }
    }

    /** Path and payload of a received buffer. */
    method ReadBody(raw: array<byte>, i: nat, n: nat, len: nat)
      requires Shape() && raw != path && raw != payload && n <= MAX_PATH_SIZE && i + n <= len <= raw.Length && len - (i + n) <= MAX_PACKET_PAYLOAD
      modifies this`payloadLen, path, payload
      ensures payloadLen == len - (i + n) && path[..n] == raw[i..i + n] && payload[..payloadLen] == raw[i + n..len]
    {
      CopyBytes(path, 0, raw, i, n);
      payloadLen := len - (i + n);
      CopyBytes(payload, 0, raw, i + n, payloadLen);
    }

    /** tryParsePacket: the result depends on the received bytes only, although shorter ones are looked past. */
    method TryParse(raw: array<byte>, len: nat) returns (ok: bool)
      requires Shape() && raw.Length == MAX_TRANS_UNIT + 1 && 0 < len <= MAX_TRANS_UNIT && raw != path && raw != payload
      modifies this, path, payload
      ensures ok <==> ParsedFromRadio(raw[..len]).Some?
      ensures ok ==> Valid() && Clear() && ParsedFromRadio(raw[..len]) == Some(Contents())
    {
      hide Read16, HasTransportCodes, PayloadVer;
      ghost var bytes := raw[..len];
      var i := ReadHead(raw);
      if PayloadVer(header) > 0 {
        return false;
      }
      pathLen := raw[i];
      i := i + 1;
      var mode := pathLen / 64;
      if mode == 3 {
        return false;
      }
      var n := PathByteLen(pathLen);
      if n > MAX_PATH_SIZE || i + n > len {
        return false;
      }
      if len - (i + n) > MAX_PACKET_PAYLOAD {
        return false;
      }
      ReadBody(raw, i, n, len);
      Slices(raw, len, i, i + n);
      ok := true;
    }

    /** readFrom. */
    method ReadFrom(raw: array<byte>, len: nat) returns (ok: bool)
      requires Shape() && raw.Length >= MAX_TRANS_UNIT && 0 < len <= MAX_TRANS_UNIT && raw != path && raw != payload
      modifies this, path, payload
      ensures ok <==> ParsedFromBlob(raw[..len]).Some?
      ensures ok ==> Valid() && ParsedFromBlob(raw[..len]) == Some(Contents())
    {
      hide Read16, HasTransportCodes;
      ghost var bytes := raw[..len];
      var i := ReadHead(raw);
      pathLen := raw[i];
      i := i + 1;
      if !IsValidPathLen(pathLen) {
        return false;
      }
      var n := PathByteLen(pathLen);
      if i + n >= len {
        return false;
      }
      if len - (i + n) > MAX_PACKET_PAYLOAD {
        return false;
      }
      ReadBody(raw, i, n, len);
      Slices(raw, len, i, i + n);
      ok := true;
    }
  }

  lemma Slices(a: array<byte>, len: nat, from: nat, to: nat)
    requires from <= to <= len <= a.Length
    ensures a[..len][from..to] == a[from..to] && a[..len][to..] == a[to..len]
  {
    var s := a[..len];
    forall k: nat | k < to - from
      ensures s[from..to][k] == a[from..to][k]
    {
      assert s[from + k] == a[from + k];
    }
    forall k: nat | k < len - to
      ensures s[to..][k] == a[to..len][k]
    {
      assert s[to + k] == a[to + k];
    }
  }

  /** writePath: nothing is written for a length that does not fit. */
  method WritePath(dest: array<byte>, at: nat, path: array<byte>, from: nat, pathLen: byte) returns (end: nat)
    requires dest != path && at + MAX_PATH_SIZE <= dest.Length
    requires HashCount(pathLen) * HashSize(pathLen) <= MAX_PATH_SIZE ==> from + PathByteLen(pathLen) <= path.Length
    modifies dest
    ensures var n := if HashCount(pathLen) * HashSize(pathLen) <= MAX_PATH_SIZE then PathByteLen(pathLen) else 0;
            n <= MAX_PATH_SIZE && end == at + n && (n > 0 ==> from + n <= path.Length)
            && dest[..end] == old(dest[..at]) + (if n > 0 then path[from..from + n] else []) && dest[end..] == old(dest[end..])
  {
    var len := HashCount(pathLen) * HashSize(pathLen);
    if len > MAX_PATH_SIZE {
      return at;
    }
    CopyBytes(dest, at, path, from, len);
    end := at + len;
  }
}
