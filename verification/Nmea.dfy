/**
 The NMEA 0183 sentence parser of src/module_shims/gps-nmea.c as a step function, a printer for
 RMC and GGA sentences, and the proof that the parser publishes what was printed.
 */
module Nmea {
  import opened Bytes

  const COMMA: byte := ',' as int
  const CR: byte := 13
  const LF: byte := 10
  const STAR: byte := '*' as int
  const DOLLAR: byte := '$' as int

  const GPRMC: seq<byte> := ['G' as int, 'P' as int, 'R' as int, 'M' as int, 'C' as int]
  const GPGGA: seq<byte> := ['G' as int, 'P' as int, 'G' as int, 'G' as int, 'A' as int]

  const GPS_BUFF_LEN := 30

  datatype MsgType = UNSET | GPRMC_MSG | GPGGA_MSG | IGNORE_MSG

  datatype GpsData = GpsData(
    hasFix: bool, checksumPassed: bool, latitude: real, longitude: real, speed: real,
    date: real, timeUTC: real, satellites: int, altitude: real)

  const NO_DATA := GpsData(false, false, 0.0, 0.0, 0.0, 0.0, 0.0, 0, 0.0)

  /** The number conversions of the C library, left uninterpreted. */
  datatype CLib = CLib(atof: seq<byte> -> real, atoi: seq<byte> -> int)

  /** C11 7.22.1: a string holding no number converts to zero. */
  ghost predicate ZeroOnEmpty(lib: CLib) {
    lib.atof([]) == 0.0 && lib.atoi([]) == 0
  }

  /** The parser's globals. `field` is gps_buff up to gps_buff_pos. */
  datatype Parser = Parser(
    field: seq<byte>, checksum: byte, onChecksum: bool, ignoring: bool,
    msgPos: nat, msgType: MsgType, data: GpsData, hold: GpsData)

  // ---------------------------------------------------------------- C strings

  /** The C string stored in a char buffer: everything before the first NUL. */
  function CStr(s: seq<byte>): (r: seq<byte>)
    ensures 0 !in r && r <= s && (|r| < |s| ==> s[|r|] == 0)
  {
    if s == [] || s[0] == 0 then [] else [s[0]] + CStr(s[1..])
  }

  /** `s[0]` of a C string, which is NUL when the string is empty. */
  function First(s: seq<byte>): byte {
    if s == [] then 0 else s[0]
  }

  lemma {:induction false} CStrStopsAtPadding(s: seq<byte>, n: nat)
    requires n < |s|
    requires forall i :: n <= i < |s| ==> s[i] == 0
    ensures CStr(s) == CStr(s[..n])
  {
    if n > 0 && s[0] != 0 {
      CStrStopsAtPadding(s[1..], n - 1);
      assert s[1..][..n - 1] == s[..n][1..];
    }
  }

  // ---------------------------------------------------------------- strtol(s, NULL, 16)

  predicate IsSpace(c: byte) {
    c == 32 || 9 <= c <= 13
  }

  /** The value of a hexadecimal digit, or -1. */
  function HexDigit(c: byte): (v: int)
    ensures -1 <= v < 16
  {
    if '0' as int <= c <= '9' as int then c - '0' as int
    else if 'A' as int <= c <= 'F' as int then c - 'A' as int + 10
    else if 'a' as int <= c <= 'f' as int then c - 'a' as int + 10
    else -1
  }

  function SkipSpace(s: seq<byte>): seq<byte> {
    if s != [] && IsSpace(s[0]) then SkipSpace(s[1..]) else s
  }

  function HexRun(s: seq<byte>, acc: nat): nat {
    if s != [] && HexDigit(s[0]) >= 0 then HexRun(s[1..], 16 * acc + HexDigit(s[0])) else acc
  }

  /** A hexadecimal number, with or without 0x before its digits. */
  function Magnitude(u: seq<byte>): nat {
    HexRun(if Prefixed(u) then u[2..] else u, 0)
  }

  predicate Prefixed(u: seq<byte>) {
    |u| >= 3 && u[0] == '0' as int && (u[1] == 'x' as int || u[1] == 'X' as int) && HexDigit(u[2]) >= 0
  }

  /** strtol in base 16 with a 32-bit long: blanks, a sign, an optional 0x, digits, saturation. */
  function Strtol16(s: seq<byte>): int {
    var t := SkipSpace(s);
    var signed := t != [] && (t[0] == '-' as int || t[0] == '+' as int);
    var u := if signed then t[1..] else t;
    var n := Magnitude(u);
    if signed && t[0] == '-' as int then -Min(n, 0x8000_0000) else Min(n, 0x7FFF_FFFF)
  }

  lemma HexDigitsAre(c: byte)
    ensures HexDigit(c) >= 0 <==> 48 <= c <= 57 || 65 <= c <= 70 || 97 <= c <= 102
    ensures HexDigit(c) >= 0 ==> (HexDigit(c) < 10 <==> c <= 57) && (HexDigit(c) - c) % 16 == (if c <= 57 then 0 else 9)
  {}

  predicate AllHex(ds: seq<byte>) {
    forall i :: 0 <= i < |ds| ==> HexDigit(ds[i]) >= 0
  }

  /** The number that hexadecimal digits stand for, the last one counting once. */
  function HexValue(ds: seq<byte>): nat
    requires AllHex(ds)
  {
    if ds == [] then 0 else 16 * HexValue(ds[..|ds| - 1]) + HexDigit(ds[|ds| - 1])
  }

  predicate NoMoreDigits(rest: seq<byte>) {
    rest == [] || HexDigit(rest[0]) < 0
  }

  lemma HexValueSnoc(before: seq<byte>, d: byte)
    requires AllHex(before) && HexDigit(d) >= 0
    ensures AllHex(before + [d]) && HexValue(before + [d]) == 16 * HexValue(before) + HexDigit(d)
  {
    assert (before + [d])[..|before|] == before;
  }

  lemma {:induction false} HexRunIsValue(before: seq<byte>, ds: seq<byte>, rest: seq<byte>)
    requires AllHex(before) && AllHex(ds) && NoMoreDigits(rest)
    ensures AllHex(before + ds) && HexRun(ds + rest, HexValue(before)) == HexValue(before + ds)
    decreases ds
  {
    if ds == [] {
      assert ds + rest == rest && before + ds == before;
    } else {
      var next := before + [ds[0]];
      HexValueSnoc(before, ds[0]);
      TailOfConcat(ds, rest);
      assert before + ds == next + ds[1..];
      HexRunIsValue(next, ds[1..], rest);
    }
  }

  lemma {:induction false} SpacesSkipped(spaces: seq<byte>, s: seq<byte>)
    requires (forall i :: 0 <= i < |spaces| ==> spaces[i] == 32 || 9 <= spaces[i] <= 13) && s != [] && !IsSpace(s[0])
    ensures SkipSpace(spaces + s) == s
    decreases spaces
  {
    if spaces == [] {
      assert spaces + s == s;
    } else {
      assert (spaces + s)[1..] == spaces[1..] + s;
      SpacesSkipped(spaces[1..], s);
    }
  }

  predicate IsSign(sign: seq<byte>) {
    sign == [] || sign == [43] || sign == [45]
  }

  predicate IsPrefix0x(prefix: seq<byte>) {
    prefix == [] || prefix == [48, 120] || prefix == [48, 88]
  }

  /** Digits behind a zero and an x would make those the prefix. */
  predicate HidesPrefix(ds: seq<byte>, rest: seq<byte>) {
    ds == [48] && |rest| >= 2 && (rest[0] == 120 || rest[0] == 88) && HexDigit(rest[1]) >= 0
  }

  /** What the checksum field stands for: blanks, a sign and 0x may come before the digits, anything else behind. */
  lemma StrtolForm(spaces: seq<byte>, sign: seq<byte>, prefix: seq<byte>, ds: seq<byte>, rest: seq<byte>)
    requires forall i :: 0 <= i < |spaces| ==> spaces[i] == 32 || 9 <= spaces[i] <= 13
    requires IsSign(sign) && IsPrefix0x(prefix) && ds != [] && AllHex(ds) && NoMoreDigits(rest)
    requires prefix == [] ==> !HidesPrefix(ds, rest)
    ensures Strtol16(spaces + (sign + (prefix + (ds + rest)))) as int
         == if sign == [45] then (if HexValue(ds) > 0x8000_0000 then -0x8000_0000 else 0 - HexValue(ds))
            else if HexValue(ds) > 0x7FFF_FFFF then 0x7FFF_FFFF else HexValue(ds)
  {
    var u := prefix + (ds + rest);
    MagnitudeIs(prefix, ds, rest);
    HexDigitsAre(ds[0]);
    assert u[0] == if prefix != [] then 48 else ds[0];
    SpacesSkipped(spaces, sign + u);
    SignRead(sign, u);
  }

  lemma SignRead(sign: seq<byte>, u: seq<byte>)
    requires IsSign(sign) && u != [] && !IsSpace(u[0]) && u[0] != 43 && u[0] != 45
    ensures !IsSpace((sign + u)[0])
    ensures Strtol16(sign + u) == if sign == [45] then -Min(Magnitude(u), 0x8000_0000) else Min(Magnitude(u), 0x7FFF_FFFF)
  {
    if sign == [] {
      assert sign + u == u;
    } else {
      assert (sign + u)[1..] == u;
    }
  }

  lemma MagnitudeIs(prefix: seq<byte>, ds: seq<byte>, rest: seq<byte>)
    requires IsPrefix0x(prefix) && ds != [] && AllHex(ds) && NoMoreDigits(rest)
    requires prefix == [] ==> !HidesPrefix(ds, rest)
    ensures Magnitude(prefix + (ds + rest)) == HexValue(ds)
  {
    PrefixDropped(prefix, ds, rest);
    HexRunIsValue([], ds, rest);
    assert [] + ds == ds;
  }

  lemma PrefixDropped(prefix: seq<byte>, ds: seq<byte>, rest: seq<byte>)
    requires IsPrefix0x(prefix) && ds != [] && AllHex(ds) && NoMoreDigits(rest)
    requires prefix == [] ==> !HidesPrefix(ds, rest)
    ensures var u := prefix + (ds + rest); (if Prefixed(u) then u[2..] else u) == ds + rest
  {
    var u := prefix + (ds + rest);
    if prefix == [] {
      assert u == ds + rest;
      if |ds| > 1 {
        assert u[1] == ds[1];
        HexDigitsAre(ds[1]);
      } else {
        assert ds == [ds[0]];
        assert |rest| >= 1 ==> u[1] == rest[0];
        assert |rest| >= 2 ==> u[2] == rest[1];
      }
    } else {
      assert u[2] == ds[0];
      assert u[2..] == ds + rest;
    }
  }

  /** Without digits in their place the number is zero. */
  lemma StrtolNothing(spaces: seq<byte>, s: seq<byte>)
    requires forall i :: 0 <= i < |spaces| ==> spaces[i] == 32 || 9 <= spaces[i] <= 13
    requires s != [] && s[0] != 32 && !(9 <= s[0] <= 13) && s[0] != 43 && s[0] != 45 && HexDigit(s[0]) < 0
    ensures Strtol16(spaces + s) == 0
  {
    SpacesSkipped(spaces, s);
    HexDigitsAre(48);
  }

  lemma StrtolHexPair(h: byte, l: byte)
    requires HexDigit(h) >= 0 && HexDigit(l) >= 0
    ensures Strtol16(CStr([h, l])) == 16 * HexDigit(h) + HexDigit(l)
  {
    var s := [h, l];
    assert s[1..] == [l] && [l][1..] == [];
    assert CStr(s) == s;
    assert SkipSpace(s) == s;
    assert HexRun([l], HexDigit(h)) == HexRun([], 16 * HexDigit(h) + HexDigit(l));
    assert HexRun(s, 0) == HexRun([l], HexDigit(h));
    assert Strtol16(s) == Min(HexRun(s, 0), 0x7FFF_FFFF);
  }

  lemma StrtolEmpty()
    ensures Strtol16(CStr([])) == 0
  {}

  // ---------------------------------------------------------------- gps_parse, gps_cleanup, gps_consume

  /** GPS_UNIQUE_CASE(type, pos): `(type << 5) | pos` for the two types that are switched on. */
  function UniqueCase(ty: MsgType, pos: nat): nat {
    Or(pos, if ty == GPRMC_MSG then 32 else 64)
  }

  function Rmc(pos: nat): nat { 32 + pos }
  function Gga(pos: nat): nat { 64 + pos }

  /** The switch of gps_parse: stores the value of the field at position `pos`. */
  function Assign(lib: CLib, ty: MsgType, pos: nat, s: seq<byte>, d: GpsData): GpsData {
    var k := UniqueCase(ty, pos);
    if k == Rmc(1) || k == Gga(1) then d.(timeUTC := lib.atof(s))
    else if k == Rmc(2) then d.(hasFix := First(s) == 'A' as int)
    else if k == Rmc(3) || k == Gga(2) then d.(latitude := lib.atof(s))
    else if k == Rmc(4) || k == Gga(3) then
      d.(latitude := if First(s) == 'N' as int then d.latitude else -d.latitude)
    else if k == Rmc(5) || k == Gga(4) then d.(longitude := lib.atof(s))
    else if k == Rmc(6) || k == Gga(5) then
      d.(longitude := if First(s) == 'E' as int then d.longitude else -d.longitude)
    else if k == Rmc(7) then d.(speed := lib.atof(s))
    else if k == Rmc(9) then d.(date := lib.atof(s))
    else if k == Gga(6) then d.(hasFix := First(s) > '0' as int)
    else if k == Gga(7) then d.(satellites := lib.atoi(s))
    else if k == Gga(9) then d.(altitude := lib.atof(s))
    else d
  }

  function Cleanup(p: Parser): Parser {
    p.(onChecksum := false, field := [], data := NO_DATA)
  }

  function NextPos(pos: nat): nat { (pos + 1) % 0x1_0000_0000 }

  /** The part of gps_parse that looks at the field just ended. */
  function ParseField(lib: CLib, p: Parser): Parser {
    var s := CStr(p.field);
    if |p.field| == 5 && p.msgPos == 0 then
      var q := if s == GPRMC then p.(msgType := GPRMC_MSG)
               else if s == GPGGA then p.(msgType := GPGGA_MSG)
               else p.(ignoring := true, msgType := IGNORE_MSG);
      q.(msgPos := NextPos(p.msgPos), field := [])
    else if p.msgType == GPRMC_MSG || p.msgType == GPGGA_MSG then
      p.(data := Assign(lib, p.msgType, p.msgPos, s, p.data), msgPos := NextPos(p.msgPos), field := [])
    else
      p.(field := [])
  }

  predicate ChecksumMatches(p: Parser) {
    p.onChecksum && p.checksum == Strtol16(CStr(p.field))
  }

  function Parse(lib: CLib, p: Parser): (Parser, bool) {
    if ChecksumMatches(p) then
      var d := p.data.(checksumPassed := true);
      (p.(data := d, hold := d), true)
    else
      (ParseField(lib, if p.onChecksum then Cleanup(p) else p), false)
  }

  predicate IsTerminator(c: byte) {
    c == COMMA || c == CR || c == LF || c == STAR
  }

  /** gps_consume: one character, and whether a sentence was published. */
  function Consume(lib: CLib, p: Parser, c: byte): (Parser, bool) {
    if p.ignoring && c != DOLLAR then (p, false)
    else if IsTerminator(c) then
      var q := if c == COMMA then p.(checksum := Xor(p.checksum, c)) else p;
      var (r, published) := Parse(lib, q);
      (if c != COMMA then r.(onChecksum := true) else r, published)
    else if c == DOLLAR then
      (Cleanup(Parse(lib, p).0).(checksum := 0, ignoring := false, msgType := IGNORE_MSG, msgPos := 0), false)
    else
      (p.(field := p.field + [c], checksum := if p.onChecksum then p.checksum else Xor(p.checksum, c)), false)
  }

  function ConsumeAll(lib: CLib, p: Parser, s: seq<byte>): Parser
    decreases s
  {
    if s == [] then p else ConsumeAll(lib, Consume(lib, p, s[0]).0, s[1..])
  }

  lemma {:induction false} ConsumeAllAppend(lib: CLib, p: Parser, s: seq<byte>, t: seq<byte>)
    ensures ConsumeAll(lib, p, s + t) == ConsumeAll(lib, ConsumeAll(lib, p, s), t)
    decreases s
  {
    if s == [] {
      assert s + t == t;
    } else {
      assert (s + t)[1..] == s[1..] + t;
      ConsumeAllAppend(lib, Consume(lib, p, s[0]).0, s[1..], t);
    }
  }

  // ---------------------------------------------------------------- printer

  function XorAll(ck: byte, s: seq<byte>): byte
    decreases s
  {
    if s == [] then ck else XorAll(Xor(ck, s[0]), s[1..])
  }

  /** A character that gps_consume stores and that does not end a C string. */
  predicate Plain(c: byte) {
    c != 44 && c != 13 && c != 10 && c != 42 && c != 36 && c != 0
  }

  predicate PlainField(f: seq<byte>) {
    |f| <= 29 && forall i :: 0 <= i < |f| ==> Plain(f[i])
  }

  /** Fewer than 32 fields, so that GPS_UNIQUE_CASE keeps type and position apart. */
  predicate WellFormed(ty: MsgType, fs: seq<seq<byte>>) {
    (ty == GPRMC_MSG || ty == GPGGA_MSG) && |fs| < 32 && forall i :: 0 <= i < |fs| ==> PlainField(fs[i])
  }

  function TypeName(ty: MsgType): seq<byte> {
    if ty == GPRMC_MSG then GPRMC else GPGGA
  }

  function JoinFields(fs: seq<seq<byte>>): seq<byte> {
    if fs == [] then [] else [COMMA] + fs[0] + JoinFields(fs[1..])
  }

  /** The characters between `$` and `*`, over which the checksum runs. */
  function Body(ty: MsgType, fs: seq<seq<byte>>): seq<byte> {
    TypeName(ty) + JoinFields(fs)
  }

  function Checksum(ty: MsgType, fs: seq<seq<byte>>): byte {
    XorAll(0, Body(ty, fs))
  }

  function HexChar(v: nat): byte
    requires v < 16
  {
    if v < 10 then '0' as int + v else 'A' as int + v - 10
  }

  /** The sentence up to and including its `*`, then the two given checksum characters and CR LF. */
  function Sentence(ty: MsgType, fs: seq<seq<byte>>, h: byte, l: byte): seq<byte> {
    [DOLLAR] + (Body(ty, fs) + ([STAR, h, l, CR, LF]))
  }

  /** A complete sentence with its own checksum, NMEA 0183 section 5.3. */
  function Print(ty: MsgType, fs: seq<seq<byte>>): seq<byte> {
    var ck := Checksum(ty, fs);
    Sentence(ty, fs, HexChar(ck / 16), HexChar(ck % 16))
  }

  // ---------------------------------------------------------------- what a sentence means

  function NumberAt(lib: CLib, fs: seq<seq<byte>>, i: nat): real {
    if i < |fs| then lib.atof(fs[i]) else 0.0
  }

  /** A coordinate: the number in field i, negated unless field i+1 starts with the positive letter. */
  function Coordinate(lib: CLib, fs: seq<seq<byte>>, i: nat, positive: byte): real {
    var x := NumberAt(lib, fs, i);
    if i + 1 < |fs| && First(fs[i + 1]) != positive then -x else x
  }

  /** The record carried by a sentence, read straight off the field tables of RMC and GGA. */
  function Record(lib: CLib, ty: MsgType, fs: seq<seq<byte>>): GpsData {
    if ty == GPRMC_MSG then
      GpsData(1 < |fs| && First(fs[1]) == 'A' as int, false,
              Coordinate(lib, fs, 2, 'N' as int), Coordinate(lib, fs, 4, 'E' as int),
              NumberAt(lib, fs, 6), NumberAt(lib, fs, 8), NumberAt(lib, fs, 0), 0, 0.0)
    else
      GpsData(5 < |fs| && First(fs[5]) > '0' as int, false,
              Coordinate(lib, fs, 1, 'N' as int), Coordinate(lib, fs, 3, 'E' as int),
              0.0, 0.0, NumberAt(lib, fs, 0), if 6 < |fs| then lib.atoi(fs[6]) else 0, NumberAt(lib, fs, 8))
  }

  // ---------------------------------------------------------------- the parser inverts the printer

  /** The one state in which every `$` leaves the parser, whatever came before. */
  function Canonical(hold: GpsData): Parser {
    Parser([], 0, false, false, 0, IGNORE_MSG, NO_DATA, hold)
  }

  /** What gps_data_hold holds after a `$`: a sentence whose checksum was matching is published again. */
  function HoldAfterDollar(p: Parser): GpsData {
    if ChecksumMatches(p) then p.data.(checksumPassed := true) else p.hold
  }

  lemma DollarResets(lib: CLib, p: Parser)
    ensures Consume(lib, p, DOLLAR).0 == Canonical(HoldAfterDollar(p))
  {
    var q := if p.onChecksum then Cleanup(p) else p;
    assert ParseField(lib, q).hold == p.hold;
  }

  /** The state once the message type and the first i fields have been read; field i is still in the buffer. */
  function Reading(lib: CLib, ty: MsgType, fs: seq<seq<byte>>, i: nat, ck: byte, hold: GpsData): Parser
    requires i <= |fs|
  {
    if i == 0 then Parser(TypeName(ty), ck, false, false, 0, IGNORE_MSG, NO_DATA, hold)
    else Parser(fs[i - 1], ck, false, false, i, ty, Record(lib, ty, fs[..i - 1]), hold)
  }

  lemma {:induction false} ConsumePlain(lib: CLib, p: Parser, f: seq<byte>)
    requires !p.ignoring && forall i :: 0 <= i < |f| ==> Plain(f[i])
    ensures ConsumeAll(lib, p, f)
         == p.(field := p.field + f, checksum := if p.onChecksum then p.checksum else XorAll(p.checksum, f))
    decreases f
  {
    if f == [] {
      assert p.field + f == p.field;
    } else {
      var q := Consume(lib, p, f[0]).0;
      ConsumePlain(lib, q, f[1..]);
      assert p.field + [f[0]] + f[1..] == p.field + f;
    }
  }

  lemma UniqueCaseIs(ty: MsgType, pos: nat)
    requires pos < 32
    ensures UniqueCase(ty, pos) == if ty == GPRMC_MSG then Rmc(pos) else Gga(pos)
  {
    assert IsPowerOfTwo(32) && IsPowerOfTwo(64);
    OrAbove(pos, if ty == GPRMC_MSG then 32 else 64);
  }

  /** Parsing one more field extends the record by exactly that field. */
  lemma AssignExtendsRecord(lib: CLib, ty: MsgType, fs: seq<seq<byte>>, i: nat)
    requires WellFormed(ty, fs) && 0 < i <= |fs|
    ensures Assign(lib, ty, i, fs[i - 1], Record(lib, ty, fs[..i - 1])) == Record(lib, ty, fs[..i])
  {
    UniqueCaseIs(ty, i);
    assert fs[..i][..i - 1] == fs[..i - 1];
    if ty == GPRMC_MSG {
      AssignExtendsRmc(lib, fs[..i]);
    } else {
      AssignExtendsGga(lib, fs[..i]);
    }
  }

  lemma AssignExtendsRmc(lib: CLib, fs: seq<seq<byte>>)
    requires fs != [] && UniqueCase(GPRMC_MSG, |fs|) == Rmc(|fs|) && |fs| < 32
    ensures Assign(lib, GPRMC_MSG, |fs|, fs[|fs| - 1], Record(lib, GPRMC_MSG, fs[..|fs| - 1]))
         == Record(lib, GPRMC_MSG, fs)
  {}

  lemma AssignExtendsGga(lib: CLib, fs: seq<seq<byte>>)
    requires fs != [] && UniqueCase(GPGGA_MSG, |fs|) == Gga(|fs|) && |fs| < 32
    ensures Assign(lib, GPGGA_MSG, |fs|, fs[|fs| - 1], Record(lib, GPGGA_MSG, fs[..|fs| - 1]))
         == Record(lib, GPGGA_MSG, fs)
  {}

  lemma EndOfField(lib: CLib, ty: MsgType, fs: seq<seq<byte>>, i: nat, ck: byte, hold: GpsData)
    requires WellFormed(ty, fs) && i <= |fs|
    ensures Parse(lib, Reading(lib, ty, fs, i, ck, hold))
         == (Parser([], ck, false, false, i + 1, ty, Record(lib, ty, fs[..i]), hold), false)
  {
    if i > 0 {
      assert PlainField(fs[i - 1]);
      assert CStr(fs[i - 1]) == fs[i - 1];
      AssignExtendsRecord(lib, ty, fs, i);
    } else {
      assert CStr(GPRMC) == GPRMC && CStr(GPGGA) == GPGGA;
      assert GPRMC[2] != GPGGA[2];
      assert fs[..0] == [];
    }
  }

  lemma OneField(lib: CLib, ty: MsgType, fs: seq<seq<byte>>, i: nat, ck: byte, hold: GpsData)
    requires WellFormed(ty, fs) && i < |fs|
    ensures ConsumeAll(lib, Reading(lib, ty, fs, i, ck, hold), [COMMA] + fs[i])
         == Reading(lib, ty, fs, i + 1, XorAll(ck, [COMMA] + fs[i]), hold)
  {
    var p := Reading(lib, ty, fs, i, ck, hold);
    var ck' := Xor(ck, COMMA);
    EndOfField(lib, ty, fs, i, ck', hold);
    var q := Parser([], ck', false, false, i + 1, ty, Record(lib, ty, fs[..i]), hold);
    assert p.(checksum := ck') == Reading(lib, ty, fs, i, ck', hold);
    assert Consume(lib, p, COMMA).0 == q;
    assert ([COMMA] + fs[i])[1..] == fs[i];
    assert PlainField(fs[i]);
    ConsumePlain(lib, q, fs[i]);
    assert [] + fs[i] == fs[i];
  }

  lemma {:induction false} XorAllAppend(ck: byte, s: seq<byte>, t: seq<byte>)
    ensures XorAll(ck, s + t) == XorAll(XorAll(ck, s), t)
    decreases s
  {
    if s == [] {
      assert s + t == t;
    } else {
      assert (s + t)[1..] == s[1..] + t;
      XorAllAppend(Xor(ck, s[0]), s[1..], t);
    }
  }

  lemma {:induction false} AllFields(lib: CLib, ty: MsgType, fs: seq<seq<byte>>, i: nat, ck: byte, hold: GpsData)
    requires WellFormed(ty, fs) && i <= |fs|
    ensures ConsumeAll(lib, Reading(lib, ty, fs, i, ck, hold), JoinFields(fs[i..]))
         == Reading(lib, ty, fs, |fs|, XorAll(ck, JoinFields(fs[i..])), hold)
    decreases |fs| - i
  {
    if i < |fs| {
      var head, tail := [COMMA] + fs[i], JoinFields(fs[i + 1..]);
      assert fs[i..][1..] == fs[i + 1..];
      assert JoinFields(fs[i..]) == head + tail;
      ConsumeAllAppend(lib, Reading(lib, ty, fs, i, ck, hold), head, tail);
      XorAllAppend(ck, head, tail);
      OneField(lib, ty, fs, i, ck, hold);
      AllFields(lib, ty, fs, i + 1, XorAll(ck, head), hold);
    }
  }

  /** `$` and the body, from any state whatever: everything has been read except the last field. */
  lemma ConsumeBody(lib: CLib, p: Parser, ty: MsgType, fs: seq<seq<byte>>)
    requires WellFormed(ty, fs)
    ensures ConsumeAll(lib, p, [DOLLAR] + Body(ty, fs))
         == Reading(lib, ty, fs, |fs|, Checksum(ty, fs), HoldAfterDollar(p))
  {
    var hold := HoldAfterDollar(p);
    DollarResets(lib, p);
    assert ([DOLLAR] + Body(ty, fs))[1..] == Body(ty, fs);
    var name := TypeName(ty);
    ConsumeAllAppend(lib, Canonical(hold), name, JoinFields(fs));
    ConsumePlain(lib, Canonical(hold), name);
    assert [] + name == name;
    XorAllAppend(0, name, JoinFields(fs));
    assert fs[0..] == fs;
    AllFields(lib, ty, fs, 0, XorAll(0, name), hold);
  }

  /** The state when the two checksum characters are in the buffer and CR is next. */
  function AtChecksum(lib: CLib, ty: MsgType, fs: seq<seq<byte>>, h: byte, l: byte, hold: GpsData): Parser {
    Parser([h, l], Checksum(ty, fs), true, false, |fs| + 1, ty, Record(lib, ty, fs), hold)
  }

  lemma ConsumeToChecksum(lib: CLib, p: Parser, ty: MsgType, fs: seq<seq<byte>>, h: byte, l: byte)
    requires WellFormed(ty, fs) && HexDigit(h) >= 0 && HexDigit(l) >= 0
    ensures ConsumeAll(lib, p, [DOLLAR] + Body(ty, fs) + [STAR, h, l])
         == AtChecksum(lib, ty, fs, h, l, HoldAfterDollar(p))
  {
    var hold, ck := HoldAfterDollar(p), Checksum(ty, fs);
    ConsumeBody(lib, p, ty, fs);
    ConsumeAllAppend(lib, p, [DOLLAR] + Body(ty, fs), [STAR, h, l]);
    EndOfField(lib, ty, fs, |fs|, ck, hold);
    assert fs[..|fs|] == fs;
    var q := Parser([], ck, true, false, |fs| + 1, ty, Record(lib, ty, fs), hold);
    assert Consume(lib, Reading(lib, ty, fs, |fs|, ck, hold), STAR).0 == q;
    assert [STAR, h, l][1..] == [h, l];
    ConsumePlain(lib, q, [h, l]);
    assert [] + [h, l] == [h, l];
  }

  lemma SplitSentence(lib: CLib, p: Parser, ty: MsgType, fs: seq<seq<byte>>, h: byte, l: byte)
    ensures ConsumeAll(lib, p, Sentence(ty, fs, h, l))
         == ConsumeAll(lib, ConsumeAll(lib, p, [DOLLAR] + Body(ty, fs) + [STAR, h, l]), [CR, LF])
  {
    assert Sentence(ty, fs, h, l) == [DOLLAR] + Body(ty, fs) + [STAR, h, l] + [CR, LF];
    ConsumeAllAppend(lib, p, [DOLLAR] + Body(ty, fs) + [STAR, h, l], [CR, LF]);
  }

  lemma ConsumeTwo(lib: CLib, p: Parser, c: byte, d: byte)
    ensures ConsumeAll(lib, p, [c, d]) == Consume(lib, Consume(lib, p, c).0, d).0
  {
    var q := Consume(lib, p, c).0;
    assert [c, d][1..] == [d];
    assert ConsumeAll(lib, q, [d]) == ConsumeAll(lib, Consume(lib, q, d).0, []);
  }

  /** A line end, or another `*`, behind a matching checksum publishes and keeps everything else. */
  lemma LineEndPublishes(lib: CLib, p: Parser, c: byte)
    requires ChecksumMatches(p) && !p.ignoring && (c == CR || c == LF || c == STAR)
    ensures var d := p.data.(checksumPassed := true);
            Consume(lib, p, c) == (p.(data := d, hold := d), true)
  {}

  /** A line end behind a failing checksum publishes nothing and stays in wait of a checksum, with an empty buffer. */
  lemma LineEndRejects(lib: CLib, p: Parser, c: byte)
    requires p.onChecksum && !ChecksumMatches(p) && !p.ignoring && (c == CR || c == LF || c == STAR)
    ensures var (q, published) := Consume(lib, p, c);
            !published && q.hold == p.hold && q.checksum == p.checksum && q.field == []
            && q.onChecksum && !q.ignoring
  {}

  /** With conversions that give zero for nothing, it leaves the data scrubbed. */
  lemma LineEndDiscards(lib: CLib, p: Parser, c: byte)
    requires p.onChecksum && !ChecksumMatches(p) && !p.ignoring && (c == CR || c == LF)
    requires ZeroOnEmpty(lib)
    ensures Consume(lib, p, c).0.data == NO_DATA
  {
    AssignEmpty(lib, p.msgType, p.msgPos);
    assert CStr([]) == [];
  }

  /**
   The parser inverts the printer from any state. CR publishes the record of the sentence, and LF and
   the `$` of the next sentence publish the same record again.
   */
  lemma PrintThenConsume(lib: CLib, p: Parser, ty: MsgType, fs: seq<seq<byte>>)
    requires WellFormed(ty, fs)
    ensures var d := Record(lib, ty, fs).(checksumPassed := true);
            var q := ConsumeAll(lib, p, Print(ty, fs));
            q.hold == d && Consume(lib, q, DOLLAR).0 == Canonical(d)
            && Consume(lib, q, LF) == (q, true)
  {
    var ck := Checksum(ty, fs);
    var h, l := HexChar(ck / 16), HexChar(ck % 16);
    StrtolHexPair(h, l);
    SplitSentence(lib, p, ty, fs, h, l);
    ConsumeToChecksum(lib, p, ty, fs, h, l);
    var q := AtChecksum(lib, ty, fs, h, l, HoldAfterDollar(p));
    var r := Consume(lib, q, CR).0;
    ConsumeTwo(lib, q, CR, LF);
    LineEndPublishes(lib, q, CR);
    LineEndPublishes(lib, r, LF);
    DollarResets(lib, r);
  }

  /** The field begins with this character. */
  predicate BeginsWith(f: seq<byte>, c: byte) {
    f != [] && f[0] == c
  }

  /**
   The record of an RMC sentence on the bytes of its fields: time, status, latitude, N or S, longitude, E or W,
   speed and, behind the course, the date.
   */
  lemma PublishedRmc(lib: CLib, p: Parser, fs: seq<seq<byte>>)
    requires WellFormed(GPRMC_MSG, fs)
    ensures var d := ConsumeAll(lib, p, Print(GPRMC_MSG, fs)).hold;
            && Print(GPRMC_MSG, fs)[..6] == [36, 71, 80, 82, 77, 67] && d.checksumPassed
            && (d.hasFix <==> |fs| > 1 && BeginsWith(fs[1], 65))
            && d.timeUTC == (if |fs| > 0 then lib.atof(fs[0]) else 0.0)
            && d.latitude == (if |fs| <= 2 then 0.0
                              else if |fs| > 3 && !BeginsWith(fs[3], 78) then -lib.atof(fs[2]) else lib.atof(fs[2]))
            && d.longitude == (if |fs| <= 4 then 0.0
                               else if |fs| > 5 && !BeginsWith(fs[5], 69) then -lib.atof(fs[4]) else lib.atof(fs[4]))
            && d.speed == (if |fs| > 6 then lib.atof(fs[6]) else 0.0)
            && d.date == (if |fs| > 8 then lib.atof(fs[8]) else 0.0)
            && d.satellites == 0 && d.altitude == 0.0
  {
    PrintThenConsume(lib, p, GPRMC_MSG, fs);
  }

  /**
   The record of a GGA sentence on the bytes of its fields: time, latitude, N or S, longitude, E or W, quality,
   number of satellites and, behind the dilution, the altitude.
   */
  lemma PublishedGga(lib: CLib, p: Parser, fs: seq<seq<byte>>)
    requires WellFormed(GPGGA_MSG, fs)
    ensures var d := ConsumeAll(lib, p, Print(GPGGA_MSG, fs)).hold;
            && Print(GPGGA_MSG, fs)[..6] == [36, 71, 80, 71, 71, 65] && d.checksumPassed
            && (d.hasFix <==> |fs| > 5 && fs[5] != [] && fs[5][0] > 48)
            && d.timeUTC == (if |fs| > 0 then lib.atof(fs[0]) else 0.0)
            && d.latitude == (if |fs| <= 1 then 0.0
                              else if |fs| > 2 && !BeginsWith(fs[2], 78) then -lib.atof(fs[1]) else lib.atof(fs[1]))
            && d.longitude == (if |fs| <= 3 then 0.0
                               else if |fs| > 4 && !BeginsWith(fs[4], 69) then -lib.atof(fs[3]) else lib.atof(fs[3]))
            && d.satellites == (if |fs| > 6 then lib.atoi(fs[6]) else 0)
            && d.altitude == (if |fs| > 8 then lib.atof(fs[8]) else 0.0)
            && d.speed == 0.0 && d.date == 0.0
  {
    PrintThenConsume(lib, p, GPGGA_MSG, fs);
  }

  /** The characters of a text in ASCII. */
  function Ascii(s: string): (r: seq<byte>)
    requires forall i :: 0 <= i < |s| ==> s[i] < 128 as char
    ensures |r| == |s|
  {
    seq(|s|, i requires 0 <= i < |s| => s[i] as int)
  }

  /** The fields of a fix: time, status A, a latitude with its letter, a longitude with its letter. */
  function FixFields(north: byte, east: byte): (fs: seq<seq<byte>>)
    ensures |fs| == 6
  {
    [Ascii("081836"), Ascii("A"), Ascii("3751.65"), [north], Ascii("14507.36"), [east]]
  }

  lemma FixWitness(lib: CLib, p: Parser, fs: seq<seq<byte>>, north: byte, east: byte)
    requires fs == FixFields(north, east) && Plain(north) && Plain(east)
    ensures WellFormed(GPRMC_MSG, fs)
    ensures var d := ConsumeAll(lib, p, Print(GPRMC_MSG, fs)).hold;
            && d.hasFix && d.checksumPassed
            && d.latitude == (if north == 78 then lib.atof(Ascii("3751.65")) else -lib.atof(Ascii("3751.65")))
            && d.longitude == (if east == 69 then lib.atof(Ascii("14507.36")) else -lib.atof(Ascii("14507.36")))
  {
    FixWellFormed(fs, north, east);
    PublishedRmc(lib, p, fs);
  }

  lemma FixWellFormed(fs: seq<seq<byte>>, north: byte, east: byte)
    requires fs == FixFields(north, east) && Plain(north) && Plain(east)
    ensures WellFormed(GPRMC_MSG, fs) && fs[1][0] == 65
  {
    assert forall i :: 0 <= i < 6 ==> PlainField(fs[i]) by {
      assert PlainField(fs[0]) && PlainField(fs[1]) && PlainField(fs[2]);
      assert PlainField(fs[3]) && PlainField(fs[4]) && PlainField(fs[5]);
    }
  }

  /**
   A comma behind the pair ends the sentence as well, but is part of the checksum by then: the record is published
   if and only if the pair is the checksum with the comma in it.
   */
  lemma CommaBehindPair(lib: CLib, p: Parser, ty: MsgType, fs: seq<seq<byte>>, h: byte, l: byte)
    requires WellFormed(ty, fs) && HexDigit(h) >= 0 && HexDigit(l) >= 0
    ensures var q := ConsumeAll(lib, p, [DOLLAR] + Body(ty, fs) + [STAR, h, l]);
            var (r, published) := Consume(lib, q, COMMA);
            && (published <==> 16 * HexDigit(h) + HexDigit(l) == XorAll(0, Body(ty, fs) + [44]))
            && r.hold == (if published then Record(lib, ty, fs).(checksumPassed := true) else HoldAfterDollar(p))
            && r.onChecksum == published
  {
    StrtolHexPair(h, l);
    ConsumeToChecksum(lib, p, ty, fs, h, l);
    XorAllAppend(0, Body(ty, fs), [44]);
    assert [COMMA][1..] == [] && [44] == [COMMA];
  }

  /**
   The value returned. It is true only for a terminator behind a checksum that matches, and then the data are what is
   held; unless it is true, only `$` can change what is held, and `$` returns false.
   */
  lemma HoldChangesWhenTrue(lib: CLib, p: Parser, c: byte)
    ensures var (q, published) := Consume(lib, p, c);
            && (published ==> (c == 44 || c == 13 || c == 10 || c == 42) && p.onChecksum && !p.ignoring
                              && q.hold == p.data.(checksumPassed := true))
            && (!published && c != 36 ==> q.hold == p.hold)
  {}

  // ---------------------------------------------------------------- any number of fields

  /** A sentence is being read whose type has been found; `pos` counts its fields. */
  ghost predicate InSentence(q: Parser, ty: MsgType, pos: nat, field: seq<byte>, ck: byte, hold: GpsData) {
    q.msgType == ty && q.msgPos == pos % 0x1_0000_0000 && !q.ignoring && !q.onChecksum
    && q.field == field && q.checksum == ck && q.hold == hold
  }

  lemma OneMoreField(
      lib: CLib, q: Parser, ty: MsgType, pos: nat, field: seq<byte>, ck: byte, hold: GpsData, f: seq<byte>)
    requires (ty == GPRMC_MSG || ty == GPGGA_MSG) && InSentence(q, ty, pos, field, ck, hold)
    requires PlainField(f) && (|field| == 5 ==> pos % 0x1_0000_0000 != 0)
    ensures InSentence(ConsumeAll(lib, q, [COMMA] + f), ty, pos + 1, f, XorAll(ck, [COMMA] + f), hold)
  {
    assert ([COMMA] + f)[1..] == f;
    var r := Consume(lib, q, COMMA).0;
    assert InSentence(r, ty, pos + 1, [], Xor(ck, COMMA), hold);
    ConsumePlain(lib, r, f);
    assert [] + f == f;
  }

  /** Field i, counted from pos + 1 on, is not where the type of a sentence is looked for, or has not its length. */
  predicate NoTypeAmong(fs: seq<seq<byte>>, pos: nat) {
    forall i :: 0 <= i < |fs| && |fs[i]| == 5 ==> (pos + 1 + i) % 0x1_0000_0000 != 0
  }

  lemma {:induction false} MoreFields(
      lib: CLib, q: Parser, ty: MsgType, pos: nat, field: seq<byte>, ck: byte, hold: GpsData, fs: seq<seq<byte>>)
    requires (ty == GPRMC_MSG || ty == GPGGA_MSG) && InSentence(q, ty, pos, field, ck, hold)
    requires forall i :: 0 <= i < |fs| ==> PlainField(fs[i])
    requires (|field| == 5 ==> pos % 0x1_0000_0000 != 0) && NoTypeAmong(fs, pos)
    ensures InSentence(ConsumeAll(lib, q, JoinFields(fs)), ty, pos + |fs|, if fs == [] then field else fs[|fs| - 1],
                       XorAll(ck, JoinFields(fs)), hold)
    decreases fs
  {
    if fs != [] {
      var head := [COMMA] + fs[0];
      OneMoreField(lib, q, ty, pos, field, ck, hold, fs[0]);
      FieldByField(lib, q, ck, fs);
      TypeNotBehind(fs, pos);
      MoreFields(lib, ConsumeAll(lib, q, head), ty, pos + 1, fs[0], XorAll(ck, head), hold, fs[1..]);
    }
  }

  lemma FieldByField(lib: CLib, q: Parser, ck: byte, fs: seq<seq<byte>>)
    requires fs != []
    ensures var head := [COMMA] + fs[0];
            && ConsumeAll(lib, q, JoinFields(fs)) == ConsumeAll(lib, ConsumeAll(lib, q, head), JoinFields(fs[1..]))
            && XorAll(ck, JoinFields(fs)) == XorAll(XorAll(ck, head), JoinFields(fs[1..]))
  {
    var head, rest := [COMMA] + fs[0], JoinFields(fs[1..]);
    ConsumeAllAppend(lib, q, head, rest);
    XorAllAppend(ck, head, rest);
  }

  lemma TypeNotBehind(fs: seq<seq<byte>>, pos: nat)
    requires fs != [] && NoTypeAmong(fs, pos)
    ensures NoTypeAmong(fs[1..], pos + 1) && (|fs[0]| == 5 ==> (pos + 1) % 0x1_0000_0000 != 0)
  {
    forall i | 0 <= i < |fs[1..]| && |fs[1..][i]| == 5
      ensures (pos + 1 + 1 + i) % 0x1_0000_0000 != 0
    {
      assert fs[1..][i] == fs[i + 1];
    }
  }

  /**
   Whatever the number of its fields, an RMC or GGA sentence stays one, its checksum runs over all of them, and nothing
   is published before its `*`; only a field of five characters behind 2^32 - 1 others would be taken for a type again.
   */
  lemma SentenceOfAnyLength(lib: CLib, p: Parser, ty: MsgType, fs: seq<seq<byte>>)
    requires (ty == GPRMC_MSG || ty == GPGGA_MSG) && fs != [] && forall i :: 0 <= i < |fs| ==> PlainField(fs[i])
    requires NoTypeAmong(fs, 0)
    ensures InSentence(ConsumeAll(lib, p, [DOLLAR] + Body(ty, fs)), ty, |fs|, fs[|fs| - 1], XorAll(0, Body(ty, fs)),
                       HoldAfterDollar(p))
  {
    var start := [DOLLAR] + Body(ty, [fs[0]]);
    SplitBody(ty, fs);
    FirstField(lib, p, ty, fs[0]);
    ConsumeAllAppend(lib, p, start, JoinFields(fs[1..]));
    XorAllAppend(0, Body(ty, [fs[0]]), JoinFields(fs[1..]));
    TypeNotBehind(fs, 0);
    MoreFields(lib, ConsumeAll(lib, p, start), ty, 1, fs[0], Checksum(ty, [fs[0]]), HoldAfterDollar(p), fs[1..]);
  }

  lemma FirstField(lib: CLib, p: Parser, ty: MsgType, f: seq<byte>)
    requires (ty == GPRMC_MSG || ty == GPGGA_MSG) && PlainField(f)
    ensures InSentence(ConsumeAll(lib, p, [DOLLAR] + Body(ty, [f])), ty, 1, f, Checksum(ty, [f]), HoldAfterDollar(p))
  {
    ConsumeBody(lib, p, ty, [f]);
  }

  lemma SplitBody(ty: MsgType, fs: seq<seq<byte>>)
    requires fs != []
    ensures Body(ty, fs) == Body(ty, [fs[0]]) + JoinFields(fs[1..])
    ensures [DOLLAR] + Body(ty, fs) == [DOLLAR] + Body(ty, [fs[0]]) + JoinFields(fs[1..])
  {
    JoinOne(fs[0]);
  }

  /**
   Why fewer than 32 fields: the position is or-ed to the type in the switch, so that field 33 of an RMC sentence is
   stored as its time.
   */
  lemma Field33IsTime(lib: CLib, f: seq<byte>, d: GpsData)
    ensures Assign(lib, GPRMC_MSG, 33, f, d) == d.(timeUTC := lib.atof(f))
  {
    OrItself(16);
    assert Or(33, 32) == 2 * Or(16, 16) + 1;
  }

  // ---------------------------------------------------------------- single errors

  lemma {:induction false} XorAllApart(a: byte, b: byte, s: seq<byte>)
    requires a != b
    ensures XorAll(a, s) != XorAll(b, s)
    decreases s
  {
    if s != [] {
      XorUndone(a, s[0]);
      XorUndone(b, s[0]);
      XorAllApart(Xor(a, s[0]), Xor(b, s[0]), s[1..]);
    }
  }

  lemma XorOneChanged(s: seq<byte>, i: nat, c: byte)
    requires i < |s| && c != s[i]
    ensures XorAll(0, s[i := c]) != XorAll(0, s)
  {
    var ck := XorAll(0, s[..i]);
    XorMirrored(ck, s[i], c);
    XorAllApart(Xor(ck, s[i]), Xor(ck, c), s[i + 1..]);
    assert s == s[..i] + ([s[i]] + s[i + 1..]) && s[i := c] == s[..i] + ([c] + s[i + 1..]);
    XorAllAppend(0, s[..i], [s[i]] + s[i + 1..]);
    XorAllAppend(0, s[..i], [c] + s[i + 1..]);
    assert ([s[i]] + s[i + 1..])[1..] == s[i + 1..] && ([c] + s[i + 1..])[1..] == s[i + 1..];
  }

  lemma XorMirrored(ck: byte, a: byte, b: byte)
    requires a != b
    ensures Xor(ck, a) != Xor(ck, b)
  {
    XorSwapped(ck, a);
    XorSwapped(ck, b);
    XorUndone(a, ck);
    XorUndone(b, ck);
  }

  /** The fields with character k of field i changed to c. */
  function Changed(fs: seq<seq<byte>>, i: nat, k: nat, c: byte): (r: seq<seq<byte>>)
    requires i < |fs| && k < |fs[i]|
    ensures |r| == |fs|
  {
    var f: seq<byte> := fs[i][k := c];
    fs[i := f]
  }

  /** Where character k of field i is in the text. */
  lemma {:induction false} JoinChanged(fs: seq<seq<byte>>, i: nat, k: nat, c: byte) returns (at: nat)
    requires i < |fs| && k < |fs[i]|
    ensures at < |JoinFields(fs)| && JoinFields(fs)[at] == fs[i][k]
    ensures JoinFields(Changed(fs, i, k, c)) == JoinFields(fs)[at := c]
    decreases i
  {
    var changed := Changed(fs, i, k, c);
    if i == 0 {
      at := 1 + k;
      assert changed[1..] == fs[1..];
    } else {
      assert changed[1..] == Changed(fs[1..], i - 1, k, c);
      var rest := JoinChanged(fs[1..], i - 1, k, c);
      at := 1 + |fs[0]| + rest;
    }
  }

  /**
   The checksum detects every single wrong character: a sentence with one character of one field changed into another,
   and its pair as it was, publishes nothing, unless the changed text has checksum zero.
   */
  lemma SingleErrorRejected(
      lib: CLib, p: Parser, ty: MsgType, fs: seq<seq<byte>>, h: byte, l: byte, i: nat, k: nat, c: byte)
    requires WellFormed(ty, fs) && HexDigit(h) >= 0 && HexDigit(l) >= 0
    requires 16 * HexDigit(h) + HexDigit(l) == Checksum(ty, fs)
    requires i < |fs| && k < |fs[i]| && c != fs[i][k] && Plain(c)
    requires Checksum(ty, Changed(fs, i, k, c)) != 0
    ensures var q := ConsumeAll(lib, p, Sentence(ty, Changed(fs, i, k, c), h, l));
            q.hold == HoldAfterDollar(p) && Consume(lib, q, DOLLAR).0 == Canonical(q.hold)
  {
    var wrong := Changed(fs, i, k, c);
    var at := JoinChanged(fs, i, k, c);
    assert Body(ty, wrong) == Body(ty, fs)[|TypeName(ty)| + at := c];
    XorOneChanged(Body(ty, fs), |TypeName(ty)| + at, c);
    assert PlainField(fs[i]) && PlainField(wrong[i]);
    MismatchRejected(lib, p, ty, wrong, h, l);
  }

  /**
   The end of a sentence of any kind that is not ignored, with a hexadecimal pair that is not its checksum. CR and
   LF publish nothing, nor does the next `$`, if the checksum is nonzero.
   */
  lemma WrongPair(lib: CLib, q: Parser)
    requires q.onChecksum && !q.ignoring && |q.field| == 2 && !ChecksumMatches(q) && q.checksum != 0
    ensures var r := ConsumeAll(lib, q, [CR, LF]);
            r.hold == q.hold && Consume(lib, r, DOLLAR).0 == Canonical(q.hold)
  {
    StrtolEmpty();
    ConsumeTwo(lib, q, CR, LF);
    LineEndRejects(lib, q, CR);
    var r := Consume(lib, q, CR).0;
    LineEndRejects(lib, r, LF);
    DollarResets(lib, Consume(lib, r, LF).0);
  }

  /** If the checksum is zero, LF publishes the scrubbed record, because the emptied buffer converts to zero. */
  lemma WrongPairOfZero(lib: CLib, q: Parser)
    requires q.onChecksum && !q.ignoring && |q.field| == 2 && !ChecksumMatches(q) && q.checksum == 0
    requires ZeroOnEmpty(lib)
    ensures var r := ConsumeAll(lib, q, [CR, LF]);
            var empty := NO_DATA.(checksumPassed := true);
            r.hold == empty && Consume(lib, r, DOLLAR).0 == Canonical(empty)
  {
    StrtolEmpty();
    ConsumeTwo(lib, q, CR, LF);
    LineEndRejects(lib, q, CR);
    LineEndDiscards(lib, q, CR);
    var r := Consume(lib, q, CR).0;
    LineEndPublishes(lib, r, LF);
    DollarResets(lib, Consume(lib, r, LF).0);
  }

  /**
   A sentence whose hexadecimal pair is not its checksum, and whose checksum is nonzero: nothing is published,
   neither by CR, LF nor the next `$`.
   */
  lemma MismatchRejected(lib: CLib, p: Parser, ty: MsgType, fs: seq<seq<byte>>, h: byte, l: byte)
    requires WellFormed(ty, fs) && HexDigit(h) >= 0 && HexDigit(l) >= 0
    requires 16 * HexDigit(h) + HexDigit(l) != Checksum(ty, fs) && Checksum(ty, fs) != 0
    ensures var q := ConsumeAll(lib, p, Sentence(ty, fs, h, l));
            q.hold == HoldAfterDollar(p) && Consume(lib, q, DOLLAR).0 == Canonical(q.hold)
  {
    StrtolHexPair(h, l);
    SplitSentence(lib, p, ty, fs, h, l);
    ConsumeToChecksum(lib, p, ty, fs, h, l);
    WrongPair(lib, AtChecksum(lib, ty, fs, h, l, HoldAfterDollar(p)));
  }

  /** With a zero checksum a wrong pair is not rejected: the scrubbed record is published as valid. */
  lemma ZeroChecksumAccepted(lib: CLib, p: Parser, ty: MsgType, fs: seq<seq<byte>>, h: byte, l: byte)
    requires WellFormed(ty, fs) && HexDigit(h) >= 0 && HexDigit(l) >= 0 && ZeroOnEmpty(lib)
    requires 16 * HexDigit(h) + HexDigit(l) != Checksum(ty, fs) && Checksum(ty, fs) == 0
    ensures var empty := NO_DATA.(checksumPassed := true);
            var q := ConsumeAll(lib, p, Sentence(ty, fs, h, l));
            q.hold == empty && Consume(lib, q, DOLLAR).0 == Canonical(empty)
  {
    StrtolHexPair(h, l);
    SplitSentence(lib, p, ty, fs, h, l);
    ConsumeToChecksum(lib, p, ty, fs, h, l);
    WrongPairOfZero(lib, AtChecksum(lib, ty, fs, h, l, HoldAfterDollar(p)));
  }

  lemma JoinOne(f: seq<byte>)
    ensures JoinFields([f]) == [COMMA] + f
  {
    assert [f][1..] == [];
  }

  lemma ZeroChecksum()
    ensures Checksum(GPRMC_MSG, [['g' as int]]) == 0
  {
    JoinOne(['g' as int]);
    XorOfZero(Body(GPRMC_MSG, [['g' as int]]));
  }

  /** The running values of an exclusive or, written down. */
  lemma {:induction false} XorTrail(s: seq<byte>, vs: seq<byte>)
    requires |vs| == |s| + 1 && forall i :: 0 <= i < |s| ==> Xor(vs[i], s[i]) == vs[i + 1]
    ensures XorAll(vs[0], s) == vs[|s|]
    decreases s
  {
    if s != [] {
      XorTrail(s[1..], vs[1..]);
    }
  }

  lemma XorOfZero(s: seq<byte>)
    requires s == [71, 80, 82, 77, 67, 44, 103]
    ensures XorAll(0, s) == 0
  {
    XorTrail(s, [0, 71, 23, 69, 8, 75, 103, 0]);
  }

  /** Such a sentence is `$GPRMC,g*01`: its checksum is zero and not 01, and it replaces any record by an empty one. */
  lemma ZeroChecksumWitness(lib: CLib, p: Parser)
    requires ZeroOnEmpty(lib)
    ensures Checksum(GPRMC_MSG, [['g' as int]]) == 0
    ensures ConsumeAll(lib, p, Sentence(GPRMC_MSG, [['g' as int]], '0' as int, '1' as int)).hold
         == NO_DATA.(checksumPassed := true)
  {
    assert PlainField(['g' as int]);
    ZeroChecksum();
    ZeroChecksumAccepted(lib, p, GPRMC_MSG, [['g' as int]], '0' as int, '1' as int);
  }

  /** Reading an empty field into scrubbed data leaves it scrubbed. */
  lemma AssignEmpty(lib: CLib, ty: MsgType, pos: nat)
    requires ZeroOnEmpty(lib)
    ensures Assign(lib, ty, pos, [], NO_DATA) == NO_DATA
  {}

  // ---------------------------------------------------------------- sentences of any kind

  /**
   The text between `$` and `*` of any sentence: an address field and data fields. The parser takes the first
   field of five characters as the type, whether it is the address field or not.
   */
  function TypeAt(fields: seq<seq<byte>>): (i: nat)
    ensures i <= |fields|
    ensures forall k :: 0 <= k < i ==> |fields[k]| != 5
    ensures i < |fields| ==> |fields[i]| == 5
  {
    if fields == [] || |fields[0]| == 5 then 0 else 1 + TypeAt(fields[1..])
  }

  function TypeOf(name: seq<byte>): MsgType {
    if name == GPRMC then GPRMC_MSG else if name == GPGGA then GPGGA_MSG else IGNORE_MSG
  }

  /** What a sentence with the right checksum publishes, if anything. */
  function Carried(lib: CLib, fields: seq<seq<byte>>): Option<GpsData> {
    var i := TypeAt(fields);
    if i == |fields| then Some(NO_DATA)
    else if TypeOf(fields[i]) == IGNORE_MSG then None
    else Some(Record(lib, TypeOf(fields[i]), fields[i + 1..]))
  }

  function Text(fields: seq<seq<byte>>): seq<byte>
    requires fields != []
  {
    fields[0] + JoinFields(fields[1..])
  }

  /** Plain fields, of which fewer than 32 follow the type. */
  predicate Readable(fields: seq<seq<byte>>) {
    fields != [] && |fields| - TypeAt(fields) <= 32 && forall i :: 0 <= i < |fields| ==> PlainField(fields[i])
  }

  /** The state when no type has been found in the fields before, and `field` is in the buffer. */
  function Seeking(field: seq<byte>, ck: byte, hold: GpsData): Parser {
    Parser(field, ck, false, false, 0, IGNORE_MSG, NO_DATA, hold)
  }

  /** `*` and two digits behind the last field. */
  function Tail(h: byte, l: byte): seq<byte> { [STAR] + [h, l] }

  /** The state at the end of a sentence: its two digits are in the buffer, unless it is being ignored. */
  ghost predicate AtEnd(lib: CLib, q: Parser, fields: seq<seq<byte>>, ck: byte, h: byte, l: byte, hold: GpsData) {
    match Carried(lib, fields)
    case None =>
      q.ignoring && q.msgType == IGNORE_MSG && q.field == [] && q.data == NO_DATA && q.hold == hold
      && q.onChecksum == (TypeAt(fields) + 1 == |fields|) && (q.onChecksum ==> q.checksum == ck)
    case Some(d) =>
      !q.ignoring && q.onChecksum && q.field == [h, l] && q.checksum == ck && q.hold == hold && q.data == d
  }

  lemma TailFromStar(lib: CLib, p: Parser, r: Parser, h: byte, l: byte)
    requires HexDigit(h) >= 0 && HexDigit(l) >= 0
    requires Consume(lib, p, STAR).0 == r && !r.ignoring && r.onChecksum && r.field == []
    ensures ConsumeAll(lib, p, Tail(h, l)) == r.(field := [h, l])
  {
    assert Tail(h, l)[1..] == [h, l];
    ConsumePlain(lib, r, [h, l]);
    assert [] + [h, l] == [h, l];
  }

  /** No type at all: the last field is dropped like those before. */
  lemma NoTypeFound(lib: CLib, f: seq<byte>, ck: byte, h: byte, l: byte, hold: GpsData)
    requires PlainField(f) && |f| != 5 && HexDigit(h) >= 0 && HexDigit(l) >= 0
    ensures AtEnd(lib, ConsumeAll(lib, Seeking(f, ck, hold), Tail(h, l)), [f], ck, h, l, hold)
  {
    var r := Seeking([], ck, hold).(onChecksum := true);
    assert TypeAt([f]) == 1 by { assert [f][1..] == []; }
    TailFromStar(lib, Seeking(f, ck, hold), r, h, l);
  }

  /** The type is RMC or GGA: what follows is read like any sentence of that type. */
  lemma TypeFound(lib: CLib, ty: MsgType, fs: seq<seq<byte>>, ck: byte, h: byte, l: byte, hold: GpsData)
    requires WellFormed(ty, fs) && HexDigit(h) >= 0 && HexDigit(l) >= 0
    ensures AtEnd(lib, ConsumeAll(lib, Seeking(TypeName(ty), ck, hold), JoinFields(fs) + Tail(h, l)),
                  [TypeName(ty)] + fs, XorAll(ck, JoinFields(fs)), h, l, hold)
  {
    var p, ck' := Seeking(TypeName(ty), ck, hold), XorAll(ck, JoinFields(fs));
    assert fs[0..] == fs && fs[..|fs|] == fs;
    AllFields(lib, ty, fs, 0, ck, hold);
    ConsumeAllAppend(lib, p, JoinFields(fs), Tail(h, l));
    EndOfField(lib, ty, fs, |fs|, ck', hold);
    var r := Parser([], ck', true, false, |fs| + 1, ty, Record(lib, ty, fs), hold);
    TailFromStar(lib, Reading(lib, ty, fs, |fs|, ck', hold), r, h, l);
    var fields := [TypeName(ty)] + fs;
    assert GPRMC[2] != GPGGA[2];
    assert TypeAt(fields) == 0 && fields[1..] == fs;
  }

  /** The type is another: everything from here on is ignored. */
  lemma OtherTypeFound(lib: CLib, name: seq<byte>, ck: byte, c: byte, s: seq<byte>, hold: GpsData)
    requires PlainField(name) && |name| == 5 && TypeOf(name) == IGNORE_MSG
    requires (c == COMMA || c == STAR) && DOLLAR !in s
    ensures var q := ConsumeAll(lib, Seeking(name, ck, hold), [c] + s);
            q.ignoring && q.msgType == IGNORE_MSG && q.field == [] && q.data == NO_DATA && q.hold == hold
            && q.onChecksum == (c == STAR) && (c == STAR ==> q.checksum == ck)
  {
    var r := Consume(lib, Seeking(name, ck, hold), c).0;
    assert CStr(name) == name;
    assert ([c] + s)[1..] == s;
    IgnoringSkips(lib, r, s);
  }

  lemma {:induction false} NoDollar(fs: seq<seq<byte>>)
    requires forall i :: 0 <= i < |fs| ==> PlainField(fs[i])
    ensures DOLLAR !in JoinFields(fs)
  {
    if fs != [] {
      assert PlainField(fs[0]);
      NoDollar(fs[1..]);
    }
  }

  /** The first field has five characters, so it is the type. */
  lemma TypeFirst(lib: CLib, fields: seq<seq<byte>>, ck: byte, h: byte, l: byte, hold: GpsData)
    requires Readable(fields) && |fields[0]| == 5 && HexDigit(h) >= 0 && HexDigit(l) >= 0
    ensures AtEnd(lib, ConsumeAll(lib, Seeking(fields[0], ck, hold), JoinFields(fields[1..]) + Tail(h, l)),
                  fields, XorAll(ck, JoinFields(fields[1..])), h, l, hold)
  {
    var name, fs := fields[0], fields[1..];
    var ty := TypeOf(name);
    assert fields == [name] + fs && PlainField(name);
    if ty != IGNORE_MSG {
      TypeFound(lib, ty, fs, ck, h, l, hold);
    } else if fs == [] {
      assert JoinFields(fs) + Tail(h, l) == [STAR] + [h, l];
      OtherTypeFound(lib, name, ck, STAR, [h, l], hold);
    } else {
      NoDollar(fs[1..]);
      var rest := fs[0] + JoinFields(fs[1..]) + Tail(h, l);
      assert JoinFields(fs) + Tail(h, l) == [COMMA] + rest;
      assert PlainField(fs[0]);
      OtherTypeFound(lib, name, ck, COMMA, rest, hold);
    }
  }

  /** A field that cannot be the type is dropped, and the next one is looked at. */
  lemma SkipField(lib: CLib, f: seq<byte>, g: seq<byte>, ck: byte, hold: GpsData)
    requires |f| != 5 && PlainField(g)
    ensures ConsumeAll(lib, Seeking(f, ck, hold), [COMMA] + g) == Seeking(g, XorAll(ck, [COMMA] + g), hold)
  {
    var ck' := Xor(ck, COMMA);
    assert Consume(lib, Seeking(f, ck, hold), COMMA).0 == Seeking([], ck', hold);
    assert ([COMMA] + g)[1..] == g;
    ConsumePlain(lib, Seeking([], ck', hold), g);
    assert [] + g == g;
  }

  lemma {:induction false} SeekType(lib: CLib, fields: seq<seq<byte>>, ck: byte, h: byte, l: byte, hold: GpsData)
    requires Readable(fields) && HexDigit(h) >= 0 && HexDigit(l) >= 0
    ensures AtEnd(lib, ConsumeAll(lib, Seeking(fields[0], ck, hold), JoinFields(fields[1..]) + Tail(h, l)),
                  fields, XorAll(ck, JoinFields(fields[1..])), h, l, hold)
    decreases fields
  {
    var f, fs := fields[0], fields[1..];
    assert fields == [f] + fs;
    if |f| == 5 {
      TypeFirst(lib, fields, ck, h, l, hold);
    } else if fs == [] {
      assert fields == [f] && JoinFields(fs) + Tail(h, l) == Tail(h, l) && PlainField(f);
      NoTypeFound(lib, f, ck, h, l, hold);
    } else {
      TypeBehind(lib, f, fs);
      SeekType(lib, fs, XorAll(ck, [COMMA] + fs[0]), h, l, hold);
      SkipToNext(lib, f, fs, ck, Tail(h, l), hold);
    }
  }

  /** A field in front that cannot be the type does not change which field is, nor what is carried. */
  lemma TypeBehind(lib: CLib, f: seq<byte>, fs: seq<seq<byte>>)
    requires |f| != 5 && Readable([f] + fs) && fs != []
    ensures TypeAt([f] + fs) == TypeAt(fs) + 1 && Carried(lib, [f] + fs) == Carried(lib, fs) && Readable(fs)
  {
    var fields := [f] + fs;
    assert fields[1..] == fs;
    assert TypeAt(fs) < |fs| ==> fields[TypeAt(fields) + 1..] == fs[TypeAt(fs) + 1..];
    forall i | 0 <= i < |fs|
      ensures PlainField(fs[i])
    {
      assert fs[i] == fields[i + 1];
    }
  }

  lemma SkipToNext(lib: CLib, f: seq<byte>, fs: seq<seq<byte>>, ck: byte, end: seq<byte>, hold: GpsData)
    requires |f| != 5 && fs != [] && PlainField(fs[0])
    ensures var ck' := XorAll(ck, [COMMA] + fs[0]);
            && ConsumeAll(lib, Seeking(f, ck, hold), JoinFields(fs) + end)
               == ConsumeAll(lib, Seeking(fs[0], ck', hold), JoinFields(fs[1..]) + end)
            && XorAll(ck, JoinFields(fs)) == XorAll(ck', JoinFields(fs[1..]))
  {
    var head, tail := [COMMA] + fs[0], JoinFields(fs[1..]);
    assert JoinFields(fs) == head + tail;
    ConcatAssociates(head, tail, end);
    ConsumeAllAppend(lib, Seeking(f, ck, hold), head, tail + end);
    XorAllAppend(ck, head, tail);
    SkipField(lib, f, fs[0], ck, hold);
  }

  /** `$` and a sentence of any kind up to its two digits, from any state. */
  lemma ConsumeAnyKind(lib: CLib, p: Parser, fields: seq<seq<byte>>, h: byte, l: byte)
    requires Readable(fields) && HexDigit(h) >= 0 && HexDigit(l) >= 0
    ensures AtEnd(lib, ConsumeAll(lib, p, [DOLLAR] + (Text(fields) + Tail(h, l))),
                  fields, XorAll(0, Text(fields)), h, l, HoldAfterDollar(p))
  {
    var hold, f, rest := HoldAfterDollar(p), fields[0], JoinFields(fields[1..]);
    DollarResets(lib, p);
    assert ([DOLLAR] + (Text(fields) + Tail(h, l)))[1..] == f + (rest + Tail(h, l));
    assert PlainField(f);
    ConsumeAllAppend(lib, Canonical(hold), f, rest + Tail(h, l));
    ConsumePlain(lib, Canonical(hold), f);
    assert [] + f == f;
    XorAllAppend(0, f, rest);
    SeekType(lib, fields, XorAll(0, f), h, l, hold);
  }

  /** The parser takes the sentence for one of another type. */
  predicate OtherType(fields: seq<seq<byte>>) {
    TypeAt(fields) < |fields| && TypeOf(fields[TypeAt(fields)]) == IGNORE_MSG
  }

  /**
   Any sentence with its own checksum, from any state. A record is published if and only if the sentence is not
   taken for one of another type, that is unless its first field of five characters, wherever it stands, is neither
   GPRMC nor GPGGA. With a first such field GPRMC or GPGGA the record is that of the fields behind it; without
   any field of five characters an empty record is published as valid. The next `$` changes nothing more, except
   that it publishes the empty record if the type was the last field and the checksum is zero.
   */
  lemma SentenceOfAnyKind(lib: CLib, p: Parser, fields: seq<seq<byte>>, h: byte, l: byte)
    requires Readable(fields) && HexDigit(h) >= 0 && HexDigit(l) >= 0
    requires 16 * HexDigit(h) + HexDigit(l) == XorAll(0, Text(fields))
    ensures var q := ConsumeAll(lib, p, [DOLLAR] + (Text(fields) + Tail(h, l)));
            var r := ConsumeAll(lib, q, [CR, LF]);
            && (Consume(lib, q, CR).1 <==> !OtherType(fields))
            && r.hold == (match Carried(lib, fields)
                          case Some(d) => d.(checksumPassed := true)
                          case None => HoldAfterDollar(p))
            && Consume(lib, r, DOLLAR).0
               == Canonical(if OtherType(fields) && TypeAt(fields) + 1 == |fields| && XorAll(0, Text(fields)) == 0
                            then NO_DATA.(checksumPassed := true) else r.hold)
  {
    ConsumeAnyKind(lib, p, fields, h, l);
    StrtolHexPair(h, l);
    StrtolEmpty();
    var q := ConsumeAll(lib, p, [DOLLAR] + (Text(fields) + Tail(h, l)));
    ConsumeTwo(lib, q, CR, LF);
    if Carried(lib, fields).Some? {
      LineEndPublishes(lib, q, CR);
      LineEndPublishes(lib, Consume(lib, q, CR).0, LF);
    }
    DollarResets(lib, ConsumeAll(lib, q, [CR, LF]));
  }

  /** Any sentence with a wrong pair and a nonzero checksum publishes nothing, up to and including the next `$`. */
  lemma AnyKindRejected(lib: CLib, p: Parser, fields: seq<seq<byte>>, h: byte, l: byte)
    requires Readable(fields) && HexDigit(h) >= 0 && HexDigit(l) >= 0
    requires 16 * HexDigit(h) + HexDigit(l) != XorAll(0, Text(fields)) && XorAll(0, Text(fields)) != 0
    ensures var r := ConsumeAll(lib, ConsumeAll(lib, p, [DOLLAR] + (Text(fields) + Tail(h, l))), [CR, LF]);
            r.hold == HoldAfterDollar(p) && Consume(lib, r, DOLLAR).0 == Canonical(r.hold)
  {
    ConsumeAnyKind(lib, p, fields, h, l);
    StrtolHexPair(h, l);
    StrtolEmpty();
    var q := ConsumeAll(lib, p, [DOLLAR] + (Text(fields) + Tail(h, l)));
    if Carried(lib, fields).Some? {
      WrongPair(lib, q);
    } else {
      ConsumeTwo(lib, q, CR, LF);
      DollarResets(lib, q);
    }
  }

  /** The address field of a proprietary sentence, SiRF message 150. */
  const PSRF150: seq<byte> := ['P' as int, 'S' as int, 'R' as int, 'F' as int, '1' as int, '5' as int, '0' as int]

  lemma ProprietaryFields()
    ensures var fields := [PSRF150, ['1' as int]];
            Readable(fields) && TypeAt(fields) == 2 && XorAll(0, Text(fields)) == 0x3E
  {
    var fields := [PSRF150, ['1' as int]];
    assert fields[1..] == [['1' as int]] && fields[1..][1..] == [];
    assert TypeAt(fields[1..]) == 1 && TypeAt(fields) == 2;
    assert PlainField(PSRF150) && PlainField(['1' as int]);
    JoinOne(['1' as int]);
    XorOfProprietary(Text(fields));
  }

  lemma XorValues()
    ensures Xor(0, 80) == 80 && Xor(80, 83) == 3 && Xor(3, 82) == 81 && Xor(81, 70) == 23 && Xor(23, 49) == 38
    ensures Xor(38, 53) == 19 && Xor(19, 48) == 35 && Xor(35, 44) == 15 && Xor(15, 49) == 0x3E
  {}

  lemma XorOfProprietary(s: seq<byte>)
    requires s == [80, 83, 82, 70, 49, 53, 48, 44, 49]
    ensures XorAll(0, s) == 0x3E
  {
    XorValues();
    XorTrail(s, [0, 80, 3, 81, 23, 38, 19, 35, 15, 0x3E]);
  }

  /** `$PSRF150,1*3E` is such a sentence: it replaces any record by an empty one marked as valid. */
  lemma ProprietaryWitness(lib: CLib, p: Parser)
    ensures var s := [DOLLAR] + (Text([PSRF150, ['1' as int]]) + Tail('3' as int, 'E' as int));
            ConsumeAll(lib, ConsumeAll(lib, p, s), [CR, LF]).hold == NO_DATA.(checksumPassed := true)
  {
    var fields := [PSRF150, ['1' as int]];
    ProprietaryFields();
    SentenceOfAnyKind(lib, p, fields, '3' as int, 'E' as int);
  }

  /**
   A sentence whose address field has five characters and is neither GPRMC nor GPGGA, with any text behind its first
   comma, is skipped whole: nothing is published before, or by, the next `$`.
   */
  lemma OtherTypeIgnored(lib: CLib, p: Parser, name: seq<byte>, rest: seq<byte>)
    requires PlainField(name) && |name| == 5 && name != GPRMC && name != GPGGA
    requires DOLLAR !in rest
    ensures var q := ConsumeAll(lib, p, [DOLLAR] + name + [COMMA] + rest);
            q.hold == HoldAfterDollar(p) && Consume(lib, q, DOLLAR).0 == Canonical(q.hold)
  {
    var hold := HoldAfterDollar(p);
    DollarResets(lib, p);
    var text := name + ([COMMA] + rest);
    assert [DOLLAR] + name + [COMMA] + rest == [DOLLAR] + text;
    assert ([DOLLAR] + text)[1..] == text;
    ConsumeAllAppend(lib, Canonical(hold), name, [COMMA] + rest);
    ConsumePlain(lib, Canonical(hold), name);
    assert [] + name == name;
    var q := Canonical(hold).(field := name, checksum := XorAll(0, name));
    var r := Consume(lib, q, COMMA).0;
    assert CStr(name) == name;
    assert r.ignoring && !r.onChecksum && r.hold == hold;
    assert ([COMMA] + rest)[1..] == rest;
    IgnoringSkips(lib, r, rest);
    DollarResets(lib, r);
  }

  lemma {:induction false} IgnoringSkips(lib: CLib, p: Parser, s: seq<byte>)
    requires p.ignoring && DOLLAR !in s
    ensures ConsumeAll(lib, p, s) == p
  {
    if s != [] {
      IgnoringSkips(lib, p, s[1..]);
    }
  }

  // ---------------------------------------------------------------- the buffer is long enough

  /** Storing `c` leaves room for the NUL that ends the C string in gps_buff. */
  predicate CanConsume(p: Parser, c: byte) {
    (!p.ignoring && !IsTerminator(c) && c != DOLLAR) ==> |p.field| < 29
  }

  predicate Fits(lib: CLib, p: Parser, s: seq<byte>)
    decreases s
  {
    s == [] || (CanConsume(p, s[0]) && Fits(lib, Consume(lib, p, s[0]).0, s[1..]))
  }

  lemma {:induction false} FitsAppend(lib: CLib, p: Parser, s: seq<byte>, t: seq<byte>)
    requires Fits(lib, p, s) && Fits(lib, ConsumeAll(lib, p, s), t)
    ensures Fits(lib, p, s + t)
    decreases s
  {
    if s == [] {
      assert s + t == t;
    } else {
      assert (s + t)[1..] == s[1..] + t;
      FitsAppend(lib, Consume(lib, p, s[0]).0, s[1..], t);
    }
  }

  lemma {:induction false} FitsPlain(lib: CLib, p: Parser, f: seq<byte>)
    requires !p.ignoring && (forall i :: 0 <= i < |f| ==> Plain(f[i])) && |p.field| + |f| < 30
    ensures Fits(lib, p, f)
    decreases f
  {
    if f != [] {
      FitsPlain(lib, Consume(lib, p, f[0]).0, f[1..]);
    }
  }

  lemma {:induction false} FieldsFit(lib: CLib, ty: MsgType, fs: seq<seq<byte>>, i: nat, ck: byte, hold: GpsData)
    requires WellFormed(ty, fs) && i <= |fs|
    ensures Fits(lib, Reading(lib, ty, fs, i, ck, hold), JoinFields(fs[i..]))
    decreases |fs| - i
  {
    if i < |fs| {
      var p := Reading(lib, ty, fs, i, ck, hold);
      assert fs[i..][1..] == fs[i + 1..];
      var head := [COMMA] + fs[i];
      assert JoinFields(fs[i..]) == head + JoinFields(fs[i + 1..]);
      EndOfField(lib, ty, fs, i, Xor(ck, COMMA), hold);
      assert p.(checksum := Xor(ck, COMMA)) == Reading(lib, ty, fs, i, Xor(ck, COMMA), hold);
      assert PlainField(fs[i]) && head[1..] == fs[i];
      FitsPlain(lib, Consume(lib, p, COMMA).0, fs[i]);
      OneField(lib, ty, fs, i, ck, hold);
      FieldsFit(lib, ty, fs, i + 1, XorAll(ck, head), hold);
      FitsAppend(lib, p, head, JoinFields(fs[i + 1..]));
    }
  }

  /** No character of a well-formed sentence overruns gps_buff, whatever state the parser was in. */
  lemma SentenceFits(lib: CLib, p: Parser, ty: MsgType, fs: seq<seq<byte>>, h: byte, l: byte)
    requires WellFormed(ty, fs) && HexDigit(h) >= 0 && HexDigit(l) >= 0
    ensures Fits(lib, p, Sentence(ty, fs, h, l))
  {
    var hold := HoldAfterDollar(p);
    var c := Canonical(hold);
    var name, joined, tail := TypeName(ty), JoinFields(fs), [STAR, h, l, CR, LF];
    DollarResets(lib, p);
    assert Sentence(ty, fs, h, l)[1..] == Body(ty, fs) + tail;
    FitsPlain(lib, c, name);
    ConsumePlain(lib, c, name);
    assert [] + name == name;
    assert fs[0..] == fs;
    FieldsFit(lib, ty, fs, 0, XorAll(0, name), hold);
    FitsAppend(lib, c, name, joined);
    ConsumeBody(lib, p, ty, fs);
    assert ([DOLLAR] + Body(ty, fs))[1..] == Body(ty, fs);
    TailFits(lib, ty, fs, h, l, hold);
    FitsAppend(lib, c, Body(ty, fs), tail);
  }

  lemma TailFits(lib: CLib, ty: MsgType, fs: seq<seq<byte>>, h: byte, l: byte, hold: GpsData)
    requires WellFormed(ty, fs) && HexDigit(h) >= 0 && HexDigit(l) >= 0
    ensures Fits(lib, Reading(lib, ty, fs, |fs|, Checksum(ty, fs), hold), [STAR, h, l, CR, LF])
  {
    var p := Reading(lib, ty, fs, |fs|, Checksum(ty, fs), hold);
    EndOfField(lib, ty, fs, |fs|, Checksum(ty, fs), hold);
    var q := Consume(lib, p, STAR).0;
    FitsPlain(lib, q, [h, l]);
    ConsumePlain(lib, q, [h, l]);
    LineEndsFit(lib, ConsumeAll(lib, q, [h, l]));
    FitsAppend(lib, q, [h, l], [CR, LF]);
    assert [STAR, h, l, CR, LF][1..] == [h, l] + [CR, LF];
  }

  lemma LineEndsFit(lib: CLib, p: Parser)
    ensures Fits(lib, p, [CR, LF])
  {
    var q := Consume(lib, p, CR).0;
    assert [CR, LF][1..] == [LF];
    assert Fits(lib, q, [LF]) == Fits(lib, Consume(lib, q, LF).0, []);
  }
}
