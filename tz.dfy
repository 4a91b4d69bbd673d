/**
 * The TZif decoder of package tz (parse.go): a cursor over a byte buffer and
 * ParseLocation, which reads the header and the first (32-bit) data block of a
 * TZif file as laid out in RFC 8536, sections 3.1 and 3.2.
 *
 * Decode is the specification of the whole format as a function of the bytes;
 * ParseLocation is the step-by-step reader of the source, proved to agree with it.
 */
module Tz {
  import opened GoInt

  /** A Go `byte` (uint8). */
  type byte = x: int | 0 <= x < 0x100

  /** alpha, the beginning of time for zone transitions (math.MinInt64). */
  const Alpha: int64 := MinInt64

  /** A single time zone such as CEST or CET. */
  datatype Zone = Zone(name: string, offset: int64, isDST: bool)

  /** A transition: from `when` (seconds since 1970 UTC) on, zone `index` is in effect. */
  datatype ZoneTrans = ZoneTrans(when: int64, index: byte)

  /** The time offsets in use in one geographical area. */
  datatype Location = Location(name: string, zone: seq<Zone>, tx: seq<ZoneTrans>)

  /** What ParseLocation returns: a Location, or the single error errBadData. */
  datatype ParseResult = Parsed(loc: Location) | BadData

  /** The magic "TZif" at the start of every file. */
  const Magic: seq<byte> := [0x54, 0x5A, 0x69, 0x66]

  /** Bytes of the fixed header: magic (4), version (1), padding (15), six counts (24). */
  const HeaderSize: nat := 44

  /** Positions of the six header counts, in file order. */
  const NUTCLocal: nat := 0
  const NStdWall: nat := 1
  const NLeap: nat := 2
  const NTime: nat := 3
  const NZone: nat := 4
  const NChar: nat := 5

  /** The version byte: 0 for version 1, '2' or '3' for the later versions. */
  predicate KnownVersion(v: byte) {
    v == 0 || v == 0x32 || v == 0x33
  }

  /** Four bytes read as an unsigned big-endian 32-bit integer. */
  function BigEndian32(b: seq<byte>): (n: nat)
    requires |b| == 4
    ensures n < 0x1_0000_0000
  {
    (b[0] as int) * 0x100_0000 + (b[1] as int) * 0x1_0000 + (b[2] as int) * 0x100 + b[3]
  }

  /** Reference encoder: n as four big-endian bytes. */
  function Bytes32(n: nat): (b: seq<byte>)
    requires n < 0x1_0000_0000
    ensures |b| == 4
  {
    [n / 0x100 / 0x100 / 0x100, n / 0x100 / 0x100 % 0x100, n / 0x100 % 0x100, n % 0x100]
  }

  /** big4 decodes what the encoder writes. */
  lemma BigEndian32OfBytes32(n: nat)
    requires n < 0x1_0000_0000
    ensures BigEndian32(Bytes32(n)) == n
  {
    var q1 := n / 0x100;
    var q2 := q1 / 0x100;
    var q3 := q2 / 0x100;
    assert n == q1 * 0x100 + n % 0x100;
    assert q1 == q2 * 0x100 + q1 % 0x100;
    assert q2 == q3 * 0x100 + q2 % 0x100;
    assert Bytes32(n) == [q3, q2 % 0x100, q1 % 0x100, n % 0x100];
  }

  /** Every four bytes are the encoding of the value big4 decodes from them. */
  lemma Bytes32OfBigEndian32(b: seq<byte>)
    requires |b| == 4
    ensures Bytes32(BigEndian32(b)) == b
  {
    var m := BigEndian32(b);
    var q1 := (b[0] as int) * 0x1_0000 + (b[1] as int) * 0x100 + b[2];
    var q2 := (b[0] as int) * 0x100 + b[1];
    assert m == q1 * 0x100 + b[3];
    assert m / 0x100 == q1 && m % 0x100 == b[3];
    assert q1 == q2 * 0x100 + b[2];
    assert q1 / 0x100 == q2 && q1 % 0x100 == b[2];
    assert q2 / 0x100 == b[0] && q2 % 0x100 == b[1];
  }

  /** `int32(u)`: an unsigned 32-bit value reinterpreted in two's complement. */
  function Int32(u: nat): (v: int)
    requires u < 0x1_0000_0000
    ensures -0x8000_0000 <= v < 0x8000_0000
    ensures (u - v) % 0x1_0000_0000 == 0
    ensures v < 0 <==> u >= 0x8000_0000
  {
    if u < 0x8000_0000 then u else u - 0x1_0000_0000
  }

  /** `string(p)`: a Go string holds the bytes unchanged; here each byte becomes one character. */
  function Text(p: seq<byte>): (s: string)
    ensures |s| == |p|
    ensures forall i :: 0 <= i < |s| ==> s[i] as int == p[i]
  {
    seq(|p|, i requires 0 <= i < |p| => p[i] as char)
  }

  /** The bytes of `p` before its first NUL, or all of `p` when it has none. */
  function PrefixBeforeNul(p: seq<byte>): (s: string)
    ensures |s| <= |p|
    ensures |s| == |p| || p[|s|] == 0
  {
    if p == [] || p[0] == 0 then "" else [p[0] as char] + PrefixBeforeNul(p[1..])
  }

  /**
   * PrefixBeforeNul stops at the first NUL: every byte it keeps is nonzero and becomes
   * the character at the same position, so the result holds no NUL.
   */
  lemma {:induction false} PrefixBeforeNulChars(p: seq<byte>)
    ensures forall i :: 0 <= i < |PrefixBeforeNul(p)| ==> p[i] != 0 && PrefixBeforeNul(p)[i] == p[i] as char
    ensures '\0' !in PrefixBeforeNul(p)
  {
    if p != [] && p[0] != 0 {
      PrefixBeforeNulChars(p[1..]);
    }
  }

  /** byteString: make a string by stopping at the first NUL. */
  method ByteString(p: seq<byte>) returns (s: string)
    ensures s == PrefixBeforeNul(p)
  {
    for i := 0 to |p|
      invariant forall k :: 0 <= k < i ==> p[k] != 0
    {
      if p[i] == 0 {
        PrefixBeforeNulAt(p, i);
        return Text(p[0..i]);
      }
    }
    PrefixBeforeNulAt(p, |p|);
    return Text(p);
  }

  /** PrefixBeforeNul is the text of the bytes up to the first NUL at position i (or the end). */
  lemma {:induction false} PrefixBeforeNulAt(p: seq<byte>, i: nat)
    requires i <= |p|
    requires forall k :: 0 <= k < i ==> p[k] != 0
    requires i == |p| || p[i] == 0
    ensures PrefixBeforeNul(p) == Text(p[..i])
  {
    if i > 0 {
      PrefixBeforeNulAt(p[1..], i - 1);
      assert p[1..][..i - 1] == p[1..i];
    }
  }

  /**
   * dataIO: a cursor over a binary blob. The ghost fields say which blob it was made
   * over and how many bytes reads have asked for so far; once a read asks for more
   * than the blob holds, `error` is set and stays set.
   */
  class DataIO {
    var p: seq<byte>
    var error: bool
    ghost var blob: seq<byte>
    ghost var pos: nat

    ghost predicate Valid()
      reads this
    {
      (error <==> pos > |blob|) && (pos <= |blob| ==> p == blob[pos..]) && (pos > |blob| ==> p == [])
    }

    constructor (data: seq<byte>)
      ensures Valid() && blob == data && pos == 0
      ensures p == data && !error
    {
      p := data;
      error := false;
      blob := data;
      pos := 0;
    }

    /** read: the next n bytes, or (when fewer remain) nothing, with the cursor emptied and `error` set. */
    method Read(n: nat) returns (r: seq<byte>)
      requires Valid()
      modifies this
      ensures n <= |old(p)| ==> r == old(p)[..n] && p == old(p)[n..] && error == old(error)
      ensures |old(p)| < n ==> r == [] && p == [] && error
      ensures Valid() && blob == old(blob) && pos == old(pos) + n
      ensures error <==> pos > |blob|
      ensures pos <= |blob| ==> r == blob[old(pos)..pos]
    {
      pos := pos + n;
      if |p| < n {
        p := [];
        error := true;
        return [];
      }
      r := p[0..n];
      p := p[n..];
    }

    /** big4: the next four bytes as a big-endian unsigned 32-bit integer. */
    method Big4() returns (n: nat, ok: bool)
      requires Valid()
      modifies this
      ensures ok <==> 4 <= |old(p)|
      ensures ok ==> n == BigEndian32(old(p)[..4]) && p == old(p)[4..] && error == old(error)
      ensures !ok ==> n == 0 && p == [] && error
      ensures Valid() && blob == old(blob) && pos == old(pos) + 4
      ensures ok <==> pos <= |blob|
      ensures ok ==> n == BigEndian32(blob[old(pos)..pos])
    {
      var b := Read(4);
      if |b| < 4 {
        error := true;
        return 0, false;
      }
      return BigEndian32(b), true;
    }

    /** byte: the next byte. */
    method Byte() returns (n: byte, ok: bool)
      requires Valid()
      modifies this
      ensures ok <==> 1 <= |old(p)|
      ensures ok ==> n == old(p)[0] && p == old(p)[1..] && error == old(error)
      ensures !ok ==> n == 0 && p == [] && error
      ensures Valid() && blob == old(blob) && pos == old(pos) + 1
      ensures ok <==> pos <= |blob|
      ensures ok ==> n == blob[old(pos)]
    {
      var b := Read(1);
      if |b| < 1 {
        error := true;
        return 0, false;
      }
      return b[0], true;
    }
  }

  /** Count k of the header: the big-endian 32-bit integer at byte 20 + 4k. */
  function CountAt(data: seq<byte>, k: nat): nat
    requires k < 6 && |data| >= HeaderSize
  {
    BigEndian32(data[20 + 4 * k..24 + 4 * k])
  }

  /** The six counts of the header, in file order. */
  function HeaderCounts(data: seq<byte>): (n: seq<nat>)
    requires |data| >= HeaderSize
    ensures |n| == 6
    ensures forall k :: 0 <= k < 6 ==> n[k] == CountAt(data, k) < 0x1_0000_0000
  {
    [CountAt(data, 0), CountAt(data, 1), CountAt(data, 2), CountAt(data, 3), CountAt(data, 4), CountAt(data, 5)]
  }

  /** Bytes of the 32-bit data block that follows the header, for the given counts. */
  function BlockSize(n: seq<nat>): nat
    requires |n| == 6
  {
    n[NTime] * 4 + n[NTime] + n[NZone] * 6 + n[NChar] + n[NLeap] * 8 + n[NStdWall] + n[NUTCLocal]
  }

  /** The sections of the data block that the decoder keeps. */
  datatype Sections = Sections(txtimes: seq<byte>, txzones: seq<byte>, zonedata: seq<byte>, abbrev: seq<byte>)

  /** The abbreviation-table index of zone record i. */
  function AbbrevIndex(zonedata: seq<byte>, i: nat): byte
    requires 6 * i + 6 <= |zonedata|
  {
    zonedata[6 * i + 5]
  }

  /** Zone record i: utcoff[4] isdst[1] nameindex[1], its name looked up in the abbreviation table. */
  function ZoneAt(zonedata: seq<byte>, abbrev: seq<byte>, i: nat): (z: Zone)
    requires 6 * i + 6 <= |zonedata| && AbbrevIndex(zonedata, i) < |abbrev|
    ensures -0x8000_0000 <= z.offset < 0x8000_0000
    ensures z.isDST <==> zonedata[6 * i + 4] != 0
    ensures AbbrevIndex(zonedata, i) + |z.name| <= |abbrev|
  {
    Zone(PrefixBeforeNul(abbrev[AbbrevIndex(zonedata, i)..]),
         Int32(BigEndian32(zonedata[6 * i..6 * i + 4])),
         zonedata[6 * i + 4] != 0)
  }

  /** Transition i: its 32-bit time and its zone index byte. */
  function TransAt(txtimes: seq<byte>, txzones: seq<byte>, i: nat): (t: ZoneTrans)
    requires 4 * i + 4 <= |txtimes| && i < |txzones|
    ensures -0x8000_0000 <= t.when < 0x8000_0000
    ensures t.index == txzones[i]
  {
    ZoneTrans(Int32(BigEndian32(txtimes[4 * i..4 * i + 4])), txzones[i])
  }

  /** Every (whole) zone record names a position inside the abbreviation table. */
  predicate AbbrevsOk(zonedata: seq<byte>, abbrev: seq<byte>) {
    forall i :: 0 <= i < |zonedata| && 6 * i + 6 <= |zonedata| ==> AbbrevIndex(zonedata, i) < |abbrev|
  }

  /** Every transition names one of the nzone zones. */
  predicate TxZonesOk(txzones: seq<byte>, nzone: nat) {
    forall i :: 0 <= i < |txzones| ==> txzones[i] < nzone
  }

  /** The zones that the (whole) zone records describe, in file order. */
  function ZonesOf(zonedata: seq<byte>, abbrev: seq<byte>): (zs: seq<Zone>)
    requires AbbrevsOk(zonedata, abbrev)
    ensures 6 * |zs| <= |zonedata| < 6 * |zs| + 6
    decreases |zonedata|
  {
    if |zonedata| < 6 then []
    else
      assert forall k :: 0 <= k && 6 * k + 6 <= |zonedata| - 6 ==> AbbrevIndex(zonedata[6..], k) == AbbrevIndex(zonedata, k + 1);
      [ZoneAt(zonedata, abbrev, 0)] + ZonesOf(zonedata[6..], abbrev)
  }

  /** Zone k of ZonesOf is decoded from record k alone. */
  lemma {:induction false} ZonesOfAt(zonedata: seq<byte>, abbrev: seq<byte>, k: nat)
    requires AbbrevsOk(zonedata, abbrev) && 6 * k + 6 <= |zonedata|
    ensures k < |ZonesOf(zonedata, abbrev)|
    ensures ZonesOf(zonedata, abbrev)[k] == ZoneAt(zonedata, abbrev, k)
    decreases k
  {
    if k > 0 {
      var rest := zonedata[6..];
      ZoneAtRest(zonedata, abbrev, k);
      ZonesOfAt(rest, abbrev, k - 1);
    }
  }

  /** Dropping the first record shifts every later record, and its zone, down by one. */
  lemma ZoneAtRest(zonedata: seq<byte>, abbrev: seq<byte>, k: nat)
    requires AbbrevsOk(zonedata, abbrev) && 1 <= k && 6 * k + 6 <= |zonedata|
    ensures AbbrevsOk(zonedata[6..], abbrev)
    ensures ZoneAt(zonedata[6..], abbrev, k - 1) == ZoneAt(zonedata, abbrev, k)
  {
    var rest := zonedata[6..];
    assert forall j :: 0 <= j && 6 * j + 6 <= |rest| ==> AbbrevIndex(rest, j) == AbbrevIndex(zonedata, j + 1);
    assert rest[6 * (k - 1)..6 * (k - 1) + 4] == zonedata[6 * k..6 * k + 4];
    assert rest[6 * (k - 1) + 4] == zonedata[6 * k + 4];
  }

  /** The transitions that the time and index sections describe, in file order. */
  function TransitionsOf(txtimes: seq<byte>, txzones: seq<byte>): (tx: seq<ZoneTrans>)
    requires |txtimes| == 4 * |txzones|
    ensures |tx| == |txzones|
    decreases |txzones|
  {
    if |txzones| == 0 then []
    else
      var m := |txzones| - 1;
      TransitionsOf(txtimes[..4 * m], txzones[..m]) + [TransAt(txtimes, txzones, m)]
  }

  /** Transition k of TransitionsOf is decoded from time k and index k alone. */
  lemma {:induction false} TransitionsOfAt(txtimes: seq<byte>, txzones: seq<byte>, k: nat)
    requires |txtimes| == 4 * |txzones| && k < |txzones|
    ensures TransitionsOf(txtimes, txzones)[k] == TransAt(txtimes, txzones, k)
    decreases |txzones|
  {
    var m := |txzones| - 1;
    if k < m {
      TransitionsOfAt(txtimes[..4 * m], txzones[..m], k);
      assert txtimes[..4 * m][4 * k..4 * k + 4] == txtimes[4 * k..4 * k + 4];
    }
  }

  /** The header is well formed: magic, a known version byte, and six counts present. */
  predicate HeaderOk(data: seq<byte>) {
    |data| >= HeaderSize && data[..4] == Magic && KnownVersion(data[4])
  }

  /** The whole version-1 data block fits in the buffer. */
  predicate BlockFits(data: seq<byte>)
    requires HeaderOk(data)
  {
    BlockSize(HeaderCounts(data)) <= |data| - HeaderSize
  }

  /** The sections of a buffer whose header and data block are complete. */
  function SectionsIn(data: seq<byte>): (s: Sections)
    requires HeaderOk(data) && BlockFits(data)
    ensures WellSized(s)
    ensures |s.txzones| == HeaderCounts(data)[NTime] && |s.zonedata| == 6 * HeaderCounts(data)[NZone]
    ensures |s.abbrev| == HeaderCounts(data)[NChar]
  {
    var n := HeaderCounts(data);
    var t := HeaderSize + 4 * n[NTime];
    var z := t + n[NTime];
    var a := z + 6 * n[NZone];
    Sections(data[HeaderSize..t], data[t..z], data[z..a], data[a..a + n[NChar]])
  }

  /** Sections whose transition times hold 4 bytes per zone index byte. */
  predicate WellSized(s: Sections) {
    |s.txtimes| == 4 * |s.txzones|
  }

  /**
   * The Location that complete sections describe, or BadData when a zone record or a
   * transition holds an index out of range. A file without transitions gets a single
   * transition at the start of time to zone 0.
   */
  function DecodeSections(name: string, s: Sections): (r: ParseResult)
    requires WellSized(s)
    ensures !AbbrevsOk(s.zonedata, s.abbrev) ==> r == BadData
    ensures r.Parsed? ==> r.loc.name == name && 6 * |r.loc.zone| <= |s.zonedata| < 6 * |r.loc.zone| + 6
    ensures AbbrevsOk(s.zonedata, s.abbrev) ==> (r.Parsed? <==> TxZonesOk(s.txzones, |ZonesOf(s.zonedata, s.abbrev)|))
    ensures r.Parsed? ==> |r.loc.tx| == if |s.txzones| == 0 then 1 else |s.txzones|
  {
    if !AbbrevsOk(s.zonedata, s.abbrev) then BadData
    else
      var zone := ZonesOf(s.zonedata, s.abbrev);
      if !TxZonesOk(s.txzones, |zone|) then BadData
      else
        var tx := if |s.txzones| == 0 then [ZoneTrans(Alpha, 0)] else TransitionsOf(s.txtimes, s.txzones);
        Parsed(Location(name, zone, tx))
  }

  /**
   * The specification of ParseLocation: the Location that `data` describes, named `name`,
   * or BadData for a bad header, a short buffer or an index out of range.
   */
  function Decode(name: string, data: seq<byte>): (r: ParseResult)
    ensures r.Parsed? ==> HeaderOk(data) && BlockFits(data)
    ensures r.Parsed? ==> r.loc.name == name && |r.loc.tx| >= 1
  {
    if !HeaderOk(data) || !BlockFits(data) then BadData
    else DecodeSections(name, SectionsIn(data))
  }

  /**
   * ParseLocation returns a Location with the given name initialized from
   * TZif data, reading only the version-1 data block.
   */
  method ParseLocation(name: string, data: seq<byte>) returns (r: ParseResult)
    ensures r == Decode(name, data)
  {
    var d := new DataIO(data);

    // 4-byte magic "TZif"
    var magic := d.Read(4);
    if magic != Magic {
      RejectsBadHeader(name, data);
      return BadData;
    }

    // 1-byte version, then 15 bytes of padding
    var p := d.Read(16);
    if |p| != 16 || (p[0] != 0 && p[0] != 0x32 && p[0] != 0x33) {
      RejectsBadHeader(name, data);
      return BadData;
    }
    assert data[..4] == Magic && data[4] == p[0];

    // six big-endian 32-bit counts
    var n, ok := ReadCounts(d);
    if !ok {
      RejectsBadHeader(name, data);
      return BadData;
    }
    assert HeaderOk(data);

    var sections, fits := ReadBlock(d, n);
    if !fits {
      // ran out of data
      return BadData;
    }
    r := BuildLocation(name, sections, n[NZone]);
  }

  /**
   * The section reads of ParseLocation: transition times, transition zone indices, zone
   * records and abbreviations are kept; leap-second pairs and the standard/wall and
   * UT/local indicators are read and discarded. Any of them running past the end of the
   * buffer is an error.
   */
  method ReadBlock(d: DataIO, n: seq<nat>) returns (s: Sections, ok: bool)
    requires d.Valid() && !d.error && d.pos == HeaderSize
    requires HeaderOk(d.blob) && n == HeaderCounts(d.blob)
    modifies d
    ensures d.Valid() && d.blob == old(d.blob) && d.pos == HeaderSize + BlockSize(n)
    ensures d.error <==> !ok
    ensures ok <==> BlockFits(d.blob)
    ensures ok ==> s == SectionsIn(d.blob)
  {
    ghost var data := d.blob;
    var times := d.Read(n[NTime] * 4);
    ghost var t := d.pos;
    assert t == HeaderSize + n[NTime] * 4 && (t <= |data| ==> times == data[HeaderSize..t]);
    var txzones := d.Read(n[NTime]);
    ghost var z := d.pos;
    assert z == t + n[NTime] && (z <= |data| ==> txzones == data[t..z]);
    var zones := d.Read(n[NZone] * 6);
    ghost var a := d.pos;
    assert a == z + n[NZone] * 6 && (a <= |data| ==> zones == data[z..a]);
    var abbrev := d.Read(n[NChar]);
    ghost var c := d.pos;
    assert c == a + n[NChar] && (c <= |data| ==> abbrev == data[a..c]);
    var leap := d.Read(n[NLeap] * 8);
    var isstd := d.Read(n[NStdWall]);
    var isutc := d.Read(n[NUTCLocal]);
    assert d.pos == HeaderSize + BlockSize(n);
    s := Sections(times, txzones, zones, abbrev);
    if d.error {
      return s, false;
    }
    SectionsInData(data, t, z, a, c);
    return s, true;
  }

  /**
   * The record loops of ParseLocation and the fake transition it adds to a file without
   * transitions.
   */
  method BuildLocation(name: string, s: Sections, nzone: nat) returns (r: ParseResult)
    requires WellSized(s) && |s.zonedata| == 6 * nzone
    ensures r == DecodeSections(name, s)
  {
    var zone, zonesOk := ReadZones(s.zonedata, s.abbrev, nzone);
    if !zonesOk {
      return BadData;
    }
    var tx, txOk := ReadTransitions(s.txtimes, s.txzones, |s.txzones|, |zone|);
    if !txOk {
      return BadData;
    }
    if |tx| == 0 {
      // a fake transition to cover all time, as in fixed locations such as "Etc/GMT0"
      tx := tx + [ZoneTrans(Alpha, 0)];
    }
    return Parsed(Location(name, zone, tx));
  }

  /**
   * The counts loop of ParseLocation: six big-endian 32-bit integers, in the order
   * NUTCLocal, NStdWall, NLeap, NTime, NZone, NChar.
   */
  method ReadCounts(d: DataIO) returns (n: seq<nat>, ok: bool)
    requires d.Valid() && d.pos == 20 && !d.error
    modifies d
    ensures d.Valid() && d.blob == old(d.blob)
    ensures ok <==> HeaderSize <= |d.blob|
    ensures ok ==> d.pos == HeaderSize && n == HeaderCounts(d.blob) && !d.error
    ensures !ok ==> d.error && d.p == []
  {
    // (a Go array is a value: n is a local sequence updated in place)
    n := [0, 0, 0, 0, 0, 0];
    for i := 0 to 6
      invariant d.Valid() && d.blob == old(d.blob) && d.pos == 20 + 4 * i && !d.error
      invariant |n| == 6
      invariant forall k :: 0 <= k < i ==> n[k] == BigEndian32(d.blob[20 + 4 * k..24 + 4 * k])
    {
      var nn, ok1 := d.Big4();
      if !ok1 {
        return n, false;
      }
      n := n[i := nn];
    }
    return n, true;
  }

  /**
   * The zone records loop of ParseLocation: utcoff[4] isdst[1] nameindex[1] for each
   * of the n zones; it fails on a name index outside the abbreviation table.
   */
  method ReadZones(records: seq<byte>, abbrev: seq<byte>, n: nat) returns (zone: seq<Zone>, ok: bool)
    requires |records| == 6 * n
    ensures ok <==> AbbrevsOk(records, abbrev)
    ensures ok ==> zone == ZonesOf(records, abbrev)
  {
    var zonedata := new DataIO(records);
    zone := seq(n, _ => Zone("", 0, false));
    for i := 0 to n
      invariant zonedata.Valid() && zonedata.blob == records && zonedata.pos == 6 * i
      invariant |zone| == n
      invariant forall k :: 0 <= k < i ==> AbbrevIndex(records, k) < |abbrev| && zone[k] == ZoneAt(records, abbrev, k)
    {
      var u, ok1 := zonedata.Big4();
      if !ok1 {
        return zone, false;
      }
      zone := zone[i := zone[i].(offset := Int32(u))];
      var b, ok2 := zonedata.Byte();
      if !ok2 {
        return zone, false;
      }
      zone := zone[i := zone[i].(isDST := b != 0)];
      var c, ok3 := zonedata.Byte();
      assert ok3 && c == AbbrevIndex(records, i);
      if !ok3 || c >= |abbrev| {
        return zone, false;
      }
      var abbr := ByteString(abbrev[c..]);
      zone := zone[i := zone[i].(name := abbr)];
    }
    forall k | 0 <= k < n
      ensures ZonesOf(records, abbrev)[k] == ZoneAt(records, abbrev, k)
    {
      ZonesOfAt(records, abbrev, k);
    }
    return zone, true;
  }

  /**
   * The transitions loop of ParseLocation: a 32-bit time and a zone index for each of
   * the n transitions; it fails on a zone index that is not below nzone.
   */
  method ReadTransitions(times: seq<byte>, txzones: seq<byte>, n: nat, nzone: nat) returns (tx: seq<ZoneTrans>, ok: bool)
    requires |times| == 4 * n && |txzones| == n
    ensures ok <==> TxZonesOk(txzones, nzone)
    ensures ok ==> tx == TransitionsOf(times, txzones)
  {
    var txtimes := new DataIO(times);
    tx := seq(n, _ => ZoneTrans(0, 0));
    for i := 0 to n
      invariant txtimes.Valid() && txtimes.blob == times && txtimes.pos == 4 * i
      invariant |tx| == n
      invariant forall k :: 0 <= k < i ==> txzones[k] < nzone && tx[k] == TransAt(times, txzones, k)
    {
      var u, ok1 := txtimes.Big4();
      if !ok1 {
        return tx, false;
      }
      tx := tx[i := tx[i].(when := Int32(u))];
      if txzones[i] >= nzone {
        return tx, false;
      }
      tx := tx[i := tx[i].(index := txzones[i])];
    }
    forall k | 0 <= k < n
      ensures TransitionsOf(times, txzones)[k] == TransAt(times, txzones, k)
    {
      TransitionsOfAt(times, txzones, k);
    }
    return tx, true;
  }

  /** Where each kept section lies in the buffer: t, z, a and c are where they end. */
  lemma SectionsInData(data: seq<byte>, t: nat, z: nat, a: nat, c: nat)
    requires HeaderOk(data) && BlockFits(data)
    requires t == HeaderSize + 4 * HeaderCounts(data)[NTime]
    requires z == t + HeaderCounts(data)[NTime]
    requires a == z + 6 * HeaderCounts(data)[NZone]
    requires c == a + HeaderCounts(data)[NChar]
    ensures c <= |data|
    ensures SectionsIn(data) == Sections(data[HeaderSize..t], data[t..z], data[z..a], data[a..c])
  {
  }

  /** A buffer without the magic, a known version byte and six counts is malformed. */
  lemma RejectsBadHeader(name: string, data: seq<byte>)
    requires |data| < HeaderSize || data[..4] != Magic || !KnownVersion(data[4])
    ensures Decode(name, data) == BadData
  {
  }

  /** A buffer too short for its data block is malformed, even where the missing bytes would be discarded. */
  lemma RejectsShortBlock(name: string, data: seq<byte>)
    requires HeaderOk(data)
    requires |data| - HeaderSize < BlockSize(HeaderCounts(data))
    ensures Decode(name, data) == BadData
  {
  }

  /** A zone record whose abbreviation index lies outside the table makes the buffer malformed. */
  lemma RejectsBadAbbrevIndex(name: string, data: seq<byte>, i: nat)
    requires HeaderOk(data) && BlockFits(data)
    requires i < HeaderCounts(data)[NZone]
    requires AbbrevIndex(SectionsIn(data).zonedata, i) >= HeaderCounts(data)[NChar]
    ensures Decode(name, data) == BadData
  {
  }

  /** A transition whose zone index is not below the zone count makes the buffer malformed. */
  lemma RejectsBadZoneIndex(name: string, data: seq<byte>, i: nat)
    requires HeaderOk(data) && BlockFits(data)
    requires i < HeaderCounts(data)[NTime]
    requires SectionsIn(data).txzones[i] >= HeaderCounts(data)[NZone]
    ensures Decode(name, data) == BadData
  {
  }

  /** A successful parse is the Location that the sections of the buffer describe. */
  lemma DecodedSections(name: string, data: seq<byte>)
    requires Decode(name, data).Parsed?
    ensures HeaderOk(data) && BlockFits(data)
    ensures
      var s := SectionsIn(data);
      && AbbrevsOk(s.zonedata, s.abbrev)
      && TxZonesOk(s.txzones, HeaderCounts(data)[NZone])
      && Decode(name, data).loc.zone == ZonesOf(s.zonedata, s.abbrev)
      && (|s.txzones| != 0 ==> Decode(name, data).loc.tx == TransitionsOf(s.txtimes, s.txzones))
  {
  }

  /**
   * A successful parse keeps the name, has one zone per zone record and, when the file
   * lists no transitions, a single transition to zone 0 at the start of time (even when
   * there is no zone 0); otherwise one transition per listed transition, each naming an
   * existing zone.
   */
  lemma ParsedLocation(name: string, data: seq<byte>)
    requires Decode(name, data).Parsed?
    ensures HeaderOk(data) && BlockFits(data)
    ensures
      var l := Decode(name, data).loc;
      var n := HeaderCounts(data);
      && l.name == name
      && |l.zone| == n[NZone]
      && (n[NTime] == 0 ==> l.tx == [ZoneTrans(Alpha, 0)])
      && (n[NTime] != 0 ==> |l.tx| == n[NTime] && forall i :: 0 <= i < |l.tx| ==> l.tx[i].index < |l.zone|)
  {
    var s := SectionsIn(data);
    var n := HeaderCounts(data);
    assert AbbrevsOk(s.zonedata, s.abbrev) && TxZonesOk(s.txzones, n[NZone]);
    var tx := if |s.txzones| == 0 then [ZoneTrans(Alpha, 0)] else TransitionsOf(s.txtimes, s.txzones);
    assert Decode(name, data).loc == Location(name, ZonesOf(s.zonedata, s.abbrev), tx);
    if |s.txzones| != 0 {
      forall i | 0 <= i < |tx|
        ensures tx[i].index < n[NZone]
      {
        TransitionsOfAt(s.txtimes, s.txzones, i);
      }
    }
  }

  /**
   * Transition i of a successful parse, in file order: its time is the i-th big-endian
   * 32-bit word after the header, sign-extended (so within the int32 range), and its zone
   * index is the i-th byte after the times.
   */
  lemma ParsedTransitionAt(name: string, data: seq<byte>, i: nat)
    requires HeaderOk(data) && BlockFits(data) && Decode(name, data).Parsed?
    requires i < HeaderCounts(data)[NTime]
    ensures i < |Decode(name, data).loc.tx|
    ensures
      var tr := Decode(name, data).loc.tx[i];
      var nt := HeaderCounts(data)[NTime];
      && tr.when == Int32(BigEndian32(data[HeaderSize + 4 * i..HeaderSize + 4 * i + 4]))
      && -0x8000_0000 <= tr.when < 0x8000_0000
      && tr.index == data[HeaderSize + 4 * nt + i]
  {
    DecodedSections(name, data);
    TransitionInData(data, i);
  }

  /** Transition i of the sections of a well-formed file, at its raw byte offsets. */
  lemma TransitionInData(data: seq<byte>, i: nat)
    requires HeaderOk(data) && BlockFits(data) && i < HeaderCounts(data)[NTime]
    ensures
      var s := SectionsIn(data);
      var nt := HeaderCounts(data)[NTime];
      && |s.txtimes| == 4 * |s.txzones| && |s.txzones| == nt
      && TransitionsOf(s.txtimes, s.txzones)[i] ==
           ZoneTrans(Int32(BigEndian32(data[HeaderSize + 4 * i..HeaderSize + 4 * i + 4])), data[HeaderSize + 4 * nt + i])
  {
    var n := HeaderCounts(data);
    var t := HeaderSize + 4 * n[NTime];
    var z := t + n[NTime];
    var a := z + 6 * n[NZone];
    SectionsInData(data, t, z, a, a + n[NChar]);
    var s := SectionsIn(data);
    TransitionsOfAt(s.txtimes, s.txzones, i);
    TransAtInData(data, HeaderSize, t, z, s.txtimes, s.txzones, i);
  }

  /**
   * Zone i of a successful parse, in file order, with its record at data[r..r + 6] and the
   * abbreviation table at data[a..c]: its offset is the big-endian 32-bit word of the
   * record, sign-extended (so within the int32 range), isDST says whether the next byte is
   * nonzero, and its name is the table from the record's last byte on, cut at the first NUL.
   */
  lemma ParsedZoneAt(name: string, data: seq<byte>, i: nat, r: nat, a: nat, c: nat)
    requires HeaderOk(data) && BlockFits(data) && Decode(name, data).Parsed?
    requires i < HeaderCounts(data)[NZone]
    requires r == HeaderSize + 5 * HeaderCounts(data)[NTime] + 6 * i
    requires a == HeaderSize + 5 * HeaderCounts(data)[NTime] + 6 * HeaderCounts(data)[NZone]
    requires c == a + HeaderCounts(data)[NChar]
    ensures i < |Decode(name, data).loc.zone| && r + 6 <= a && c <= |data|
    ensures a + data[r + 5] < c
    ensures Decode(name, data).loc.zone[i] ==
      Zone(PrefixBeforeNul(data[a + data[r + 5]..c]), Int32(BigEndian32(data[r..r + 4])), data[r + 4] != 0)
    ensures -0x8000_0000 <= Decode(name, data).loc.zone[i].offset < 0x8000_0000
  {
    var n := HeaderCounts(data);
    var t := HeaderSize + 4 * n[NTime];
    var z := t + n[NTime];
    assert 6 * i + 6 <= 6 * n[NZone];
    assert r == z + 6 * i && a == z + 6 * n[NZone];
    DecodedSections(name, data);
    SectionsInData(data, t, z, a, c);
    var s := SectionsIn(data);
    ZonesOfAt(s.zonedata, s.abbrev, i);
    ZoneAtInData(data, z, a, c, s.zonedata, s.abbrev, i, r);
  }

  /** The version byte 0 (version 1) and the 15 reserved bytes after it. */
  const VersionOnePadding: seq<byte> := [0, 0, 0, 0, 0, 0, 0, 0, 0, 0, 0, 0, 0, 0, 0, 0]

  /** The six counts of a file with one zone record, four abbreviation bytes and nothing else. */
  const FixedUtcCounts: seq<byte> := Bytes32(0) + Bytes32(0) + Bytes32(0) + Bytes32(0) + Bytes32(1) + Bytes32(4)

  /** A zone record: offset 0, not DST, name at index 0 of the table. */
  const FixedUtcRecord: seq<byte> := [0, 0, 0, 0, 0, 0]

  /** The abbreviation table "UTC\0". */
  const FixedUtcAbbrev: seq<byte> := [0x55, 0x54, 0x43, 0]

  /** A version-1 file for a fixed UTC zone, without transitions. */
  const FixedUtcFile: seq<byte> := Magic + VersionOnePadding + FixedUtcCounts + FixedUtcRecord + FixedUtcAbbrev

  /**
   * A fixed-offset file without transitions parses to its one zone and the single
   * transition to zone 0 at the start of time.
   */
  lemma FixedUtcParses(name: string)
    ensures Decode(name, FixedUtcFile) == Parsed(Location(name, [Zone("UTC", 0, false)], [ZoneTrans(Alpha, 0)]))
  {
    var data := FixedUtcFile;
    FixedUtcHeader();
    assert data[44..50] == FixedUtcRecord && data[50..54] == FixedUtcAbbrev;
    assert SectionsIn(data) == Sections([], [], FixedUtcRecord, FixedUtcAbbrev);
    FixedUtcSections(name);
  }

  /** The sections of FixedUtcFile describe the one zone UTC and no transitions. */
  lemma FixedUtcSections(name: string)
    ensures DecodeSections(name, Sections([], [], FixedUtcRecord, FixedUtcAbbrev))
      == Parsed(Location(name, [Zone("UTC", 0, false)], [ZoneTrans(Alpha, 0)]))
  {
    FixedUtcZones();
  }

  /** The header of FixedUtcFile: version 1, one zone record, four abbreviation bytes. */
  lemma FixedUtcHeader()
    ensures HeaderOk(FixedUtcFile) && HeaderCounts(FixedUtcFile) == [0, 0, 0, 0, 1, 4]
    ensures BlockFits(FixedUtcFile)
  {
    var data := FixedUtcFile;
    assert |data| == 54 && data[..4] == Magic && data[4] == 0;
    var w := FixedUtcCounts;
    assert data[20..44] == w;
    assert w[0..4] == w[4..8] == w[8..12] == w[12..16] == Bytes32(0);
    assert w[16..20] == Bytes32(1) && w[20..24] == Bytes32(4);
    BigEndian32OfBytes32(0);
    BigEndian32OfBytes32(1);
    BigEndian32OfBytes32(4);
    CountIn(data, 0, Bytes32(0));
    CountIn(data, 1, Bytes32(0));
    CountIn(data, 2, Bytes32(0));
    CountIn(data, 3, Bytes32(0));
    CountIn(data, 4, Bytes32(1));
    CountIn(data, 5, Bytes32(4));
  }

  /** Count k is the big-endian value of the four bytes at 4k in the counts area data[20..44]. */
  lemma CountIn(data: seq<byte>, k: nat, w: seq<byte>)
    requires |data| >= HeaderSize && k < 6 && |w| == 4
    requires data[20..44][4 * k..4 * k + 4] == w
    ensures CountAt(data, k) == BigEndian32(w)
  {
    SliceOfSlice(data, 20, 44, 4 * k, 4 * k + 4);
  }

  /** The one zone record of FixedUtcFile decodes to UTC, offset 0, not DST. */
  lemma FixedUtcZones()
    ensures AbbrevsOk(FixedUtcRecord, FixedUtcAbbrev)
    ensures ZonesOf(FixedUtcRecord, FixedUtcAbbrev) == [Zone("UTC", 0, false)]
  {
    var zonedata, abbrev := FixedUtcRecord, FixedUtcAbbrev;
    assert AbbrevIndex(zonedata, 0) == 0;
    assert AbbrevsOk(zonedata, abbrev);
    assert abbrev[0..] == abbrev;
    PrefixBeforeNulAt(abbrev, 3);
    assert Text(abbrev[..3]) == "UTC";
    assert zonedata[0..4] == [0, 0, 0, 0];
    assert ZoneAt(zonedata, abbrev, 0) == Zone("UTC", 0, false);
    assert zonedata[6..] == [];
  }

  /** Transition i of the times at data[lo..t] and the zone indices at data[t..z]. */
  lemma TransAtInData(data: seq<byte>, lo: nat, t: nat, z: nat, txtimes: seq<byte>, txzones: seq<byte>, i: nat)
    requires lo <= t <= z <= |data| && txtimes == data[lo..t] && txzones == data[t..z]
    requires t - lo == 4 * (z - t) && i < z - t
    ensures TransAt(txtimes, txzones, i) ==
      ZoneTrans(Int32(BigEndian32(data[lo + 4 * i..lo + 4 * i + 4])), data[t + i])
  {
    SliceOfSlice(data, lo, t, 4 * i, 4 * i + 4);
  }

  /**
   * Zone record i, at data[r..r + 6] inside the records at data[z..a], with its name in
   * the table at data[a..c].
   */
  lemma ZoneAtInData(data: seq<byte>, z: nat, a: nat, c: nat, zonedata: seq<byte>, abbrev: seq<byte>, i: nat, r: nat)
    requires z <= a <= c <= |data| && zonedata == data[z..a] && abbrev == data[a..c]
    requires r == z + 6 * i && r + 6 <= a
    requires AbbrevIndex(zonedata, i) < |abbrev|
    ensures data[r + 5] < c - a
    ensures ZoneAt(zonedata, abbrev, i) ==
      Zone(PrefixBeforeNul(data[a + data[r + 5]..c]), Int32(BigEndian32(data[r..r + 4])), data[r + 4] != 0)
  {
    var x := data[r + 5];
    assert AbbrevIndex(zonedata, i) == x;
    assert zonedata[6 * i + 4] == data[r + 4];
    SliceOfSlice(data, z, a, 6 * i, 6 * i + 4);
    SliceOfSlice(data, a, c, x, c - a);
    assert abbrev[x..] == data[a + x..c];
  }

  /** A slice of a slice is a slice of the whole. */
  lemma SliceOfSlice(data: seq<byte>, lo: nat, hi: nat, j: nat, k: nat)
    requires lo <= hi <= |data| && j <= k <= hi - lo
    ensures data[lo..hi][j..k] == data[lo + j..lo + k]
  {
    assert |data[lo..hi][j..k]| == k - j == |data[lo + j..lo + k]|;
    forall m | 0 <= m < k - j
      ensures data[lo..hi][j..k][m] == data[lo + j..lo + k][m]
    {
    }
  }
}
