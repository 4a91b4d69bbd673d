/**
 * The moment-timezone.js packer of package moment (moment/moment.go): Packed merges
 * zones with equal name and offset, renumbers the zones the transitions use in order of
 * first use, and writes the location as five '|'-separated fields: name, abbreviations,
 * offsets, zone indices and untils.
 *
 * Pack is the specification of Packed as a function of the Location, built from one
 * function per phase; Packed is the step-by-step method of the source, proved to agree.
 */
module Moment {
  import opened GoInt
  import opened Tz
  import opened Base60

  /* ---------------- Go integers ---------------- */

  /** 2^64, the modulus of Go's int64 arithmetic. */
  const Mod64: int := 0x1_0000_0000_0000_0000

  /** Go's int64 arithmetic: x brought into the int64 range by adding or subtracting 2^64. */
  function Wrap64(x: int): (w: int64)
    ensures MinInt64 <= x <= MaxInt64 ==> w == x
    decreases if x < MinInt64 then MinInt64 - x else if x > MaxInt64 then x - MaxInt64 else 0
  {
    if x < MinInt64 then Wrap64(x + Mod64)
    else if x > MaxInt64 then Wrap64(x - Mod64)
    else x
  }

  /** Wrapping changes a value by a multiple of 2^64. */
  lemma {:induction false} Wrap64Congruent(x: int)
    ensures (Wrap64(x) - x) % Mod64 == 0
    decreases if x < MinInt64 then MinInt64 - x else if x > MaxInt64 then x - MaxInt64 else 0
  {
    if x < MinInt64 {
      Wrap64Congruent(x + Mod64);
    } else if x > MaxInt64 {
      Wrap64Congruent(x - Mod64);
    }
  }

  /** The difference of two multiples of 2^64 is a multiple of 2^64. */
  lemma DivisibleDiff(a: int, b: int)
    requires a % Mod64 == 0 && b % Mod64 == 0
    ensures (b - a) % Mod64 == 0
  {
    assert a == Mod64 * (a / Mod64);
    assert b == Mod64 * (b / Mod64);
    assert b - a == Mod64 * (b / Mod64 - a / Mod64);
  }

  /** The one int64 that differs from x by a multiple of 2^64 is Wrap64(x). */
  lemma Wrap64Unique(x: int, t: int64)
    requires (x - t) % Mod64 == 0
    ensures Wrap64(x) == t
  {
    var w := Wrap64(x);
    Wrap64Congruent(x);
    DivisibleDiff(x - t, 0);
    DivisibleDiff(t - x, w - x);
    assert (w - x) - (t - x) == w - t;
    assert w - t == Mod64 * ((w - t) / Mod64);
  }

  /** Go's conversion uint8(x): the low eight bits of x. */
  function Uint8(x: nat): (b: byte)
    ensures x < 0x100 ==> b == x
  {
    x % 0x100
  }

  /* ---------------- Deduplication (the first loop of Packed) ---------------- */

  /** Two zones are merged when their names and offsets agree; isDST is not compared. */
  predicate SameZone(a: Zone, b: Zone) {
    a.name == b.name && a.offset == b.offset
  }

  /** The first position of a zone of ds that SameZone matches with z, or |ds| if none does. */
  function FindSame(ds: seq<Zone>, z: Zone): (j: nat)
    ensures j <= |ds|
    ensures j < |ds| ==> SameZone(ds[j], z)
  {
    if |ds| == 0 then 0
    else if SameZone(ds[0], z) then 0
    else 1 + FindSame(ds[1..], z)
  }

  /** No zone before FindSame(ds, z) matches z. */
  lemma {:induction false} FindSameFirst(ds: seq<Zone>, z: Zone, k: nat)
    requires k < FindSame(ds, z)
    ensures !SameZone(ds[k], z)
    decreases k
  {
    if k > 0 {
      FindSameFirst(ds[1..], z, k - 1);
    }
  }

  /** FindSame(ds, z) is the j at which a scan from the front first matches, or |ds|. */
  lemma FindSameIs(ds: seq<Zone>, z: Zone, j: nat)
    requires j <= |ds|
    requires forall k :: 0 <= k < j ==> !SameZone(ds[k], z)
    requires j < |ds| ==> SameZone(ds[j], z)
    ensures FindSame(ds, z) == j
  {
    if j < FindSame(ds, z) {
      FindSameFirst(ds, z, j);
    }
  }

  /** The merged zones, and for each zone of the input the position of its merged zone. */
  datatype Dedup = Dedup(zones: seq<Zone>, index: seq<nat>)

  /**
   * dedupZones and dedupMap: each zone is merged into the first earlier merged zone
   * with the same name and offset, or appended as a new merged zone.
   */
  function DedupOf(zones: seq<Zone>): (d: Dedup)
    ensures |d.index| == |zones| && |d.zones| <= |zones|
  {
    if |zones| == 0 then Dedup([], [])
    else
      var d := DedupOf(zones[..|zones| - 1]);
      var z := zones[|zones| - 1];
      var j := FindSame(d.zones, z);
      if j < |d.zones| then Dedup(d.zones, d.index + [j])
      else Dedup(d.zones + [z], d.index + [|d.zones|])
  }

  /**
   * Each zone i is mapped to a merged zone with its name and offset, at a position no
   * greater than i.
   */
  lemma {:induction false} DedupIndex(zones: seq<Zone>)
    ensures var d := DedupOf(zones);
      forall i :: 0 <= i < |zones| ==>
        d.index[i] < |d.zones| && d.index[i] <= i && SameZone(d.zones[d.index[i]], zones[i])
  {
    if |zones| > 0 {
      var p := zones[..|zones| - 1];
      DedupIndex(p);
      var d' := DedupOf(p);
      var d := DedupOf(zones);
      forall i | 0 <= i < |zones|
        ensures d.index[i] < |d.zones| && d.index[i] <= i && SameZone(d.zones[d.index[i]], zones[i])
      {
        if i < |p| {
          assert d.index[i] == d'.index[i] && zones[i] == p[i];
          assert d.zones[d'.index[i]] == d'.zones[d'.index[i]];
        }
      }
    }
  }

  /** Each merged zone is some input zone, kept whole, that is mapped to it. */
  lemma {:induction false} DedupOrigin(zones: seq<Zone>, k: nat) returns (i: nat)
    requires k < |DedupOf(zones).zones|
    ensures i < |zones| && DedupOf(zones).index[i] == k && DedupOf(zones).zones[k] == zones[i]
  {
    var p := zones[..|zones| - 1];
    var d' := DedupOf(p);
    if k < |d'.zones| {
      i := DedupOrigin(p, k);
    } else {
      i := |zones| - 1;
    }
  }

  /** No two zones of zs have the same name and offset. */
  predicate DistinctZones(zs: seq<Zone>) {
    forall a, b :: 0 <= a < b < |zs| ==> !SameZone(zs[a], zs[b])
  }

  /** The merged zones have pairwise different (name, offset). */
  lemma {:induction false} DedupDistinct(zones: seq<Zone>)
    ensures DistinctZones(DedupOf(zones).zones)
  {
    if |zones| > 0 {
      var p := zones[..|zones| - 1];
      var z := zones[|zones| - 1];
      DedupDistinct(p);
      var d' := DedupOf(p);
      var d := DedupOf(zones);
      if FindSame(d'.zones, z) == |d'.zones| {
        forall a, b | 0 <= a < b < |d.zones|
          ensures !SameZone(d.zones[a], d.zones[b])
        {
          assert d.zones[a] == d'.zones[a];
          if b == |d'.zones| {
            FindSameFirst(d'.zones, z, a);
            assert d.zones[b] == z;
          } else {
            assert d.zones[b] == d'.zones[b];
          }
        }
      } else {
        assert d.zones == d'.zones;
      }
    }
  }

  /** A zone with no earlier zone of the same name and offset becomes a merged zone, whole. */
  lemma {:induction false} DedupKeepsFirst(zones: seq<Zone>, i: nat)
    requires i < |zones|
    requires forall k :: 0 <= k < i ==> !SameZone(zones[k], zones[i])
    ensures var d := DedupOf(zones); d.index[i] < |d.zones| && d.zones[d.index[i]] == zones[i]
  {
    var p := zones[..|zones| - 1];
    var d' := DedupOf(p);
    var d := DedupOf(zones);
    if i < |p| {
      DedupKeepsFirst(p, i);
      assert d.index[i] == d'.index[i] && zones[i] == p[i];
      assert d.zones[d'.index[i]] == d'.zones[d'.index[i]];
    } else {
      var j := FindSame(d'.zones, zones[i]);
      if j < |d'.zones| {
        var k := DedupOrigin(p, j);
        assert false;
      }
    }
  }

  /** Zones with the same name and offset are mapped to the same merged zone. */
  lemma DedupSameIndex(zones: seq<Zone>, i: nat, k: nat)
    requires i < |zones| && k < |zones| && SameZone(zones[i], zones[k])
    ensures DedupOf(zones).index[i] == DedupOf(zones).index[k]
  {
    DedupIndex(zones);
    DedupDistinct(zones);
  }

  /** FindSame looks at names and offsets only. */
  lemma {:induction false} FindSameKeys(ds1: seq<Zone>, ds2: seq<Zone>, z1: Zone, z2: Zone)
    requires |ds1| == |ds2| && SameZone(z1, z2)
    requires forall k :: 0 <= k < |ds1| ==> SameZone(ds1[k], ds2[k])
    ensures FindSame(ds1, z1) == FindSame(ds2, z2)
    decreases |ds1|
  {
    if |ds1| > 0 && !SameZone(ds1[0], z1) {
      FindSameKeys(ds1[1..], ds2[1..], z1, z2);
    }
  }

  /** Changing only isDST flags changes no dedup index: isDST is ignored. */
  lemma {:induction false} DedupIgnoresDST(zones1: seq<Zone>, zones2: seq<Zone>)
    requires |zones1| == |zones2|
    requires forall i :: 0 <= i < |zones1| ==> SameZone(zones1[i], zones2[i])
    ensures DedupOf(zones1).index == DedupOf(zones2).index
    ensures |DedupOf(zones1).zones| == |DedupOf(zones2).zones|
    ensures forall k :: 0 <= k < |DedupOf(zones1).zones| ==>
      SameZone(DedupOf(zones1).zones[k], DedupOf(zones2).zones[k])
  {
    if |zones1| > 0 {
      var n := |zones1|;
      DedupIgnoresDST(zones1[..n - 1], zones2[..n - 1]);
      var d1 := DedupOf(zones1[..n - 1]);
      var d2 := DedupOf(zones2[..n - 1]);
      FindSameKeys(d1.zones, d2.zones, zones1[n - 1], zones2[n - 1]);
    }
  }

  /* ---------------- Renumbering (the second loop of Packed) ---------------- */

  /** Every transition's zone index has a dedup entry, i.e. names one of the n zones. */
  predicate Found(tx: seq<ZoneTrans>, n: nat) {
    forall i :: 0 <= i < |tx| ==> tx[i].index < n
  }

  /** The position of the first transition whose zone index has no dedup entry, or |tx|. */
  function FirstMissing(tx: seq<ZoneTrans>, n: nat): (r: nat)
    ensures r <= |tx|
    ensures r < |tx| ==> tx[r].index >= n
  {
    if |tx| == 0 then 0
    else if tx[0].index >= n then 0
    else 1 + FirstMissing(tx[1..], n)
  }

  /** Every transition before FirstMissing has a dedup entry; so all do when it is |tx|. */
  lemma {:induction false} FirstMissingFirst(tx: seq<ZoneTrans>, n: nat)
    ensures forall k :: 0 <= k < FirstMissing(tx, n) ==> tx[k].index < n
    ensures FirstMissing(tx, n) == |tx| <==> Found(tx, n)
  {
    if |tx| > 0 && tx[0].index < n {
      FirstMissingFirst(tx[1..], n);
      assert forall k :: 0 < k < |tx| ==> tx[k] == tx[1..][k - 1];
    }
  }

  /** The first transition without a dedup entry, after a run of ones with an entry, is FirstMissing. */
  lemma FirstMissingAt(tx: seq<ZoneTrans>, n: nat, i: nat)
    requires i < |tx| && Found(tx[..i], n) && tx[i].index >= n
    ensures FirstMissing(tx, n) == i
  {
    FirstMissingFirst(tx, n);
  }

  /** The first position of x in s, or |s| when x is not in s. */
  function Position(s: seq<nat>, x: nat): (p: nat)
    ensures p <= |s|
    ensures p < |s| ==> s[p] == x
    ensures p == |s| ==> x !in s
  {
    if |s| == 0 then 0
    else if s[0] == x then 0
    else 1 + Position(s[1..], x)
  }

  /** The values of s are pairwise different. */
  predicate Distinct(s: seq<nat>) {
    forall a, b :: 0 <= a < b < |s| ==> s[a] != s[b]
  }

  /** In a sequence without repeats, the position of an element is where it is. */
  lemma {:induction false} PositionDistinct(s: seq<nat>, k: nat)
    requires Distinct(s) && k < |s|
    ensures Position(s, s[k]) == k
    decreases k
  {
    if k > 0 {
      PositionDistinct(s[1..], k - 1);
    }
  }

  /** usedIdx and transitions: the merged zones in order of first use, and the renumbered transitions. */
  datatype Remapped = Remapped(used: seq<nat>, trans: seq<ZoneTrans>)

  /**
   * Each transition's zone is replaced by its merged zone's position in `used`, which
   * grows by one merged zone the first time that zone is met; the position is stored
   * as a uint8.
   */
  function Remap(tx: seq<ZoneTrans>, dindex: seq<nat>): (m: Remapped)
    requires Found(tx, |dindex|)
    ensures |m.trans| == |tx|
  {
    if |tx| == 0 then Remapped([], [])
    else
      var m := Remap(tx[..|tx| - 1], dindex);
      var t := tx[|tx| - 1];
      var deduped := dindex[t.index];
      var p := Position(m.used, deduped);
      var used := if p < |m.used| then m.used else m.used + [deduped];
      Remapped(used, m.trans + [ZoneTrans(t.when, Uint8(p))])
  }

  /** The set of naturals below n. */
  function Below(n: nat): (r: set<nat>)
    ensures forall x: nat :: x in r <==> x < n
    ensures |r| == n
  {
    if n == 0 then {} else Below(n - 1) + {n - 1}
  }

  /** The set of values of s. */
  function Elements(s: seq<nat>): set<nat> {
    set x | x in s
  }

  /** A sequence without repeats has as many values as elements. */
  lemma {:induction false} ElementsCard(s: seq<nat>)
    requires Distinct(s)
    ensures |Elements(s)| == |s|
  {
    if |s| > 0 {
      var t := s[..|s| - 1];
      ElementsCard(t);
      assert Elements(s) == Elements(t) + {s[|s| - 1]};
      assert s[|s| - 1] !in Elements(t);
    }
  }

  /** Pigeonhole: a sequence without repeats of naturals below n has at most n elements. */
  lemma DistinctBelow(s: seq<nat>, n: nat)
    requires Distinct(s)
    requires forall i :: 0 <= i < |s| ==> s[i] < n
    ensures |s| <= n
  {
    ElementsCard(s);
    var a := Elements(s);
    var b := Below(n);
    assert a <= b;
    assert b == (b - a) + a;
  }

  /** Every dedup entry points no later than its own zone, as DedupIndex shows of DedupOf. */
  predicate NoLater(dindex: seq<nat>) {
    forall j :: 0 <= j < |dindex| ==> dindex[j] <= j
  }

  /** The values of s are pairwise different and fit in a byte. */
  predicate DistinctBytes(s: seq<nat>) {
    Distinct(s) && forall k :: 0 <= k < |s| ==> s[k] < 0x100
  }

  /**
   * `used` has no repeats and, since a transition's zone index is a byte and dedup
   * entries point no later, at most 256 entries: the uint8 conversion loses nothing.
   */
  lemma {:induction false} RemapUsed(tx: seq<ZoneTrans>, dindex: seq<nat>)
    requires Found(tx, |dindex|) && NoLater(dindex)
    ensures DistinctBytes(Remap(tx, dindex).used)
    ensures |Remap(tx, dindex).used| <= 0x100
  {
    if |tx| > 0 {
      var q := tx[..|tx| - 1];
      RemapUsed(q, dindex);
      var m' := Remap(q, dindex);
      var m := Remap(tx, dindex);
      var deduped := dindex[tx[|tx| - 1].index];
      if Position(m'.used, deduped) == |m'.used| {
        assert m.used == m'.used + [deduped];
        assert DistinctBytes(m.used);
      }
      DistinctBelow(m.used, 0x100);
    }
  }

  /** The used zones are among the dedup entries, so below any bound those are below. */
  lemma {:induction false} RemapUsedBelow(tx: seq<ZoneTrans>, dindex: seq<nat>, bound: nat)
    requires Found(tx, |dindex|)
    requires forall j :: 0 <= j < |dindex| ==> dindex[j] < bound
    ensures forall k :: 0 <= k < |Remap(tx, dindex).used| ==> Remap(tx, dindex).used[k] < bound
  {
    if |tx| > 0 {
      RemapUsedBelow(tx[..|tx| - 1], dindex, bound);
    }
  }

  /**
   * Transition i keeps its time and gets, as its new zone index, the position in `used`
   * of its merged zone.
   */
  lemma {:induction false} RemapAt(tx: seq<ZoneTrans>, dindex: seq<nat>, i: nat)
    requires Found(tx, |dindex|) && NoLater(dindex) && i < |tx|
    ensures var m := Remap(tx, dindex);
      && m.trans[i].when == tx[i].when
      && m.trans[i].index < |m.used|
      && m.used[m.trans[i].index] == dindex[tx[i].index]
  {
    var q := tx[..|tx| - 1];
    var m' := Remap(q, dindex);
    var m := Remap(tx, dindex);
    if i < |q| {
      RemapAt(q, dindex, i);
      assert m.trans[i] == m'.trans[i] && tx[i] == q[i];
    } else {
      RemapUsed(tx, dindex);
    }
  }

  /** Every used zone is the merged zone of some transition; this returns the first such. */
  lemma {:induction false} RemapOrigin(tx: seq<ZoneTrans>, dindex: seq<nat>, k: nat) returns (i: nat)
    requires Found(tx, |dindex|) && NoLater(dindex) && k < |Remap(tx, dindex).used|
    ensures i < |tx| && Remap(tx, dindex).trans[i].index == k
    ensures forall j :: 0 <= j < i ==> Remap(tx, dindex).trans[j].index != k
  {
    var q := tx[..|tx| - 1];
    var m' := Remap(q, dindex);
    var m := Remap(tx, dindex);
    RemapUsed(tx, dindex);
    if k < |m'.used| {
      i := RemapOrigin(q, dindex, k);
      forall j | 0 <= j < i
        ensures m.trans[j].index != k
      {
        assert m.trans[j] == m'.trans[j];
      }
      assert m.trans[i] == m'.trans[i];
    } else {
      i := |tx| - 1;
      forall j | 0 <= j < i
        ensures m.trans[j].index != k
      {
        RemapAt(q, dindex, j);
        assert m.trans[j] == m'.trans[j];
      }
    }
  }

  /**
   * Zones are numbered in order of first use: a transition whose new index is k has,
   * for each smaller index c, an earlier transition with index c.
   */
  lemma {:induction false} RemapFirstUse(tx: seq<ZoneTrans>, dindex: seq<nat>, i: nat, c: nat)
    requires Found(tx, |dindex|) && NoLater(dindex) && i < |tx|
    requires c < Remap(tx, dindex).trans[i].index
    ensures exists j :: 0 <= j < i && Remap(tx, dindex).trans[j].index == c
  {
    var q := tx[..|tx| - 1];
    var m' := Remap(q, dindex);
    var m := Remap(tx, dindex);
    if i < |q| {
      assert m.trans[i] == m'.trans[i];
      RemapFirstUse(q, dindex, i, c);
      var j :| 0 <= j < i && m'.trans[j].index == c;
      assert m.trans[j] == m'.trans[j];
    } else {
      RemapUsed(tx, dindex);
      RemapUsed(q, dindex);
      var j := RemapOrigin(q, dindex, c);
      assert m.trans[j] == m'.trans[j];
    }
  }

  /* ---------------- Indices and untils (the last loop of Packed) ---------------- */

  /**
   * The transitions that write an index: a transition is skipped when its zone index
   * equals that of the last transition written (prevZoneIdx, which starts as no index).
   */
  function Kept(trans: seq<ZoneTrans>): (k: seq<ZoneTrans>)
    ensures |k| <= |trans|
    ensures |trans| > 0 ==> |k| > 0
  {
    if |trans| == 0 then []
    else
      var k := Kept(trans[..|trans| - 1]);
      var t := trans[|trans| - 1];
      if |k| > 0 && k[|k| - 1].index == t.index then k else k + [t]
  }

  /** Reference: drop each transition whose zone index equals the previous transition's. */
  function DropRepeats(trans: seq<ZoneTrans>): seq<ZoneTrans> {
    if |trans| == 0 then []
    else if |trans| >= 2 && trans[|trans| - 1].index == trans[|trans| - 2].index then
      DropRepeats(trans[..|trans| - 1])
    else DropRepeats(trans[..|trans| - 1]) + [trans[|trans| - 1]]
  }

  /** No two consecutive transitions of k have the same zone index. */
  predicate NoAdjacentRepeats(k: seq<ZoneTrans>) {
    forall j :: 0 < j < |k| ==> k[j].index != k[j - 1].index
  }

  /**
   * Comparing with the last written index is comparing with the previous transition's:
   * the written transitions are the input without its back-to-back repeats, starting
   * with the first transition and never repeating an index back to back.
   */
  lemma {:induction false} KeptDropsRepeats(trans: seq<ZoneTrans>)
    ensures Kept(trans) == DropRepeats(trans)
    ensures NoAdjacentRepeats(Kept(trans))
    ensures |trans| > 0 ==> Kept(trans)[0] == trans[0]
    ensures |trans| > 0 ==> Kept(trans)[|Kept(trans)| - 1].index == trans[|trans| - 1].index
  {
    if |trans| > 0 {
      var p := trans[..|trans| - 1];
      KeptDropsRepeats(p);
      if |p| > 0 {
        assert p[|p| - 1] == trans[|trans| - 2] && p[0] == trans[0];
      }
    }
  }

  /** Every written transition is one of the input transitions. */
  lemma {:induction false} KeptFrom(trans: seq<ZoneTrans>)
    ensures forall j :: 0 <= j < |Kept(trans)| ==> Kept(trans)[j] in trans
  {
    if |trans| > 0 {
      var p := trans[..|trans| - 1];
      KeptFrom(p);
      var k := Kept(trans);
      forall j | 0 <= j < |k|
        ensures k[j] in trans
      {
        if j < |Kept(p)| {
          assert k[j] == Kept(p)[j];
          var x :| x in p && x == k[j];
          assert x in trans;
        }
      }
    }
  }

  /**
   * The untils of the written transitions: lastTimeStamp starts at 0 and the first
   * written transition is passed over before it is updated, so the first until is the
   * time of the second written transition and each later one the difference from its
   * predecessor, wrapped as Go's int64 subtraction.
   */
  function Untils(kept: seq<ZoneTrans>): (u: seq<int64>)
    ensures |u| == if |kept| == 0 then 0 else |kept| - 1
  {
    if |kept| <= 1 then [] else Untils(kept[..|kept| - 1]) + [Until(kept)]
  }

  /**
   * The until written with the last of the written transitions: its time minus the time
   * of the one before, or minus 0 when that one is the first.
   */
  function Until(kept: seq<ZoneTrans>): (u: int64)
    requires |kept| >= 2
    ensures var prev := if |kept| == 2 then 0 else kept[|kept| - 2].when;
      -0x8000_0000 <= prev < 0x8000_0000 && -0x8000_0000 <= kept[|kept| - 1].when < 0x8000_0000 ==>
        u + prev == kept[|kept| - 1].when
  {
    Wrap64(kept[|kept| - 1].when - if |kept| == 2 then 0 else kept[|kept| - 2].when)
  }

  /** The sum of a sequence of integers. */
  function Sum(s: seq<int>): int {
    if |s| == 0 then 0 else Sum(s[..|s| - 1]) + s[|s| - 1]
  }

  /** Every time of k lies in the int32 range, as the times of a parsed file do. */
  predicate Int32Whens(k: seq<ZoneTrans>) {
    forall j :: 0 <= j < |k| ==> -0x8000_0000 <= k[j].when < 0x8000_0000
  }

  /**
   * Until i - 1 leads to written transition i: for i = 1 it is that transition's absolute
   * time, after that the wrapped difference from the time of transition i - 1.
   */
  lemma {:induction false} UntilAt(kept: seq<ZoneTrans>, i: nat)
    requires 1 <= i < |kept|
    ensures Untils(kept)[i - 1] == Wrap64(kept[i].when - (if i == 1 then 0 else kept[i - 1].when))
  {
    var p := kept[..|kept| - 1];
    if i < |p| {
      UntilAt(p, i);
      assert p[i] == kept[i] && p[i - 1] == kept[i - 1];
    }
  }

  /** Summing the first j values: the first j - 1, then value j - 1. */
  lemma SumStep(s: seq<int>, j: nat)
    requires 1 <= j <= |s|
    ensures Sum(s[..j]) == Sum(s[..j - 1]) + s[j - 1]
  {
    assert s[..j][..j - 1] == s[..j - 1];
  }

  /**
   * The untils add up to the written times: the first j untils, summed with Go's
   * int64 wrap-around, give the time of written transition j.
   */
  lemma {:induction false} UntilsSum(kept: seq<ZoneTrans>, j: nat)
    requires 1 <= j < |kept|
    ensures Wrap64(Sum(Untils(kept)[..j])) == kept[j].when
  {
    var last := if j == 1 then 0 else kept[j - 1].when;
    UntilAt(kept, j);
    SumStep(Untils(kept), j);
    var before := Sum(Untils(kept)[..j - 1]);
    if j == 1 {
      assert before == 0;
    } else {
      UntilsSum(kept, j - 1);
    }
    WrapAdd(before, last, kept[j].when);
  }

  /** If s wraps to l, then s plus the wrapped difference t - l wraps to t. */
  lemma WrapAdd(s: int, l: int64, t: int64)
    requires Wrap64(s) == l
    ensures Wrap64(s + Wrap64(t - l)) == t
  {
    var d := Wrap64(t - l);
    Wrap64Congruent(s);
    Wrap64Congruent(t - l);
    DivisibleDiff(l - s, d - (t - l));
    assert (d - (t - l)) - (l - s) == s + d - t;
    Wrap64Unique(s + d, t);
  }

  /** With times in the int32 range no until wraps, and the sums are exact. */
  lemma {:induction false} UntilsSumExact(kept: seq<ZoneTrans>, j: nat)
    requires 1 <= j < |kept| && Int32Whens(kept)
    ensures Sum(Untils(kept)[..j]) == kept[j].when
  {
    UntilAt(kept, j);
    SumStep(Untils(kept), j);
    if j > 1 {
      UntilsSumExact(kept, j - 1);
    } else {
      assert Sum(Untils(kept)[..0]) == 0;
    }
  }

  /* ---------------- Output (the fields of the packed string) ---------------- */

  /** strings.Join: the elements in order, with sep between each two. */
  function Join(xs: seq<string>, sep: string): (s: string)
    ensures |xs| == 1 ==> s == xs[0]
    ensures |xs| > 0 ==> xs[0] <= s
  {
    if |xs| == 0 then ""
    else if |xs| == 1 then xs[0]
    else xs[0] + sep + Join(xs[1..], sep)
  }

  /** The position of the first c in s, or |s| when there is none. */
  function FirstOf(s: string, c: char): (i: nat)
    ensures i <= |s|
    ensures i < |s| ==> s[i] == c
  {
    if |s| == 0 then 0
    else if s[0] == c then 0
    else 1 + FirstOf(s[1..], c)
  }

  /** strings.Split with a one-character separator: the pieces between the separators. */
  function Split(s: string, c: char): (fields: seq<string>)
    ensures |fields| >= 1
    decreases |s|
  {
    var i := FirstOf(s, c);
    if i == |s| then [s] else [s[..i]] + Split(s[i + 1..], c)
  }

  /** The first c of x + [c] + rest, when x has none, is the one after x. */
  lemma {:induction false} FirstOfAfter(x: string, rest: string, c: char)
    requires c !in x
    ensures FirstOf(x + [c] + rest, c) == |x|
    ensures FirstOf(x, c) == |x|
  {
    if |x| > 0 {
      FirstOfAfter(x[1..], rest, c);
      assert (x + [c] + rest)[1..] == x[1..] + [c] + rest;
    }
  }

  /** Joining with a separator that no element contains, then splitting, gives the elements back. */
  lemma {:induction false} SplitJoin(xs: seq<string>, c: char)
    requires |xs| >= 1
    requires forall i :: 0 <= i < |xs| ==> c !in xs[i]
    ensures Split(Join(xs, [c]), c) == xs
  {
    var x := xs[0];
    if |xs| == 1 {
      FirstOfAfter(x, [], c);
    } else {
      var rest := Join(xs[1..], [c]);
      SplitJoin(xs[1..], c);
      FirstOfAfter(x, rest, c);
      var s := x + [c] + rest;
      assert s[..|x|] == x;
      assert s[|x| + 1..] == rest;
      assert [x] + xs[1..] == xs;
    }
  }

  /** Joining strings without c, with a separator without c, gives a string without c. */
  lemma {:induction false} JoinAvoids(xs: seq<string>, sep: string, c: char)
    requires c !in sep
    requires forall i :: 0 <= i < |xs| ==> c !in xs[i]
    ensures c !in Join(xs, sep)
  {
    if |xs| > 1 {
      JoinAvoids(xs[1..], sep, c);
    }
  }

  /** Go's -int64(x): negation with wrap-around (only -2^63 wraps, to itself). */
  function Neg64(x: int64): (r: int64)
    ensures x != MinInt64 ==> r == -x
    ensures x == MinInt64 ==> r == MinInt64
  {
    Wrap64(-(x as int))
  }

  /** The used zones: merged zone used[k] for each k. */
  function UsedZones(dzones: seq<Zone>, used: seq<nat>): (zones: seq<Zone>)
    requires forall k :: 0 <= k < |used| ==> used[k] < |dzones|
    ensures |zones| == |used|
    ensures forall z :: z in zones ==> z in dzones
  {
    seq(|used|, k requires 0 <= k < |used| => dzones[used[k]])
  }

  /** abbrevMap: the name of each used zone. */
  function Abbrevs(zones: seq<Zone>): (abbrevs: seq<string>)
    ensures |abbrevs| == |zones|
  {
    if |zones| == 0 then [] else Abbrevs(zones[..|zones| - 1]) + [zones[|zones| - 1].name]
  }

  /** offsetMap: packMinutes of each used zone's negated offset. */
  function Offsets(zones: seq<Zone>): (offsets: seq<string>)
    ensures |offsets| == |zones|
  {
    if |zones| == 0 then []
    else Offsets(zones[..|zones| - 1]) + [PackMinutes(Neg64(zones[|zones| - 1].offset))]
  }

  /** indices: toBase60 of each written transition's zone index. */
  function IndexTexts(kept: seq<ZoneTrans>): (texts: seq<string>)
    ensures |texts| == |kept|
  {
    if |kept| == 0 then []
    else IndexTexts(kept[..|kept| - 1]) + [SignedBase60(kept[|kept| - 1].index)]
  }

  /** untils: packMinutes of each until. */
  function UntilTexts(untils: seq<int64>): (texts: seq<string>)
    ensures |texts| == |untils|
  {
    if |untils| == 0 then []
    else UntilTexts(untils[..|untils| - 1]) + [PackMinutes(untils[|untils| - 1])]
  }

  /** The five fields of the packed string, in order. */
  function Fields(name: string, zones: seq<Zone>, trans: seq<ZoneTrans>): seq<string> {
    var kept := Kept(trans);
    [name, Join(Abbrevs(zones), " "), Join(Offsets(zones), " "),
     Join(IndexTexts(kept), ""), Join(UntilTexts(Untils(kept)), " ")]
  }

  /** fmt.Sprintf("%v|%v|%v|%v|%v", ...) of the name and the joined lists. */
  function Format(name: string, zones: seq<Zone>, trans: seq<ZoneTrans>): (r: string)
    ensures name + "|" <= r
  {
    var kept := Kept(trans);
    PrefixOfFields(name, Join(Abbrevs(zones), " "), Join(Offsets(zones), " "),
      Join(IndexTexts(kept), ""), Join(UntilTexts(Untils(kept)), " "));
    name + "|" + Join(Abbrevs(zones), " ") + "|" + Join(Offsets(zones), " ") + "|"
      + Join(IndexTexts(kept), "") + "|" + Join(UntilTexts(Untils(kept)), " ")
  }

  /** The first field and its bar begin the five bar-separated fields. */
  lemma PrefixOfFields(name: string, a: string, b: string, c: string, d: string)
    ensures name + "|" <= name + "|" + a + "|" + b + "|" + c + "|" + d
  {
    var rest := a + "|" + b + "|" + c + "|" + d;
    assert name + "|" + a + "|" + b + "|" + c + "|" + d == name + "|" + rest;
    assert (name + "|" + rest)[..|name| + 1] == name + "|";
  }

  /** What Packed returns: the packed string, or the panic for a zone index without a dedup entry. */
  datatype PackResult = PackedText(text: string) | ZoneNotFound(index: byte)

  /** The transitions of l renumbered over the zones they use (reached only when no index is missing). */
  function PackRemap(l: Location): (m: Remapped)
    requires Found(l.tx, |l.zone|)
    ensures forall k :: 0 <= k < |m.used| ==> m.used[k] < |DedupOf(l.zone).zones|
  {
    DedupIndex(l.zone);
    RemapUsedBelow(l.tx, DedupOf(l.zone).index, |DedupOf(l.zone).zones|);
    Remap(l.tx, DedupOf(l.zone).index)
  }

  /** Packed, as a function of the location. */
  function Pack(l: Location): (r: PackResult)
    ensures r.ZoneNotFound? ==> r.index >= |l.zone|
    ensures r.PackedText? ==> l.name + "|" <= r.text
  {
    var bad := FirstMissing(l.tx, |l.zone|);
    if bad < |l.tx| then ZoneNotFound(l.tx[bad].index)
    else
      FirstMissingFirst(l.tx, |l.zone|);
      var m := PackRemap(l);
      PackedText(Format(l.name, UsedZones(DedupOf(l.zone).zones, m.used), m.trans))
  }

  /**
   * Packed panics exactly when some transition's zone index has no zone, and then it
   * reports the index of the first such transition.
   */
  lemma PackNotFound(l: Location)
    ensures Pack(l).ZoneNotFound? <==> !Found(l.tx, |l.zone|)
    ensures Pack(l).ZoneNotFound? ==>
      exists i :: (0 <= i < |l.tx| && l.tx[i].index == Pack(l).index
                   && l.tx[i].index >= |l.zone| && Found(l.tx[..i], |l.zone|))
  {
    FirstMissingFirst(l.tx, |l.zone|);
    var b := FirstMissing(l.tx, |l.zone|);
    if b < |l.tx| {
      assert forall k :: 0 <= k < b ==> l.tx[..b][k] == l.tx[k];
      assert Found(l.tx[..b], |l.zone|);
    }
  }

  /** For a location ParseLocation returns, Packed panics exactly when the file has no zones. */
  lemma PackParsed(name: string, data: seq<byte>)
    requires Decode(name, data).Parsed?
    ensures Pack(Decode(name, data).loc).ZoneNotFound? <==> |Decode(name, data).loc.zone| == 0
  {
    var l := Decode(name, data).loc;
    ParsedLocation(name, data);
    PackNotFound(l);
    if |l.zone| == 0 {
      assert l.tx[0].index >= |l.zone|;
    }
  }

  /** Abbrevs lists the name of each zone. */
  lemma {:induction false} AbbrevsAt(zones: seq<Zone>, i: nat)
    requires i < |zones|
    ensures Abbrevs(zones)[i] == zones[i].name
  {
    if i < |zones| - 1 {
      AbbrevsAt(zones[..|zones| - 1], i);
    }
  }

  /** Offsets lists packMinutes of each zone's negated offset. */
  lemma {:induction false} OffsetsAt(zones: seq<Zone>, i: nat)
    requires i < |zones|
    ensures Offsets(zones)[i] == PackMinutes(Neg64(zones[i].offset))
  {
    if i < |zones| - 1 {
      OffsetsAt(zones[..|zones| - 1], i);
    }
  }

  /** IndexTexts lists toBase60 of each written transition's index. */
  lemma {:induction false} IndexTextsAt(kept: seq<ZoneTrans>, i: nat)
    requires i < |kept|
    ensures IndexTexts(kept)[i] == SignedBase60(kept[i].index)
  {
    if i < |kept| - 1 {
      IndexTextsAt(kept[..|kept| - 1], i);
    }
  }

  /** UntilTexts lists packMinutes of each until. */
  lemma {:induction false} UntilTextsAt(untils: seq<int64>, i: nat)
    requires i < |untils|
    ensures UntilTexts(untils)[i] == PackMinutes(untils[i])
  {
    if i < |untils| - 1 {
      UntilTextsAt(untils[..|untils| - 1], i);
    }
  }

  /** Five strings separated by "|" are their strings.Join with "|". */
  lemma JoinFive(a: string, b: string, c: string, d: string, e: string)
    ensures a + "|" + b + "|" + c + "|" + d + "|" + e == Join([a, b, c, d, e], "|")
  {
    var f := [a, b, c, d, e];
    assert f[1..] == [b, c, d, e] && f[2..] == [c, d, e] && f[3..] == [d, e] && f[4..] == [e];
    assert Join(f[3..], "|") == d + "|" + e;
    assert Join(f[2..], "|") == c + "|" + (d + "|" + e);
    assert Join(f[1..], "|") == b + "|" + (c + "|" + (d + "|" + e));
  }

  /** The Sprintf of Packed is strings.Join of the five fields with "|". */
  lemma FormatIsJoin(name: string, zones: seq<Zone>, trans: seq<ZoneTrans>)
    ensures Format(name, zones, trans) == Join(Fields(name, zones, trans), "|")
  {
    var f := Fields(name, zones, trans);
    JoinFive(f[0], f[1], f[2], f[3], f[4]);
  }

  /** The abbreviations and offsets fields hold no '|' when no abbreviation does. */
  lemma ZoneFieldsAvoidBar(zones: seq<Zone>)
    requires forall i :: 0 <= i < |zones| ==> '|' !in zones[i].name
    ensures '|' !in Join(Abbrevs(zones), " ") && '|' !in Join(Offsets(zones), " ")
  {
    assert DigitValue('|') == -1;
    forall i | 0 <= i < |zones|
      ensures '|' !in Abbrevs(zones)[i] && '|' !in Offsets(zones)[i]
    {
      AbbrevsAt(zones, i);
      OffsetsAt(zones, i);
      PackMinutesAvoids(Neg64(zones[i].offset), '|');
    }
    JoinAvoids(Abbrevs(zones), " ", '|');
    JoinAvoids(Offsets(zones), " ", '|');
  }

  /** The indices and untils fields hold no '|'. */
  lemma TransFieldsAvoidBar(kept: seq<ZoneTrans>)
    ensures '|' !in Join(IndexTexts(kept), "") && '|' !in Join(UntilTexts(Untils(kept)), " ")
  {
    var us := Untils(kept);
    assert DigitValue('|') == -1;
    forall i | 0 <= i < |kept|
      ensures '|' !in IndexTexts(kept)[i]
    {
      IndexTextsAt(kept, i);
      SignedBase60Avoids(kept[i].index, '|');
    }
    forall i | 0 <= i < |us|
      ensures '|' !in UntilTexts(us)[i]
    {
      UntilTextsAt(us, i);
      PackMinutesAvoids(us[i], '|');
    }
    JoinAvoids(IndexTexts(kept), "", '|');
    JoinAvoids(UntilTexts(us), " ", '|');
  }

  /** Five strings without '|', joined with '|', split back into the five. */
  lemma SplitFive(a: string, b: string, c: string, d: string, e: string)
    requires '|' !in a && '|' !in b && '|' !in c && '|' !in d && '|' !in e
    ensures Split(a + "|" + b + "|" + c + "|" + d + "|" + e, '|') == [a, b, c, d, e]
  {
    var f := [a, b, c, d, e];
    assert forall i :: 0 <= i < |f| ==> '|' !in f[i];
    JoinFive(a, b, c, d, e);
    SplitJoin(f, '|');
  }

  /** With no '|' in the name or an abbreviation, the formatted text splits back into its five fields. */
  lemma FormatSplits(name: string, zones: seq<Zone>, trans: seq<ZoneTrans>)
    requires '|' !in name && forall i :: 0 <= i < |zones| ==> '|' !in zones[i].name
    ensures Split(Format(name, zones, trans), '|') == Fields(name, zones, trans)
  {
    var kept := Kept(trans);
    ZoneFieldsAvoidBar(zones);
    TransFieldsAvoidBar(kept);
    SplitFive(name, Join(Abbrevs(zones), " "), Join(Offsets(zones), " "),
      Join(IndexTexts(kept), ""), Join(UntilTexts(Untils(kept)), " "));
  }

  /** Each merged zone Packed uses is a zone of the location: used zone k is zone i. */
  lemma UsedZoneOrigin(l: Location, k: nat) returns (i: nat)
    requires Found(l.tx, |l.zone|) && k < |PackRemap(l).used|
    ensures i < |l.zone| && UsedZones(DedupOf(l.zone).zones, PackRemap(l).used)[k] == l.zone[i]
  {
    i := DedupOrigin(l.zone, PackRemap(l).used[k]);
  }

  /**
   * The zones Packed writes: no two share a name and offset, there are at most 256 of
   * them, every renumbered transition names one of them, and the first names zone 0.
   */
  lemma PackUsedZones(l: Location)
    requires Found(l.tx, |l.zone|)
    ensures var m := PackRemap(l);
      var zs := UsedZones(DedupOf(l.zone).zones, m.used);
      && DistinctZones(zs)
      && |zs| <= 0x100
      && (forall i :: 0 <= i < |m.trans| ==> m.trans[i].index < |zs|)
      && (|m.trans| > 0 ==> m.trans[0].index == 0)
  {
    var d := DedupOf(l.zone);
    var m := PackRemap(l);
    var zs := UsedZones(d.zones, m.used);
    DedupIndex(l.zone);
    assert NoLater(d.index);
    RemapUsed(l.tx, d.index);
    DedupDistinct(l.zone);
    forall a, b | 0 <= a < b < |zs|
      ensures !SameZone(zs[a], zs[b])
    {
      assert m.used[a] != m.used[b];
    }
    forall i | 0 <= i < |m.trans|
      ensures m.trans[i].index < |zs|
    {
      RemapAt(l.tx, d.index, i);
    }
    if |m.trans| > 0 && m.trans[0].index != 0 {
      RemapFirstUse(l.tx, d.index, 0, 0);
      assert false;
    }
  }

  /**
   * With no '|' in the name or in an abbreviation, splitting Packed's text at '|' gives
   * back its five fields: the name, the abbreviations, the offsets, the indices and the untils.
   */
  lemma PackFields(l: Location)
    requires Found(l.tx, |l.zone|)
    requires '|' !in l.name && forall i :: 0 <= i < |l.zone| ==> '|' !in l.zone[i].name
    ensures Pack(l).PackedText?
    ensures var m := PackRemap(l);
      Split(Pack(l).text, '|') == Fields(l.name, UsedZones(DedupOf(l.zone).zones, m.used), m.trans)
  {
    FirstMissingFirst(l.tx, |l.zone|);
    var m := PackRemap(l);
    var zs := UsedZones(DedupOf(l.zone).zones, m.used);
    forall k | 0 <= k < |zs|
      ensures '|' !in zs[k].name
    {
      var i := UsedZoneOrigin(l, k);
    }
    FormatSplits(l.name, zs, m.trans);
  }

  /** Kept keeps transitions of trans, so int32 times stay int32 times. */
  lemma KeptInt32(trans: seq<ZoneTrans>)
    requires Int32Whens(trans)
    ensures Int32Whens(Kept(trans))
  {
    var kept := Kept(trans);
    KeptFrom(trans);
    forall x | 0 <= x < |kept|
      ensures -0x8000_0000 <= kept[x].when < 0x8000_0000
    {
      var i :| 0 <= i < |trans| && trans[i] == kept[x];
    }
  }

  /**
   * Renumbering the transitions of a parsed file that holds at least one transition time
   * keeps their int32 times (only the fake transition of a file without any is at alpha).
   */
  lemma ParsedRemapInt32(name: string, data: seq<byte>)
    requires Decode(name, data).Parsed?
    requires Found(Decode(name, data).loc.tx, |Decode(name, data).loc.zone|)
    requires HeaderCounts(data)[NTime] >= 1
    ensures Int32Whens(PackRemap(Decode(name, data).loc).trans)
  {
    var l := Decode(name, data).loc;
    var d := DedupOf(l.zone);
    var m := PackRemap(l);
    ParsedLocation(name, data);
    DedupIndex(l.zone);
    assert NoLater(d.index);
    assert |l.tx| == HeaderCounts(data)[NTime];
    forall i | 0 <= i < |m.trans|
      ensures -0x8000_0000 <= m.trans[i].when < 0x8000_0000
    {
      RemapAt(l.tx, d.index, i);
      ParsedTransitionAt(name, data, i);
    }
  }

  /**
   * For a location ParseLocation returns, the untils Packed writes need no wrap-around:
   * the first j of them add up exactly to the time of written transition j.
   */
  lemma PackedUntilsExact(name: string, data: seq<byte>, j: nat)
    requires Decode(name, data).Parsed?
    requires Found(Decode(name, data).loc.tx, |Decode(name, data).loc.zone|)
    requires 1 <= j < |Kept(PackRemap(Decode(name, data).loc).trans)|
    ensures var kept := Kept(PackRemap(Decode(name, data).loc).trans);
      Sum(Untils(kept)[..j]) == kept[j].when
  {
    var m := PackRemap(Decode(name, data).loc);
    ParsedRemapInt32(name, data);
    KeptInt32(m.trans);
    UntilsSumExact(Kept(m.trans), j);
  }

  /**
   * A location with one zone and one transition, as a fixed-offset file parses to, packs
   * to its name, the zone's abbreviation, its negated offset, the index 0 and no untils.
   */
  lemma PackFixedZone(name: string, z: Zone, when: int64)
    ensures Pack(Location(name, [z], [ZoneTrans(when, 0)]))
      == PackedText(name + "|" + z.name + "|" + PackMinutes(Neg64(z.offset)) + "|0|")
  {
    var t := ZoneTrans(when, 0);
    FixedZoneRemap(z, t);
    FixedZoneFormat(name, z, t);
  }

  /** One zone and one transition to it: the zone is its own merged zone, used first, as zone 0. */
  lemma FixedZoneRemap(z: Zone, t: ZoneTrans)
    requires t.index == 0
    ensures FirstMissing([t], 1) == 1
    ensures Found([t], 1)
    ensures DedupOf([z]) == Dedup([z], [0])
    ensures Remap([t], [0]) == Remapped([0], [t])
  {
    assert FirstMissing([t], 1) == 1;
    FirstMissingFirst([t], 1);
    assert [z][..0] == [] && [t][..0] == [];
    assert DedupOf([z]) == Dedup([z], [0]);
    assert Remap([t], [0]) == Remapped([0], [t]);
  }

  /** The text written for one zone and one transition to zone 0. */
  lemma FixedZoneFormat(name: string, z: Zone, t: ZoneTrans)
    requires t.index == 0
    ensures Format(name, UsedZones([z], [0]), [t]) == name + "|" + z.name + "|" + PackMinutes(Neg64(z.offset)) + "|0|"
  {
    assert UsedZones([z], [0]) == [z];
    assert [z][..0] == [] && [t][..0] == [];
    assert Abbrevs([z]) == [z.name];
    assert Offsets([z]) == [PackMinutes(Neg64(z.offset))];
    assert Kept([t]) == [t];
    assert IndexTexts([t]) == ["0"];
    assert Untils([t]) == [];
  }

  /** The version-1 file of a fixed UTC zone, decoded and packed, gives "name|UTC|0|0|". */
  lemma FixedUtcPacks(name: string)
    ensures Decode(name, FixedUtcFile).Parsed?
    ensures Pack(Decode(name, FixedUtcFile).loc) == PackedText(name + "|UTC|0|0|")
  {
    FixedUtcParses(name);
    var l := Decode(name, FixedUtcFile).loc;
    PackUtc(name, l.zone[0], l.tx[0].when);
  }

  /** A Location of one zone named UTC with offset 0, in effect from `when` on, packs to "name|UTC|0|0|". */
  lemma PackUtc(name: string, z: Zone, when: int64)
    requires z.name == "UTC" && z.offset == 0
    ensures Pack(Location(name, [z], [ZoneTrans(when, 0)])) == PackedText(name + "|UTC|0|0|")
  {
    PackFixedZone(name, z, when);
    PackMinutesZero();
    UtcText(name, z.name);
  }

  /** The fields of the UTC zone, written out. */
  lemma UtcText(name: string, abbrev: string)
    requires abbrev == "UTC"
    ensures name + "|" + abbrev + "|" + "0" + "|0|" == name + "|UTC|0|0|"
  {
    assert "|" + abbrev + "|" + "0" + "|0|" == "|UTC|0|0|";
  }

  /** An offset of 0 packs to the single digit "0". */
  lemma PackMinutesZero()
    ensures PackMinutes(Neg64(0)) == "0"
  {
    assert Quot(0, 60) == 0;
    assert SignedBase60(0) == "0";
  }

  /* ---------------- Packed, step by step ---------------- */

  /** The inner loop of the first loop of Packed: the first merged zone with zone's name and offset. */
  method FindDedup(dedupZones: seq<Zone>, zone: Zone) returns (found: bool, j: nat)
    ensures j == FindSame(dedupZones, zone)
    ensures found <==> j < |dedupZones|
  {
    found := false;
    j := 0;
    while j < |dedupZones|
      invariant 0 <= j <= |dedupZones|
      invariant forall k :: 0 <= k < j ==> !SameZone(dedupZones[k], zone)
    {
      if dedupZones[j].name == zone.name && dedupZones[j].offset == zone.offset {
        found := true;
        break;
      }
      j := j + 1;
    }
    FindSameIs(dedupZones, zone, j);
  }

  /** DedupOf one zone more: the zone joins its match among the merged zones, or is appended. */
  lemma DedupStep(zones: seq<Zone>, i: nat, found: bool, j: nat)
    requires i < |zones|
    requires j == FindSame(DedupOf(zones[..i]).zones, zones[i])
    requires found <==> j < |DedupOf(zones[..i]).zones|
    ensures var d := DedupOf(zones[..i]);
      var deduped := if found then j else |d.zones|;
      DedupOf(zones[..i + 1]) == Dedup(if found then d.zones else d.zones + [zones[i]], d.index + [deduped])
  {
    assert zones[..i + 1][..i] == zones[..i];
  }

  /** The map m holds exactly the keys 0 .. |index| - 1, key k with value index[k]. */
  ghost predicate MapsIndex(m: map<int, nat>, index: seq<nat>) {
    && (forall k :: k in m <==> 0 <= k < |index|)
    && (forall k :: 0 <= k < |index| ==> m[k] == index[k])
  }

  /** Entering the next key keeps MapsIndex. */
  lemma MapsIndexAppend(m: map<int, nat>, index: seq<nat>, v: nat)
    requires MapsIndex(m, index)
    ensures MapsIndex(m[|index| := v], index + [v])
  {
  }

  /** The first loop of Packed: dedupZones, and dedupMap from each zone to its merged zone. */
  method DedupZones(zones: seq<Zone>) returns (dedupZones: seq<Zone>, dedupMap: map<int, nat>)
    ensures dedupZones == DedupOf(zones).zones
    ensures MapsIndex(dedupMap, DedupOf(zones).index)
  {
    dedupZones := [];
    dedupMap := map[];
    ghost var index: seq<nat> := [];
    for i := 0 to |zones|
      invariant Dedup(dedupZones, index) == DedupOf(zones[..i])
      invariant MapsIndex(dedupMap, index)
    {
      var zone := zones[i];
      var found, j := FindDedup(dedupZones, zone);
      DedupStep(zones, i, found, j);
      var deduped := if found then j else |dedupZones|;
      if !found {
        dedupZones := dedupZones + [zone];
      }
      MapsIndexAppend(dedupMap, index, deduped);
      dedupMap := dedupMap[i := deduped];
      index := index + [deduped];
    }
    assert zones[..|zones|] == zones;
  }

  /** Appending y to s moves no element that is already in s. */
  lemma {:induction false} PositionAppend(s: seq<nat>, y: nat, x: nat)
    requires x in s || x == y
    ensures Position(s + [y], x) == if x in s then Position(s, x) else |s|
  {
    if |s| > 0 && s[0] != x {
      assert (s + [y])[1..] == s[1..] + [y];
      PositionAppend(s[1..], y, x);
    }
  }

  /** Remap of one transition more: its merged zone is found in, or appended to, the used list. */
  lemma RemapStep(tx: seq<ZoneTrans>, dindex: seq<nat>, i: nat)
    requires i < |tx| && Found(tx[..i], |dindex|) && tx[i].index < |dindex|
    ensures Found(tx[..i + 1], |dindex|)
    ensures var m := Remap(tx[..i], dindex);
      var deduped := dindex[tx[i].index];
      var p := Position(m.used, deduped);
      Remap(tx[..i + 1], dindex) ==
        Remapped(if p < |m.used| then m.used else m.used + [deduped], m.trans + [ZoneTrans(tx[i].when, Uint8(p))])
  {
    assert tx[..i + 1][..i] == tx[..i];
    assert forall k :: 0 <= k < i ==> tx[..i + 1][k] == tx[..i][k];
  }

  /** usedIdxMap and usedMap agree with usedIdx: the same members, each mapped to its position. */
  ghost predicate UsedMaps(usedIdxMap: set<int>, usedMap: map<int, nat>, usedIdx: seq<nat>) {
    && (forall x :: x in usedIdxMap <==> x in usedIdx)
    && (forall x :: x in usedMap <==> x in usedIdx)
    && (forall x :: x in usedMap ==> usedMap[x] == Position(usedIdx, x))
  }

  /**
   * With usedIdx free of repeats (as RemapUsed shows it is), usedMap inverts it: each
   * used merged zone maps back to its own position, the newIndex its transitions get.
   */
  lemma UsedMapInverse(usedIdxMap: set<int>, usedMap: map<int, nat>, usedIdx: seq<nat>)
    requires UsedMaps(usedIdxMap, usedMap, usedIdx) && Distinct(usedIdx)
    ensures forall k :: 0 <= k < |usedIdx| ==> usedIdx[k] in usedMap && usedMap[usedIdx[k]] == k
  {
    forall k | 0 <= k < |usedIdx|
      ensures usedIdx[k] in usedMap && usedMap[usedIdx[k]] == k
    {
      PositionDistinct(usedIdx, k);
    }
  }

  /** Appending a new merged zone to usedIdx, and entering it in both maps, keeps UsedMaps. */
  lemma UsedMapsAppend(usedIdxMap: set<int>, usedMap: map<int, nat>, usedIdx: seq<nat>, y: nat)
    requires UsedMaps(usedIdxMap, usedMap, usedIdx) && y !in usedIdx
    ensures UsedMaps(usedIdxMap + {y}, usedMap[y := |usedIdx|], usedIdx + [y])
  {
    PositionAppend(usedIdx, y, y);
    forall x | x in usedIdx
      ensures Position(usedIdx + [y], x) == Position(usedIdx, x)
    {
      PositionAppend(usedIdx, y, x);
    }
  }

  /**
   * One step of the second loop of Packed: the position of merged zone deduped in usedIdx,
   * appending it to usedIdx (and entering it in usedIdxMap and usedMap) when it is new.
   */
  method UseZone(usedIdxMap: set<int>, usedMap: map<int, nat>, usedIdx: seq<nat>, deduped: nat)
      returns (usedIdxMap': set<int>, usedMap': map<int, nat>, usedIdx': seq<nat>, newIndex: byte)
    requires UsedMaps(usedIdxMap, usedMap, usedIdx)
    ensures UsedMaps(usedIdxMap', usedMap', usedIdx')
    ensures var p := Position(usedIdx, deduped);
      usedIdx' == (if p < |usedIdx| then usedIdx else usedIdx + [deduped]) && newIndex == Uint8(p)
    ensures Distinct(usedIdx) ==> Distinct(usedIdx') && deduped in usedIdx'
    ensures Distinct(usedIdx) ==>
              forall k :: 0 <= k < |usedIdx'| ==> usedIdx'[k] in usedMap' && usedMap'[usedIdx'[k]] == k
  {
    usedIdxMap', usedMap', usedIdx' := usedIdxMap, usedMap, usedIdx;
    if deduped !in usedIdxMap {
      UsedMapsAppend(usedIdxMap, usedMap, usedIdx, deduped);
      usedIdx' := usedIdx + [deduped];
      usedIdxMap' := usedIdxMap + {deduped};
      usedMap' := usedMap[deduped := |usedIdx'| - 1];
    }
    newIndex := Uint8(usedMap'[deduped]);
    if Distinct(usedIdx) {
      UsedMapInverse(usedIdxMap', usedMap', usedIdx');
    }
  }

  /**
   * The second loop of Packed: each transition's zone index is looked up in dedupMap
   * (a missing entry is the panic "zone not found"), and its merged zone is looked up in
   * usedMap, or appended to usedIdx and entered in usedIdxMap and usedMap the first time.
   */
  method RenumberTransitions(tx: seq<ZoneTrans>, dedupMap: map<int, nat>, ghost dindex: seq<nat>)
      returns (ok: bool, bad: byte, usedIdx: seq<nat>, transitions: seq<ZoneTrans>)
    requires MapsIndex(dedupMap, dindex)
    ensures ok <==> Found(tx, |dindex|)
    ensures !ok ==> FirstMissing(tx, |dindex|) < |tx| && bad == tx[FirstMissing(tx, |dindex|)].index
    ensures ok ==> Remap(tx, dindex) == Remapped(usedIdx, transitions)
  {
    usedIdx := [];
    var usedIdxMap: set<int> := {};
    var usedMap: map<int, nat> := map[];
    transitions := [];
    bad := 0;
    for i := 0 to |tx|
      invariant Found(tx[..i], |dindex|)
      invariant Remap(tx[..i], dindex) == Remapped(usedIdx, transitions)
      invariant UsedMaps(usedIdxMap, usedMap, usedIdx)
    {
      var trans := tx[i];
      if trans.index !in dedupMap {
        FirstMissingAt(tx, |dindex|, i);
        FirstMissingFirst(tx, |dindex|);
        return false, trans.index, usedIdx, transitions;
      }
      RemapStep(tx, dindex, i);
      var deduped := dedupMap[trans.index];
      var newIndex;
      usedIdxMap, usedMap, usedIdx, newIndex := UseZone(usedIdxMap, usedMap, usedIdx, deduped);
      transitions := transitions + [ZoneTrans(trans.when, newIndex)];
    }
    assert tx[..|tx|] == tx;
    ok := true;
  }

  /** The third loop of Packed: usedZones, the merged zone of each entry of usedIdx. */
  method KeepUsedZones(dedupZones: seq<Zone>, usedIdx: seq<nat>) returns (usedZones: seq<Zone>)
    requires forall k :: 0 <= k < |usedIdx| ==> usedIdx[k] < |dedupZones|
    ensures usedZones == UsedZones(dedupZones, usedIdx)
  {
    usedZones := [];
    for k := 0 to |usedIdx|
      invariant usedZones == UsedZones(dedupZones, usedIdx)[..k]
    {
      usedZones := usedZones + [dedupZones[usedIdx[k]]];
    }
  }

  /** The fourth loop of Packed: abbrevMap and offsetMap of the used zones. */
  method ZoneLists(usedZones: seq<Zone>) returns (abbrevMap: seq<string>, offsetMap: seq<string>)
    ensures abbrevMap == Abbrevs(usedZones)
    ensures offsetMap == Offsets(usedZones)
  {
    abbrevMap := [];
    offsetMap := [];
    for k := 0 to |usedZones|
      invariant abbrevMap == Abbrevs(usedZones[..k])
      invariant offsetMap == Offsets(usedZones[..k])
    {
      assert usedZones[..k + 1][..k] == usedZones[..k];
      var zone := usedZones[k];
      abbrevMap := abbrevMap + [zone.name];
      offsetMap := offsetMap + [PackMinutes(Neg64(zone.offset))];
    }
    assert usedZones[..|usedZones|] == usedZones;
  }

  /** The until of one more written transition: its time minus the last one's (or 0 after the first). */
  lemma UntilLast(kept: seq<ZoneTrans>, t: ZoneTrans)
    requires |kept| >= 1
    ensures Until(kept + [t]) == Wrap64(t.when - if |kept| == 1 then 0 else kept[|kept| - 1].when)
  {
    var k' := kept + [t];
    assert k'[|k'| - 1] == t;
    if |kept| >= 2 {
      assert k'[|k'| - 2] == kept[|kept| - 1];
    }
  }

  /** One more written transition adds one until, from the previous written one (or 0 after the first). */
  lemma UntilsAppend(kept: seq<ZoneTrans>, t: ZoneTrans)
    requires |kept| >= 1
    ensures Untils(kept + [t]) == Untils(kept) + [Wrap64(t.when - if |kept| == 1 then 0 else kept[|kept| - 1].when)]
  {
    assert (kept + [t])[..|kept|] == kept;
    UntilLast(kept, t);
  }

  /** A transition that repeats the last written index is dropped; any other is written. */
  lemma KeptStep(trans: seq<ZoneTrans>, i: nat)
    requires i < |trans|
    ensures var k := Kept(trans[..i]);
      Kept(trans[..i + 1]) == if |k| > 0 && k[|k| - 1].index == trans[i].index then k else k + [trans[i]]
  {
    assert trans[..i + 1][..i] == trans[..i];
  }

  /** UntilsAppend, for the until the last loop of Packed computes from lastTimeStamp. */
  lemma UntilsStep(before: seq<ZoneTrans>, t: ZoneTrans, last: int64, ts: int64)
    requires |before| >= 1
    requires last == if |before| == 1 then 0 else before[|before| - 1].when
    requires ts == Wrap64(t.when - last)
    ensures Untils(before + [t]) == Untils(before) + [ts]
  {
    UntilsAppend(before, t);
  }

  /** One more until adds its packed text to the until texts. */
  lemma UntilTextsAppend(us: seq<int64>, x: int64)
    ensures UntilTexts(us + [x]) == UntilTexts(us) + [PackMinutes(x)]
  {
    assert (us + [x])[..|us|] == us;
  }

  /** Writing one more transition appends its index text. */
  lemma IndexTextsAppend(kept: seq<ZoneTrans>, t: ZoneTrans)
    ensures IndexTexts(kept + [t]) == IndexTexts(kept) + [SignedBase60(t.index)]
  {
    assert (kept + [t])[..|kept|] == kept;
  }

  /**
   * The variables of the last loop of Packed, with the untils kept as numbers: the loop
   * appends packMinutes of each (UntilTexts).
   */
  datatype Writer = Writer(prevZoneIdx: int, first: bool, lastTimeStamp: int64,
                           indices: seq<string>, untils: seq<int64>)

  /**
   * The counts the last loop of Packed keeps: no index written while first holds, and one
   * until fewer than indices after that.
   */
  predicate Counted(w: Writer) {
    (w.first <==> |w.indices| == 0) && |w.untils| == if w.first then 0 else |w.indices| - 1
  }

  /** One pass of the last loop of Packed over transition t. */
  function Write(w: Writer, t: ZoneTrans): (r: Writer)
    ensures r.prevZoneIdx == t.index
    ensures |w.indices| <= |r.indices| <= |w.indices| + 1 && |w.untils| <= |r.untils| <= |w.untils| + 1
    ensures Counted(w) ==> Counted(r)
  {
    if w.prevZoneIdx == t.index then w
    else if w.first then
      w.(prevZoneIdx := t.index, first := false, indices := w.indices + [SignedBase60(t.index)])
    else
      w.(prevZoneIdx := t.index, lastTimeStamp := t.when, indices := w.indices + [SignedBase60(t.index)],
         untils := w.untils + [Wrap64(t.when - w.lastTimeStamp)])
  }

  /** The last loop of Packed run over trans, from prevZoneIdx = -1, first, lastTimeStamp = 0. */
  function WriteAll(trans: seq<ZoneTrans>): (r: Writer)
    ensures r.prevZoneIdx == if |trans| == 0 then -1 else trans[|trans| - 1].index
    ensures |r.indices| <= |trans|
    ensures Counted(r)
  {
    if |trans| == 0 then Writer(-1, true, 0, [], [])
    else Write(WriteAll(trans[..|trans| - 1]), trans[|trans| - 1])
  }

  /** What the last loop of Packed holds once it has written the transitions kept. */
  function WriterAfter(kept: seq<ZoneTrans>): Writer {
    Writer(if |kept| == 0 then -1 else kept[|kept| - 1].index,
           |kept| == 0,
           if |kept| <= 1 then 0 else kept[|kept| - 1].when,
           IndexTexts(kept), Untils(kept))
  }

  /** One pass over t, after at least one transition with another index, writes t and its until. */
  lemma WriteKeptNew(kept: seq<ZoneTrans>, t: ZoneTrans)
    requires |kept| >= 1 && kept[|kept| - 1].index != t.index
    ensures Write(WriterAfter(kept), t) == WriterAfter(kept + [t])
  {
    var w := WriterAfter(kept);
    var ts := Wrap64(t.when - w.lastTimeStamp);
    assert w.prevZoneIdx != t.index && !w.first;
    IndexTextsAppend(kept, t);
    UntilsStep(kept, t, w.lastTimeStamp, ts);
    assert WriterAfter(kept + [t]) ==
      Writer(t.index, false, t.when, IndexTexts(kept) + [SignedBase60(t.index)], Untils(kept) + [ts]);
  }

  /** One pass over t from the state after kept is the state after the transitions Kept keeps. */
  lemma WriteKept(kept: seq<ZoneTrans>, t: ZoneTrans)
    ensures Write(WriterAfter(kept), t) ==
      WriterAfter(if |kept| > 0 && kept[|kept| - 1].index == t.index then kept else kept + [t])
  {
    if |kept| == 0 {
      assert kept + [t] == [t];
      IndexTextsAppend(kept, t);
    } else if kept[|kept| - 1].index != t.index {
      WriteKeptNew(kept, t);
    }
  }

  /**
   * The last loop of Packed writes exactly the transitions Kept keeps: their index texts,
   * and the untils between them.
   */
  lemma {:induction false} WriteAllKept(trans: seq<ZoneTrans>)
    ensures WriteAll(trans) == WriterAfter(Kept(trans))
  {
    if |trans| > 0 {
      var n := |trans|;
      WriteAllKept(trans[..n - 1]);
      KeptStep(trans, n - 1);
      WriteKept(Kept(trans[..n - 1]), trans[n - 1]);
    }
  }

  /** One more pass of the last loop of Packed. */
  lemma WriteAllStep(trans: seq<ZoneTrans>, i: nat)
    requires i < |trans|
    ensures WriteAll(trans[..i + 1]) == Write(WriteAll(trans[..i]), trans[i])
  {
    assert trans[..i + 1][..i] == trans[..i];
  }

  /**
   * The last loop of Packed: a transition whose index equals prevZoneIdx is skipped;
   * otherwise its index is written, and, except for the first one written, so is its
   * time minus lastTimeStamp, which then becomes its time.
   */
  method IndicesAndUntils(transitions: seq<ZoneTrans>) returns (indices: seq<string>, untils: seq<string>)
    ensures indices == IndexTexts(Kept(transitions))
    ensures untils == UntilTexts(Untils(Kept(transitions)))
  {
    indices := [];
    untils := [];
    var lastTimeStamp: int64 := 0;
    var first := true;
    var prevZoneIdx: int := -1;
    ghost var untilValues: seq<int64> := [];
    for i := 0 to |transitions|
      invariant Writer(prevZoneIdx, first, lastTimeStamp, indices, untilValues) == WriteAll(transitions[..i])
      invariant untils == UntilTexts(untilValues)
    {
      WriteAllStep(transitions, i);
      var trans := transitions[i];
      if prevZoneIdx == trans.index {
        continue;
      }
      prevZoneIdx := trans.index;
      var digits := ToBase60(trans.index);
      indices := indices + [digits];
      if first {
        first := false;
        continue;
      }
      var ts := Wrap64(trans.when - lastTimeStamp);
      lastTimeStamp := trans.when;
      UntilTextsAppend(untilValues, ts);
      untilValues := untilValues + [ts];
      untils := untils + [PackMinutes(ts)];
    }
    assert transitions[..|transitions|] == transitions;
    WriteAllKept(transitions);
  }

  /**
   * Packed: the location in the packed format of moment-timezone.js, or the panic
   * "zone not found" for a transition whose zone index has no zone.
   */
  method Packed(l: Location) returns (r: PackResult)
    ensures r == Pack(l)
  {
    var dedupZones, dedupMap := DedupZones(l.zone);
    ghost var d := DedupOf(l.zone);
    var ok, bad, usedIdx, transitions := RenumberTransitions(l.tx, dedupMap, d.index);
    if !ok {
      return ZoneNotFound(bad);
    }
    DedupIndex(l.zone);
    RemapUsedBelow(l.tx, d.index, |d.zones|);
    var usedZones := KeepUsedZones(dedupZones, usedIdx);
    var abbrevMap, offsetMap := ZoneLists(usedZones);
    var indices, untils := IndicesAndUntils(transitions);
    r := PackedText(l.name + "|" + Join(abbrevMap, " ") + "|" + Join(offsetMap, " ") + "|"
      + Join(indices, "") + "|" + Join(untils, " "));
  }
}
