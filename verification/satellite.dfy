/**
  parse_gpgsa and parse_gpgsv_single of SatelliteSolve.c. Both share the
  structural checks and the field loop with the other parsers; what is their
  own is the compaction of a list in place: GSA keeps the positive PRNs of
  fields 4 to 15, GSV the satellite groups (4 fields each, from field 5)
  whose PRN is positive, each written at index `satellite_count`.
 */
module Satellite {
  import opened Tokenizer
  import opened NumberText
  import opened Sentence
  import opened Records
  import opened FieldDecode

  /** A fixed-size C array whose first |xs| entries are set and the rest still hold `fill`. */
  function Padded<T>(xs: seq<T>, n: nat, fill: T): (r: seq<T>)
    requires |xs| <= n
    ensures |r| == n && r[..|xs|] == xs
    ensures forall k :: |xs| <= k < n ==> r[k] == fill
  {
    xs + seq(n - |xs|, _ => fill)
  }

  /** Writing entry |xs| extends the set prefix by one. */
  lemma PaddedSnoc<T>(xs: seq<T>, x: T, n: nat, fill: T)
    requires |xs| < n
    ensures Padded(xs, n, fill)[|xs| := x] == Padded(xs + [x], n, fill)
  {
  }

  // -------------------------------------------------------------------- GSA

  /** Scratch buffer sizes of parse_gpgsa, for fields 2 to 18: modes, 12 PRNs, PDOP, HDOP, VDOP. */
  const GsaSizes: seq<nat> := [2, 2, 4, 4, 4, 4, 4, 4, 4, 4, 4, 4, 4, 4, 16, 16, 16]

  /** The PRN texts of a GSA sentence, fields 4 to 15. */
  function PrnTexts(f: seq<string>): (t: seq<string>)
    requires |f| == |GsaSizes|
    ensures |t| == GsaPrnCapacity
  {
    f[2..14]
  }

  /** The non-empty texts that read as a positive number, converted, in their order. */
  function PositivePrns(texts: seq<string>): seq<int> {
    if texts == [] then []
    else
      var t := texts[|texts| - 1];
      var front := PositivePrns(texts[..|texts| - 1]);
      if |t| > 0 && Atoi(t) > 0 then front + [Atoi(t)] else front
  }

  /** A PRN is kept exactly when some text reads as it and it is positive; never more than there are texts. */
  lemma {:induction false} PositivePrnsSpec(texts: seq<string>)
    ensures |PositivePrns(texts)| <= |texts|
    ensures forall k :: 0 <= k < |PositivePrns(texts)| ==> PositivePrns(texts)[k] > 0
    ensures forall x :: x in PositivePrns(texts) <==> x > 0 && exists i :: 0 <= i < |texts| && |texts[i]| > 0 && Atoi(texts[i]) == x
  {
    if texts != [] {
      var front := texts[..|texts| - 1];
      PositivePrnsSpec(front);
      assert forall i :: 0 <= i < |front| ==> texts[i] == front[i];
      forall x | x > 0 && exists i :: 0 <= i < |texts| && |texts[i]| > 0 && Atoi(texts[i]) == x
        ensures x in PositivePrns(texts)
      {
        var i :| 0 <= i < |texts| && |texts[i]| > 0 && Atoi(texts[i]) == x;
        if i < |front| {
          assert x in PositivePrns(front);
        }
      }
    }
  }

  /** One more text appends its PRN when positive. */
  lemma PositivePrnsSnoc(texts: seq<string>, t: string)
    ensures PositivePrns(texts + [t]) == if |t| > 0 && Atoi(t) > 0 then PositivePrns(texts) + [Atoi(t)] else PositivePrns(texts)
  {
    assert (texts + [t])[..|texts|] == texts;
  }

  function GsaMode1(text: string): Reading<int> {
    if Lead(text) == 'M' || Lead(text) == 'A' then Reading(if Lead(text) == 'M' then 1 else 2, true)
    else Reading(-1, false)
  }

  function GsaFromFields(f: seq<string>, systemId: char): GsaRecord
    requires |f| == |GsaSizes|
  {
    var prns := PositivePrns(PrnTexts(f));
    PositivePrnsSpec(PrnTexts(f));
    GsaRecord(
      mode1 := GsaMode1(f[0]),
      mode2 := RangedInt(f[1], 1, 3, -1),
      satellites := Padded(prns, GsaPrnCapacity, -1),
      satelliteCount := |prns|,
      pdop := RangedReal(f[14], Closed(0.0, 99.9), -1.0),
      hdop := RangedReal(f[15], Closed(0.0, 99.9), -1.0),
      vdop := RangedReal(f[16], Closed(0.0, 99.9), -1.0),
      systemId := Reading(systemId, true))
  }

  /** The record parse_gpgsa leaves behind; the system id is the sentence's third character. */
  function GsaParsed(s: string, rec: GsaRecord): GsaRecord {
    if FrameCode(s, "GSA") != 0 then rec else GsaFromFields(Fields(s, "GSA", GsaSizes), s[2])
  }

  /**
    The PRN loop of parse_gpgsa: each non-empty PRN text that reads as a
    positive number is stored at `satellite_count`, which then grows by one.
   */
  method CompactPrns(texts: seq<string>) returns (satellites: seq<int>, count: nat)
    requires |texts| == GsaPrnCapacity
    ensures count == |PositivePrns(texts)| <= GsaPrnCapacity
    ensures satellites == Padded(PositivePrns(texts), GsaPrnCapacity, -1)
  {
    satellites := seq(GsaPrnCapacity, _ => -1);
    count := 0;
    for i := 0 to GsaPrnCapacity
      invariant count == |PositivePrns(texts[..i])| <= i
      invariant satellites == Padded(PositivePrns(texts[..i]), GsaPrnCapacity, -1)
    {
      PositivePrnsSnoc(texts[..i], texts[i]);
      assert texts[..i + 1] == texts[..i] + [texts[i]];
      if |texts[i]| > 0 {
        var prn := Atoi(texts[i]);
        if prn > 0 {
          PaddedSnoc(PositivePrns(texts[..i]), prn, GsaPrnCapacity, -1);
          satellites := satellites[count := prn];
          count := count + 1;
        }
      }
    }
    assert texts[..GsaPrnCapacity] == texts;
  }

  /** parse_gpgsa. */
  method ParseGsa(sentence: string, rec: GsaRecord) returns (code: int, out: GsaRecord)
    requires '\0' !in sentence
    ensures code == FrameCode(sentence, "GSA")
    ensures code != 0 ==> out == rec
    ensures out == GsaParsed(sentence, rec)
  {
    var f;
    code, f := ReadFields(sentence, "GSA", GsaSizes);
    if code != 0 {
      return code, rec;
    }
    var satellites, count := CompactPrns(PrnTexts(f));
    out := GsaFromFields(f, sentence[2]).(satellites := satellites, satelliteCount := count);
  }

  /**
    The PRN list of a decoded GSA record: at most 12 entries, the first
    `satelliteCount` exactly the positive PRNs of fields 4 to 15 in field
    order, every later entry -1.
   */
  lemma GsaPrnList(f: seq<string>, systemId: char)
    requires |f| == |GsaSizes|
    ensures var r := GsaFromFields(f, systemId);
      0 <= r.satelliteCount <= GsaPrnCapacity && |r.satellites| == GsaPrnCapacity &&
      (forall k :: 0 <= k < r.satelliteCount ==> r.satellites[k] > 0) &&
      (forall k :: r.satelliteCount <= k < GsaPrnCapacity ==> r.satellites[k] == -1) &&
      r.satellites[..r.satelliteCount] == PositivePrns(PrnTexts(f)) &&
      (forall x :: x in r.satellites[..r.satelliteCount] <==>
         x > 0 && exists i :: 2 <= i < 14 && |f[i]| > 0 && Atoi(f[i]) == x)
  {
    var texts := PrnTexts(f);
    var prns := PositivePrns(texts);
    PositivePrnsSpec(texts);
    var r := GsaFromFields(f, systemId);
    assert r.satellites[..r.satelliteCount] == prns;
    forall x ensures x in prns <==> x > 0 && exists i :: 2 <= i < 14 && |f[i]| > 0 && Atoi(f[i]) == x {
      if x > 0 && exists i :: 2 <= i < 14 && |f[i]| > 0 && Atoi(f[i]) == x {
        var i :| 2 <= i < 14 && |f[i]| > 0 && Atoi(f[i]) == x;
        assert texts[i - 2] == f[i];
      }
      if x in prns {
        var i :| 0 <= i < |texts| && |texts[i]| > 0 && Atoi(texts[i]) == x;
        assert f[i + 2] == texts[i];
      }
    }
  }

  /**
    A decoded GSA record: the PRN list of GsaPrnList; mode 1 is 1 for 'M'
    and 2 for 'A'; mode 2 is in [1, 3]; each DOP is in [0, 99.9]; a value
    out of range or missing keeps its -1 sentinel; the system id is always
    present.
   */
  lemma GsaDecoding(f: seq<string>, systemId: char)
    requires |f| == |GsaSizes|
    ensures var r := GsaFromFields(f, systemId);
      0 <= r.satelliteCount <= GsaPrnCapacity &&
      r.satellites == Padded(PositivePrns(PrnTexts(f)), GsaPrnCapacity, -1) &&
      r.satellites[..r.satelliteCount] == PositivePrns(PrnTexts(f)) &&
      (r.mode1.present <==> Lead(f[0]) == 'M' || Lead(f[0]) == 'A') &&
      (r.mode1.present ==> r.mode1.value == if Lead(f[0]) == 'M' then 1 else 2) &&
      (!r.mode1.present ==> r.mode1.value == -1) &&
      (r.mode2.present <==> |f[1]| > 0 && 1 <= Atoi(f[1]) <= 3) &&
      (r.mode2.present ==> r.mode2.value == Atoi(f[1])) && (!r.mode2.present ==> r.mode2.value == -1) &&
      (r.pdop.present <==> |f[14]| > 0 && 0.0 <= Atof(f[14]) <= 99.9) &&
      (r.pdop.present ==> r.pdop.value == Atof(f[14])) && (!r.pdop.present ==> r.pdop.value == -1.0) &&
      (r.hdop.present <==> |f[15]| > 0 && 0.0 <= Atof(f[15]) <= 99.9) &&
      (r.hdop.present ==> r.hdop.value == Atof(f[15])) && (!r.hdop.present ==> r.hdop.value == -1.0) &&
      (r.vdop.present <==> |f[16]| > 0 && 0.0 <= Atof(f[16]) <= 99.9) &&
      (r.vdop.present ==> r.vdop.value == Atof(f[16])) && (!r.vdop.present ==> r.vdop.value == -1.0) &&
      r.systemId == Reading(systemId, true)
  {
    GsaPrnList(f, systemId);
    RangedIntReading(f[1], 1, 3, -1);
    RangedRealReading(f[14], Closed(0.0, 99.9), -1.0);
    RangedRealReading(f[15], Closed(0.0, 99.9), -1.0);
    RangedRealReading(f[16], Closed(0.0, 99.9), -1.0);
  }

  /**
    VDOP is field 18, the last field of a GSA sentence: sitting right before
    '*', it is never decoded.
   */
  lemma GsaVdopNeverDecoded(ended: seq<string>, last: string, systemId: char)
    requires |ended| == 17
    requires forall k :: 0 <= k < |ended| ==> ',' !in ended[k]
    requires ',' !in last
    ensures !GsaFromFields(Slots(Segments(JoinEnded(ended, ',') + last, ','), GsaSizes), systemId).vdop.present
  {
    FinalFieldDropped(ended, last, GsaSizes);
  }

  // -------------------------------------------------------------------- GSV

  /** Scratch buffer sizes of parse_gpgsv_single, for fields 2 to 20: three header fields, then sat_data[4][4][8]. */
  const GsvSizes: seq<nat> := [4, 4, 4, 8, 8, 8, 8, 8, 8, 8, 8, 8, 8, 8, 8, 8, 8, 8, 8]

  /** sat_data: group i holds PRN, elevation, azimuth and SNR of fields 5 + 4i to 8 + 4i. */
  function Groups(f: seq<string>): (g: seq<seq<string>>)
    requires |f| == |GsvSizes|
    ensures |g| == GsvSatelliteCapacity && forall i :: 0 <= i < |g| ==> |g[i]| == 4
  {
    seq(GsvSatelliteCapacity, i requires 0 <= i < GsvSatelliteCapacity => f[3 + 4 * i..7 + 4 * i])
  }

  /** A satellite entry before decoding: every value -1, not valid. */
  const NoSatellite := SatelliteInfo(-1, -1, -1, -1, false)

  /** The entry a group with a positive PRN gives; each of the other values only when in range. */
  function SatelliteOf(g: seq<string>): SatelliteInfo
    requires |g| == 4
  {
    SatelliteInfo(
      prn := Atoi(g[0]),
      elevation := RangedInt(g[1], 0, 90, -1).value,
      azimuth := RangedInt(g[2], 0, 359, -1).value,
      snr := RangedInt(g[3], 0, 99, -1).value,
      isValid := true)
  }

  predicate HasPrn(g: seq<string>)
    requires |g| == 4
  {
    |g[0]| > 0 && Atoi(g[0]) > 0
  }

  /** The entries of the groups with a positive PRN, in group order. */
  function VisibleSatellites(groups: seq<seq<string>>): seq<SatelliteInfo>
    requires forall i :: 0 <= i < |groups| ==> |groups[i]| == 4
  {
    if groups == [] then []
    else
      var g := groups[|groups| - 1];
      var front := VisibleSatellites(groups[..|groups| - 1]);
      if HasPrn(g) then front + [SatelliteOf(g)] else front
  }

  /** The PRN texts of the groups. */
  function PrnsOfGroups(groups: seq<seq<string>>): (t: seq<string>)
    requires forall i :: 0 <= i < |groups| ==> |groups[i]| == 4
    ensures |t| == |groups|
  {
    seq(|groups|, i requires 0 <= i < |groups| => groups[i][0])
  }

  function PrnsOf(sats: seq<SatelliteInfo>): (p: seq<int>)
    ensures |p| == |sats|
  {
    seq(|sats|, i requires 0 <= i < |sats| => sats[i].prn)
  }

  /**
    GSV compacts like GSA: the PRNs of the decoded satellites are exactly the
    positive PRNs of the groups, in order; every entry is valid and each
    elevation, azimuth and SNR is either -1 or in its range.
   */
  lemma {:induction false} VisibleSatellitesSpec(groups: seq<seq<string>>)
    requires forall i :: 0 <= i < |groups| ==> |groups[i]| == 4
    ensures PrnsOf(VisibleSatellites(groups)) == PositivePrns(PrnsOfGroups(groups))
    ensures forall k :: 0 <= k < |VisibleSatellites(groups)| ==>
      var e := VisibleSatellites(groups)[k];
      e.isValid && e.prn > 0 &&
      (e.elevation == -1 || 0 <= e.elevation <= 90) &&
      (e.azimuth == -1 || 0 <= e.azimuth <= 359) &&
      (e.snr == -1 || 0 <= e.snr <= 99)
  {
    if groups != [] {
      var front := groups[..|groups| - 1];
      VisibleSatellitesSpec(front);
      assert PrnsOfGroups(groups)[..|groups| - 1] == PrnsOfGroups(front);
      var sats := VisibleSatellites(groups);
      if HasPrn(groups[|groups| - 1]) {
        assert PrnsOf(sats) == PrnsOf(VisibleSatellites(front)) + [Atoi(groups[|groups| - 1][0])];
      }
    }
  }

  /** One more group appends its entry when its PRN is positive. */
  lemma VisibleSatellitesSnoc(groups: seq<seq<string>>, g: seq<string>)
    requires forall i :: 0 <= i < |groups| ==> |groups[i]| == 4
    requires |g| == 4
    ensures VisibleSatellites(groups + [g]) ==
      if HasPrn(g) then VisibleSatellites(groups) + [SatelliteOf(g)] else VisibleSatellites(groups)
  {
    assert (groups + [g])[..|groups|] == groups;
  }

  function GsvFromFields(f: seq<string>, systemId: char): GsvRecord
    requires |f| == |GsvSizes|
  {
    var sats := VisibleSatellites(Groups(f));
    VisibleSatellitesSpec(Groups(f));
    PositivePrnsSpec(PrnsOfGroups(Groups(f)));
    GsvRecord(
      totalMessages := RangedInt(f[0], 1, 9, -1),
      messageNumber := RangedInt(f[1], 1, 9, -1),
      totalSatellites := RangedInt(f[2], 0, 99, -1),
      satellites := Padded(sats, GsvSatelliteCapacity, NoSatellite),
      satelliteCount := |sats|,
      systemId := Reading(systemId, true))
  }

  /** The record parse_gpgsv_single leaves behind. */
  function GsvParsed(s: string, rec: GsvRecord): GsvRecord {
    if FrameCode(s, "GSV") != 0 then rec else GsvFromFields(Fields(s, "GSV", GsvSizes), s[2])
  }

  /**
    The body of the satellite loop for a group whose PRN is positive: the
    entry at `satellite_count` (still as initialised) gets the PRN and the
    valid flag, then each of elevation, azimuth and SNR when in range.
   */
  method DecodeSatellite(g: seq<string>, entry: SatelliteInfo) returns (info: SatelliteInfo)
    requires |g| == 4 && HasPrn(g) && entry == NoSatellite
    ensures info == SatelliteOf(g)
  {
    info := entry.(prn := Atoi(g[0]), isValid := true);
    if |g[1]| > 0 {
      var elevation := Atoi(g[1]);
      if 0 <= elevation <= 90 {
        info := info.(elevation := elevation);
      }
    }
    if |g[2]| > 0 {
      var azimuth := Atoi(g[2]);
      if 0 <= azimuth <= 359 {
        info := info.(azimuth := azimuth);
      }
    }
    if |g[3]| > 0 {
      var snr := Atoi(g[3]);
      if 0 <= snr <= 99 {
        info := info.(snr := snr);
      }
    }
  }

  /**
    The satellite loop of parse_gpgsv_single: each group with a positive PRN
    is decoded into the entry at `satellite_count`, which then grows by one.
   */
  method CompactSatellites(groups: seq<seq<string>>) returns (satellites: seq<SatelliteInfo>, count: nat)
    requires |groups| == GsvSatelliteCapacity && forall i :: 0 <= i < |groups| ==> |groups[i]| == 4
    ensures count == |VisibleSatellites(groups)| <= GsvSatelliteCapacity
    ensures satellites == Padded(VisibleSatellites(groups), GsvSatelliteCapacity, NoSatellite)
  {
    satellites := seq(GsvSatelliteCapacity, _ => NoSatellite);
    count := 0;
    for i := 0 to GsvSatelliteCapacity
      invariant count == |VisibleSatellites(groups[..i])| <= i
      invariant satellites == Padded(VisibleSatellites(groups[..i]), GsvSatelliteCapacity, NoSatellite)
    {
      var g := groups[i];
      VisibleSatellitesSnoc(groups[..i], g);
      assert groups[..i + 1] == groups[..i] + [g];
      if |g[0]| > 0 {
        var prn := Atoi(g[0]);
        if prn > 0 {
          var info := DecodeSatellite(g, satellites[count]);
          PaddedSnoc(VisibleSatellites(groups[..i]), info, GsvSatelliteCapacity, NoSatellite);
          satellites := satellites[count := info];
          count := count + 1;
        }
      }
    }
    assert groups[..GsvSatelliteCapacity] == groups;
  }

  /** parse_gpgsv_single. */
  method ParseGsv(sentence: string, rec: GsvRecord) returns (code: int, out: GsvRecord)
    requires '\0' !in sentence
    ensures code == FrameCode(sentence, "GSV")
    ensures code != 0 ==> out == rec
    ensures out == GsvParsed(sentence, rec)
  {
    var f;
    code, f := ReadFields(sentence, "GSV", GsvSizes);
    if code != 0 {
      return code, rec;
    }
    var satellites, count := CompactSatellites(Groups(f));
    out := GsvFromFields(f, sentence[2]).(satellites := satellites, satelliteCount := count);
  }

  /**
    A decoded GSV record: at most 4 satellites, all valid with a positive PRN,
    each later entry all -1; the header values are present exactly when in
    range (message counts in [1, 9], satellites in view in [0, 99]).
   */
  lemma GsvDecoding(f: seq<string>, systemId: char)
    requires |f| == |GsvSizes|
    ensures var r := GsvFromFields(f, systemId);
      0 <= r.satelliteCount <= GsvSatelliteCapacity && |r.satellites| == GsvSatelliteCapacity &&
      (forall k :: 0 <= k < r.satelliteCount ==> r.satellites[k].isValid && r.satellites[k].prn > 0) &&
      (forall k :: r.satelliteCount <= k < GsvSatelliteCapacity ==> r.satellites[k] == NoSatellite) &&
      (r.totalMessages.present <==> |f[0]| > 0 && 1 <= Atoi(f[0]) <= 9) &&
      (r.messageNumber.present <==> |f[1]| > 0 && 1 <= Atoi(f[1]) <= 9) &&
      (r.totalSatellites.present <==> |f[2]| > 0 && 0 <= Atoi(f[2]) <= 99) &&
      (r.totalMessages.present ==> r.totalMessages.value == Atoi(f[0])) &&
      (r.messageNumber.present ==> r.messageNumber.value == Atoi(f[1])) &&
      (r.totalSatellites.present ==> r.totalSatellites.value == Atoi(f[2])) &&
      (!r.totalMessages.present ==> r.totalMessages.value == -1) &&
      (!r.messageNumber.present ==> r.messageNumber.value == -1) &&
      (!r.totalSatellites.present ==> r.totalSatellites.value == -1) &&
      r.satellites[..r.satelliteCount] == VisibleSatellites(Groups(f)) &&
      r.systemId == Reading(systemId, true)
  {
    RangedIntReading(f[0], 1, 9, -1);
    RangedIntReading(f[1], 1, 9, -1);
    RangedIntReading(f[2], 0, 99, -1);
    var groups := Groups(f);
    VisibleSatellitesSpec(groups);
    PositivePrnsSpec(PrnsOfGroups(groups));
  }

  /**
    Field routing: field n of the sentence, for n from 5 to 20, is item
    (n - 5) % 4 of satellite group (n - 5) / 4, clipped to 7 characters;
    later fields are ignored (Sentence.SlotsIgnoreLaterFields).
   */
  lemma GsvRouting(fields: seq<string>, n: nat)
    requires 5 <= n <= 20 && n - 1 < |fields|
    ensures Groups(Slots(fields, GsvSizes))[(n - 5) / 4][(n - 5) % 4] == Clip(fields[n - 1], 8)
  {
    var g := (n - 5) / 4;
    var j := (n - 5) % 4;
    var slots := Slots(fields, GsvSizes);
    assert 3 + 4 * g + j == n - 2;
    assert GsvSizes[n - 2] == 8;
    assert slots[n - 2] == Clip(fields[n - 1], 8);
    assert Groups(slots)[g] == slots[3 + 4 * g..7 + 4 * g];
  }

  /**
    The SNR of the fourth group is field 20, the last field of a full GSV
    sentence: it is never decoded, so a satellite from that group has SNR -1.
   */
  lemma GsvFinalSnrNeverDecoded(ended: seq<string>, last: string)
    requires |ended| == 19
    requires forall k :: 0 <= k < |ended| ==> ',' !in ended[k]
    requires ',' !in last
    ensures var groups := Groups(Slots(Segments(JoinEnded(ended, ',') + last, ','), GsvSizes));
      groups[3][3] == [] &&
      (HasPrn(groups[3]) ==> VisibleSatellites(groups)[|VisibleSatellites(groups)| - 1].snr == -1)
  {
    FinalFieldDropped(ended, last, GsvSizes);
    var groups := Groups(Slots(Segments(JoinEnded(ended, ',') + last, ','), GsvSizes));
    assert groups[..3] + [groups[3]] == groups;
    VisibleSatellitesSnoc(groups[..3], groups[3]);
  }
}
