/**
 * What a stream filter table means, independent of how the driver keeps the
 * hardware up to date (IEEE Std 802.1Q-2018, section 8.6.5.1).
 */
module PsfpSpec {
  import opened Common

  const NUM_PCP: nat := 8
  const WILDCARD: int := -1
  const FMTR_NONE: int := -1
  const FRAME_SZ_OVERHEAD: nat := 12
  const MAX_SDU: nat := 1506
  const MAX_FRAME_SZ: nat := 1518
  const MAX_NO_FILTERS: nat := 8192

  datatype Limits = Limits(maxStr: nat, maxGate: nat, maxFmtr: nat, resFmtr: nat)

  datatype FltData = FltData(gate: u32, maxSdu: u32, fmtr: int, blkOverszEna: bool, blkOversz: bool)

  /** What a user writes for one filter number. */
  datatype FltDef = FltDef(strHdl: int, pcp: int, data: FltData)

  type Filters = map<nat, FltDef>

  /** Does the pattern (strHdl, pcp), each side possibly a wildcard, cover the hardware row (s, p)? */
  predicate Covers(strHdl: int, pcp: int, s: int, p: int) {
    (strHdl == WILDCARD || strHdl == s) && (pcp == WILDCARD || pcp == p)
  }

  predicate Matches(d: FltDef, s: int, p: int) {
    Covers(d.strHdl, d.pcp, s, p)
  }

  predicate IsWildcard(d: FltDef) {
    d.strHdl == WILDCARD || d.pcp == WILDCARD
  }

  function Matching(fs: Filters, s: int, p: int): set<nat> {
    set f | f in fs && Matches(fs[f], s, p)
  }

  /** The effective filter of a row: the lowest-numbered one that matches it. */
  function Eff(fs: Filters, s: int, p: int): (r: Option<nat>)
    ensures r == None <==> forall f :: f in fs ==> !Matches(fs[f], s, p)
    ensures r.Some? ==> r.value in fs && Matches(fs[r.value], s, p)
    ensures r.Some? ==> forall f :: f in fs && Matches(fs[f], s, p) ==> r.value <= f
  {
    var m := Matching(fs, s, p);
    assert forall f :: f in fs && Matches(fs[f], s, p) ==> f in m;
    Least(m)
  }

  /** Adding one filter changes a row only if the new filter matches it and undercuts the old winner. */
  lemma EffAfterAdd(fs: Filters, f: nat, d: FltDef, s: int, p: int)
    requires f !in fs
    ensures Eff(fs[f := d], s, p) ==
            if Matches(d, s, p) && (Eff(fs, s, p) == None || f < Eff(fs, s, p).value)
            then Some(f) else Eff(fs, s, p)
  {
    var gs := fs[f := d];
    var before, after := Eff(fs, s, p), Eff(gs, s, p);
    assert f in gs && gs[f] == d;
    if before.Some? {
      assert before.value in gs && gs[before.value] == fs[before.value];
      assert after.Some?;
    }
    if after.Some? && after.value != f {
      assert after.value in fs && gs[after.value] == fs[after.value];
    }
  }

  /** Deleting a filter that is not effective on a row leaves that row's winner in place. */
  lemma EffAfterDelete(fs: Filters, f: nat, s: int, p: int)
    requires f in fs && Eff(fs, s, p) != Some(f)
    ensures Eff(fs - {f}, s, p) == Eff(fs, s, p)
  {
    var gs := fs - {f};
    var before, after := Eff(fs, s, p), Eff(gs, s, p);
    if before.Some? {
      assert before.value in gs && gs[before.value] == fs[before.value];
    }
    if after.Some? {
      assert after.value in fs && gs[after.value] == fs[after.value];
    }
  }

  // ---------------------------------------------------------------- hardware rows

  /** The three filter registers of one row, split into their fields. */
  datatype HwRow = HwRow(frameSz: nat, blkOversz: bool, blkOverszEna: bool,
                         policer: nat, policerEna: bool, gate: nat, gateEna: bool)

  const DEFAULT_ROW: HwRow := HwRow(MAX_FRAME_SZ, false, false, 0, false, 0, false)

  /** Register contents for a filter's data. `max_sdu + 12` is computed in u32, and the
      policer and gate fields keep 12 and 4 bits. */
  function RowOf(lim: Limits, d: FltData): HwRow {
    var frameSz := (d.maxSdu + FRAME_SZ_OVERHEAD) % TWO32;
    var fmtr := if d.fmtr != FMTR_NONE then (d.fmtr + lim.resFmtr) % 4096 else 0;
    HwRow(if frameSz < MAX_FRAME_SZ then frameSz else MAX_FRAME_SZ,
          d.blkOversz, d.blkOverszEna,
          fmtr, d.fmtr != FMTR_NONE,
          d.gate % 16, true)
  }

  /** What the hardware row (s, p) has to hold. */
  function WantedRow(lim: Limits, fs: Filters, s: int, p: int): HwRow {
    var e := Eff(fs, s, p);
    if e.Some? then RowOf(lim, fs[e.value].data) else DEFAULT_ROW
  }

  /** Data the driver decodes from a row when a filter is read back. */
  function ReadRow(lim: Limits, r: HwRow): FltData {
    FltData(if r.gateEna then r.gate % 16 else 0,
            (r.frameSz - FRAME_SZ_OVERHEAD) % TWO32,
            if r.policerEna then r.policer - lim.resFmtr else 0,
            r.blkOverszEna, r.blkOversz)
  }

  predicate CheckDef(lim: Limits, d: FltDef) {
    && (d.strHdl == WILDCARD || 0 <= d.strHdl < lim.maxStr)
    && (d.pcp == WILDCARD || 0 <= d.pcp < NUM_PCP)
    && d.data.gate < lim.maxGate
    && (d.data.fmtr == FMTR_NONE || 0 <= d.data.fmtr < lim.maxFmtr)
  }

  /** What a row holds of accepted data, field by field: gate and block bits always, the SDU limit exactly
      when it is one the hardware can express (1506 at most, or within 12 of the u32 range, where the sum
      wraps and the subtraction wraps back), the flow meter exactly when there is one. */
  lemma RowRoundTrip(lim: Limits, d: FltDef)
    requires CheckDef(lim, d) && lim.maxGate <= 16 && lim.maxFmtr + lim.resFmtr <= 4096
    ensures var r := ReadRow(lim, RowOf(lim, d.data));
            && r.gate == d.data.gate && r.blkOversz == d.data.blkOversz && r.blkOverszEna == d.data.blkOverszEna
            && (r.maxSdu == d.data.maxSdu <==> d.data.maxSdu <= MAX_SDU || d.data.maxSdu >= TWO32 - FRAME_SZ_OVERHEAD)
            && (r.fmtr == d.data.fmtr <==> d.data.fmtr != FMTR_NONE)
  {
  }

  /** What the user reads for a filter: what was written, but for an exact filter with the oversize-block bit
      of whichever filter is effective on its row. */
  function ReadBack(fs: Filters, f: nat): FltDef
    requires f in fs
  {
    var d := fs[f];
    if IsWildcard(d) then d
    else
      assert Matches(d, d.strHdl, d.pcp);
      d.(data := d.data.(blkOversz := fs[Eff(fs, d.strHdl, d.pcp).value].data.blkOversz))
  }

  /** A filter reads back as written if and only if it is a wildcard filter or the filter that is effective
      on its row has the same oversize-block bit. */
  lemma ReadsAsWritten(fs: Filters, f: nat)
    requires f in fs
    ensures var e := Eff(fs, fs[f].strHdl, fs[f].pcp);
            ReadBack(fs, f) == fs[f] <==>
              IsWildcard(fs[f]) || (e.Some? && fs[e.value].data.blkOversz == fs[f].data.blkOversz)
  {
    var d := fs[f];
    assert Matches(d, d.strHdl, d.pcp);
  }

  /** Two filters on one row: the one that is not effective reads back with the other one's bit. */
  lemma ShadowedReadsOther(a: FltDef, b: FltDef)
    requires a.strHdl == b.strHdl && a.pcp == b.pcp && !IsWildcard(a) && a.data.blkOversz != b.data.blkOversz
    ensures var fs: Filters := map[1 := a, 2 := b];
            ReadBack(fs, 1) == a && ReadBack(fs, 2) != b && ReadBack(fs, 2).data.blkOversz == a.data.blkOversz
  {
    var fs: Filters := map[1 := a, 2 := b];
    assert Matches(fs[1], a.strHdl, a.pcp) && Matches(fs[2], a.strHdl, a.pcp);
    assert Eff(fs, a.strHdl, a.pcp) == Some(1);
  }

  /** The frame limit in hardware is the SDU limit capped at 1506 plus overhead, unless the u32 sum
      wrapped: then a nearly unlimited SDU becomes a limit below twelve bytes. */
  lemma FrameLimit(lim: Limits, d: FltData)
    ensures RowOf(lim, d).frameSz == (if d.maxSdu < MAX_SDU then d.maxSdu else MAX_SDU) + FRAME_SZ_OVERHEAD
            <==> d.maxSdu < TWO32 - FRAME_SZ_OVERHEAD
    ensures d.maxSdu >= TWO32 - FRAME_SZ_OVERHEAD ==> RowOf(lim, d).frameSz < FRAME_SZ_OVERHEAD
  {
  }

  // ---------------------------------------------------------------- what rows do to frames

  /** A row lets a frame pass: its gate, if it has one, is open, its meter, if it has one, marks it green, the
      frame is not too long, and the stream is not blocked for an oversize frame. */
  predicate Admits(r: HwRow, size: nat, open: set<int>, green: set<int>) {
    && (r.gateEna ==> r.gate in open) && (r.policerEna ==> r.policer in green)
    && size <= r.frameSz && !(r.blkOverszEna && r.blkOversz)
  }

  /** The row after a frame: with blocking enabled an oversize frame blocks the stream. */
  function AfterFrame(r: HwRow, size: nat): HwRow {
    if r.blkOverszEna && size > r.frameSz then r.(blkOversz := true) else r
  }

  /** Frames of a stream without a filter pass whatever gates and meters do, up to 1518 bytes, and never change
      the row. */
  lemma UnfilteredPass(lim: Limits, fs: Filters, s: int, p: int, size: nat, open: set<int>, green: set<int>)
    requires Eff(fs, s, p) == None
    ensures Admits(WantedRow(lim, fs, s, p), size, open, green) <==> size <= 1518
    ensures AfterFrame(WantedRow(lim, fs, s, p), size) == WantedRow(lim, fs, s, p)
  {
  }

  /** The frame limit of a filter in bytes; the driver's sum wraps for an SDU limit within 12 of 2^32. */
  function LimitOf(d: FltData): nat {
    if d.maxSdu >= 0x1_0000_0000 - 12 then d.maxSdu + 12 - 0x1_0000_0000
    else if d.maxSdu <= 1506 then d.maxSdu + 12
    else 1518
  }

  /** What a filter demands of a frame. */
  predicate Demands(lim: Limits, d: FltData, size: nat, open: set<int>, green: set<int>) {
    && d.gate in open && (d.fmtr == FMTR_NONE || d.fmtr + lim.resFmtr in green)
    && size <= LimitOf(d) && !(d.blkOverszEna && d.blkOversz)
  }

  /** Frames on a row with an effective filter go by its gate, its meter and its limit. An oversize frame blocks
      all that follow if the filter enables that, and none otherwise. */
  lemma FilteredPass(lim: Limits, d: FltDef, size: nat, open: set<int>, green: set<int>)
    requires CheckDef(lim, d) && lim.maxGate <= 16 && lim.maxFmtr + lim.resFmtr <= 4096
    ensures Admits(RowOf(lim, d.data), size, open, green) <==> Demands(lim, d.data, size, open, green)
    ensures var next := AfterFrame(RowOf(lim, d.data), size);
            if d.data.blkOverszEna && size > LimitOf(d.data) then forall n :: !Admits(next, n, open, green)
            else next == RowOf(lim, d.data)
  {
  }

  // ---------------------------------------------------------------- histories

  type Raw = s: seq<int> | |s| == 4 && forall i :: 0 <= i < 4 ==> 0 <= s[i] < 0x1_0000_0000
    witness [0, 0, 0, 0]

  /** Frame counts of one batch of traffic, as many as the hardware has counters. */
  type Incs = s: seq<nat> | |s| == 4 witness [0, 0, 0, 0]

  function Plus(a: Incs, b: Incs): Incs {
    [a[0] + b[0], a[1] + b[1], a[2] + b[2], a[3] + b[3]]
  }

  datatype Request =
    | Add(filter: nat, def: FltDef, mem: bool)       // `mem`: do the allocations succeed?
    | Delete(filter: nat)
    | Traffic(s: nat, p: nat, incs: Incs)            // frames hit hardware row (s, p)

  predicate Accepts(lim: Limits, fs: Filters, r: Request)
    requires r.Add?
  {
    r.filter < MAX_NO_FILTERS && CheckDef(lim, r.def) && r.filter !in fs && r.mem
  }

  /** What one request does to the configured filters. */
  function Configure(lim: Limits, fs: Filters, r: Request): Filters {
    match r
    case Add(f, d, _) => if Accepts(lim, fs, r) then fs[f := d] else fs
    case Delete(f) => fs - {f}
    case Traffic(_, _, _) => fs
  }

  /** The filters that are configured after a history of requests. */
  function After(lim: Limits, rs: seq<Request>): Filters {
    if rs == [] then map[] else Configure(lim, After(lim, rs[..|rs| - 1]), rs[|rs| - 1])
  }

  lemma AfterOne(lim: Limits, rs: seq<Request>, r: Request)
    ensures After(lim, rs + [r]) == Configure(lim, After(lim, rs), r)
  {
    assert (rs + [r])[..|rs|] == rs;
  }

  /** After any history a filter is configured with a definition exactly if an accepted add gave it that and no
      delete has taken it since. */
  lemma {:induction false} FilterIff(lim: Limits, rs: seq<Request>, f: nat, d: FltDef)
    ensures (f in After(lim, rs) && After(lim, rs)[f] == d) <==> GivenLast(lim, rs, f, d)
  {
    hide CheckDef;
    if rs != [] {
      var n := |rs| - 1;
      FilterIff(lim, rs[..n], f, d);
      assert rs == rs[..n] + [rs[n]];
      GivenStep(lim, rs[..n], rs[n], f, d);
      hide GivenLast;
    }
  }

  /** Request r configures filter f with d. */
  predicate Gives(lim: Limits, fs: Filters, r: Request, f: nat, d: FltDef) {
    r.Add? && r.filter == f && r.def == d && Accepts(lim, fs, r)
  }

  predicate GivenAt(lim: Limits, rs: seq<Request>, i: nat, f: nat, d: FltDef)
    requires i < |rs|
  {
    Gives(lim, After(lim, rs[..i]), rs[i], f, d) && forall j :: i < j < |rs| ==> rs[j] != Delete(f)
  }

  predicate GivenLast(lim: Limits, rs: seq<Request>, f: nat, d: FltDef) {
    exists i :: 0 <= i < |rs| && GivenAt(lim, rs, i, f, d)
  }

  lemma GivenAtStep(lim: Limits, rs: seq<Request>, r: Request, i: nat, f: nat, d: FltDef)
    requires i <= |rs|
    ensures GivenAt(lim, rs + [r], i, f, d) <==>
            if i == |rs| then Gives(lim, After(lim, rs), r, f, d) else GivenAt(lim, rs, i, f, d) && r != Delete(f)
  {
    hide Gives, After;
    var q := rs + [r];
    assert q[..i] == rs[..i] && q[|rs|] == r;
    if i < |rs| {
      assert forall j :: i <= j < |rs| ==> q[j] == rs[j];
    } else {
      assert rs[..i] == rs;
    }
  }

  lemma GivenStep(lim: Limits, rs: seq<Request>, r: Request, f: nat, d: FltDef)
    ensures GivenLast(lim, rs + [r], f, d) <==>
            Gives(lim, After(lim, rs), r, f, d) || (GivenLast(lim, rs, f, d) && r != Delete(f))
  {
    hide Gives, GivenAt, After;
    GivenAtStep(lim, rs, r, |rs|, f, d);
    if GivenLast(lim, rs, f, d) {
      var i :| 0 <= i < |rs| && GivenAt(lim, rs, i, f, d);
      GivenAtStep(lim, rs, r, i, f, d);
    }
    if GivenLast(lim, rs + [r], f, d) {
      var i :| 0 <= i <= |rs| && GivenAt(lim, rs + [r], i, f, d);
      GivenAtStep(lim, rs, r, i, f, d);
    }
  }

  lemma {:induction false} AfterChecked(lim: Limits, rs: seq<Request>)
    ensures forall f :: f in After(lim, rs) ==> CheckDef(lim, After(lim, rs)[f])
  {
    hide CheckDef;
    if rs != [] {
      AfterChecked(lim, rs[..|rs| - 1]);
    }
  }

  /** What one request does to the number c of frames counted for filter f, when `fs` is configured:
      a batch counts if it hits a row on which f is effective; adding f starts from zero. */
  function Count(lim: Limits, fs: Filters, f: nat, c: Incs, r: Request): Incs {
    match r
    case Add(g, _, _) => if g == f && Accepts(lim, fs, r) then [0, 0, 0, 0] else c
    case Delete(_) => c
    case Traffic(s, p, incs) => if Eff(fs, s, p) == Some(f) then Plus(c, incs) else c
  }

  /** Frames to be reported for filter f: the increments of exactly those batches that hit a
      row while f, since it was last added, was the effective filter of that row. */
  function Counted(lim: Limits, rs: seq<Request>, f: nat): Incs {
    if rs == [] then [0, 0, 0, 0]
    else
      var pre := rs[..|rs| - 1];
      Count(lim, After(lim, pre), f, Counted(lim, pre, f), rs[|rs| - 1])
  }

  lemma CountedOne(lim: Limits, rs: seq<Request>, r: Request, f: nat)
    ensures Counted(lim, rs + [r], f) == Count(lim, After(lim, rs), f, Counted(lim, rs, f), r)
  {
    assert (rs + [r])[..|rs|] == rs;
  }

  // ---------------------------------------------------------------- counter virtualisation

  datatype CntType = MatchingFrames | PassingFrames | PassingSdu | RedFrames | NotPassingFrames | NotPassingSdu

  /** The number a counter type stands for, given the four hardware-counted amounts. */
  function Amount(c: seq<int>, t: CntType): int
    requires |c| == 4
  {
    match t
    case MatchingFrames => c[0]
    case PassingFrames => c[1]
    case PassingSdu => c[2]
    case RedFrames => c[3]
    case NotPassingFrames => c[0] - c[1]
    case NotPassingSdu => c[0] - c[2]
  }

  function Flip(cur: Raw, ref: Raw): Raw {
    [Sub32(cur[0], ref[0]), Sub32(cur[1], ref[1]), Sub32(cur[2], ref[2]), Sub32(cur[3], ref[3])]
  }

  function Mod32(c: Incs): Raw {
    [c[0] % TWO32, c[1] % TWO32, c[2] % TWO32, c[3] % TWO32]
  }

  function Bump(hw: Raw, incs: Incs): Raw {
    [(hw[0] + incs[0]) % TWO32, (hw[1] + incs[1]) % TWO32, (hw[2] + incs[2]) % TWO32, (hw[3] + incs[3]) % TWO32]
  }

  lemma FlipTwice(cur: Raw, ref: Raw)
    ensures Flip(cur, Flip(cur, ref)) == ref
  {
    assert forall a: u32, b: u32 {:trigger Sub32(a, Sub32(a, b))} :: Sub32(a, Sub32(a, b)) == b;
    assert Flip(cur, Flip(cur, ref))[0] == ref[0];
    assert Flip(cur, Flip(cur, ref))[1] == ref[1];
    assert Flip(cur, Flip(cur, ref))[2] == ref[2];
    assert Flip(cur, Flip(cur, ref))[3] == ref[3];
  }

  lemma FlipZero(c: Raw)
    ensures Flip(c, [0, 0, 0, 0]) == c
  {
    assert forall a: u32 {:trigger Sub32(a, 0)} :: Sub32(a, 0) == a;
  }

  lemma BumpOne(hw: u32, ref: u32, inc: nat, c: nat)
    requires Sub32(hw, ref) == c % TWO32
    ensures Sub32((hw + inc) % TWO32, ref) == (c + inc) % TWO32
  {
  }

  /** While a filter is active its count follows the hardware counter. */
  lemma BumpActive(hw: Raw, ref: Raw, incs: Incs, c: Incs)
    requires Flip(hw, ref) == Mod32(c)
    ensures Flip(Bump(hw, incs), ref) == Mod32(Plus(c, incs))
  {
    BumpOne(hw[0], ref[0], incs[0], c[0]);
    BumpOne(hw[1], ref[1], incs[1], c[1]);
    BumpOne(hw[2], ref[2], incs[2], c[2]);
    BumpOne(hw[3], ref[3], incs[3], c[3]);
  }

  /** edgx_psfp_flt_get_user_cnt: the reported number, from a capture and a reference. */
  function GetUserCnt(cur: Raw, ref: Raw, t: CntType): u32 {
    match t
    case MatchingFrames => Sub32(cur[0], ref[0])
    case PassingFrames => Sub32(cur[1], ref[1])
    case PassingSdu => Sub32(cur[2], ref[2])
    case RedFrames => Sub32(cur[3], ref[3])
    case NotPassingFrames => (cur[0] - ref[0] - cur[1] + ref[1]) % TWO32
    case NotPassingSdu => (cur[0] - ref[0] - cur[2] + ref[2]) % TWO32
  }

  lemma DiffMod(a: u32, b: u32, c: u32, d: u32, x: nat, y: nat)
    requires Sub32(a, b) == x % TWO32 && Sub32(c, d) == y % TWO32
    ensures (a - b - c + d) % TWO32 == (x - y) % TWO32
  {
  }

  /** Whatever the capture and the reference are, a report is the amount of their difference modulo 2^32. */
  lemma UserCntIsAmount(cur: Raw, ref: Raw, c: Incs, t: CntType)
    requires Flip(cur, ref) == Mod32(c)
    ensures GetUserCnt(cur, ref, t) == Amount(c, t) % TWO32
  {
    forall i | 0 <= i < 4
      ensures Sub32(cur[i], ref[i]) == c[i] % TWO32
    {
      assert Flip(cur, ref)[i] == Mod32(c)[i];
    }
    DiffMod(cur[0], ref[0], cur[1], ref[1], c[0], c[1]);
    DiffMod(cur[0], ref[0], cur[2], ref[2], c[0], c[2]);
  }
}
