/**
 * The driver's stream filter tables. Filters, (stream, PCP) subtrees, the cache
 * of effective filters, hardware rows and counter references are updated in
 * place; after a change only rows under the changed filter's pattern are
 * rewritten. Every method keeps all of it equal to what PsfpSpec derives from
 * the history of requests.
 */
module PsfpFilters {
  import opened Common
  import opened PsfpSpec

  /** `linked` is false once the filter has been erased from its subtree. */
  datatype FltEntry = FltEntry(def: FltDef, linked: bool)

  function LinkedDefs(flts: map<nat, FltEntry>): Filters {
    map f | f in flts && flts[f].linked :: flts[f].def
  }

  /** The lower of two optional filter numbers. */
  function Lower(a: Option<nat>, b: Option<nat>): Option<nat> {
    if a == None || (b.Some? && b.value < a.value) then b else a
  }

  type Pattern = (int, int)

  function PatternOf(d: FltDef): Pattern {
    (d.strHdl, d.pcp)
  }

  /** Filter numbers and subtrees agree, and no subtree is empty. */
  ghost predicate Agree(lim: Limits, flts: map<nat, FltEntry>, strs: map<Pattern, set<nat>>) {
    && (forall f :: f in flts ==> CheckDef(lim, flts[f].def))
    && (forall k :: k in strs ==> exists f :: f in strs[k])
    && (forall k, f :: k in strs && f in strs[k] ==> f in flts && flts[f].linked && k == PatternOf(flts[f].def))
    && (forall f :: f in flts && flts[f].linked ==>
          PatternOf(flts[f].def) in strs && f in strs[PatternOf(flts[f].def)])
  }

  function LinkSub(strs: map<Pattern, set<nat>>, k: Pattern, f: nat): map<Pattern, set<nat>> {
    strs[k := (if k in strs then strs[k] else {}) + {f}]
  }

  lemma AgreeAfterLink(lim: Limits, flts: map<nat, FltEntry>, strs: map<Pattern, set<nat>>, f: nat, d: FltDef)
    requires Agree(lim, flts, strs) && f !in flts && CheckDef(lim, d)
    ensures Agree(lim, flts[f := FltEntry(d, true)], LinkSub(strs, PatternOf(d), f))
    ensures LinkedDefs(flts[f := FltEntry(d, true)]) == LinkedDefs(flts)[f := d]
  {
    hide CheckDef;
    var flts1, strs1 := flts[f := FltEntry(d, true)], LinkSub(strs, PatternOf(d), f);
    assert f in strs1[PatternOf(d)];
    forall k | k in strs1
      ensures exists g :: g in strs1[k]
    {
      if k != PatternOf(d) {
        var g :| g in strs[k];
        assert g in strs1[k];
      }
    }
  }

  function UnlinkSub(strs: map<Pattern, set<nat>>, k: Pattern, f: nat): map<Pattern, set<nat>>
    requires k in strs
  {
    if strs[k] == {f} then strs - {k} else strs[k := strs[k] - {f}]
  }

  lemma AgreeAfterUnlink(lim: Limits, flts: map<nat, FltEntry>, strs: map<Pattern, set<nat>>, f: nat)
    requires Agree(lim, flts, strs) && f in flts && flts[f].linked
    ensures PatternOf(flts[f].def) in strs && f in strs[PatternOf(flts[f].def)]
    ensures Agree(lim, flts[f := FltEntry(flts[f].def, false)], UnlinkSub(strs, PatternOf(flts[f].def), f))
    ensures LinkedDefs(flts[f := FltEntry(flts[f].def, false)]) == LinkedDefs(flts) - {f}
  {
    hide CheckDef;
    var k0 := PatternOf(flts[f].def);
    var strs1 := UnlinkSub(strs, k0, f);
    forall k | k in strs1
      ensures exists g :: g in strs1[k]
    {
      var g :| g in strs[k] && (k == k0 ==> g != f);
      assert g in strs1[k];
    }
  }

  class FilterTable {
    const lim: Limits
    var flts: map<nat, FltEntry>                 // flt_root
    var strs: map<Pattern, set<nat>>             // str_root and its sub_roots
    var cntRef: map<nat, Raw>                    // the filters' cnt_ref
    const curSub: array2<Option<nat>>
    const rows: array2<HwRow>                    // hardware filter rows
    const hwCnt: array2<Raw>                     // hardware counters
    ghost var hist: seq<Request>

    ghost predicate Shape() {
      && curSub.Length0 == lim.maxStr && curSub.Length1 == NUM_PCP
      && rows.Length0 == lim.maxStr && rows.Length1 == NUM_PCP
      && hwCnt.Length0 == lim.maxStr && hwCnt.Length1 == NUM_PCP
    }

    ghost predicate TreesAgree()
      reads this`flts, this`strs
    {
      Agree(lim, flts, strs)
    }

    /** A cached effective filter exists and matches the row it is cached for. */
    ghost predicate CacheSane()
      requires Shape()
      reads this`flts, curSub
    {
      forall s, p :: 0 <= s < lim.maxStr && 0 <= p < NUM_PCP && curSub[s, p].Some? ==>
                       curSub[s, p].value in flts && Matches(flts[curSub[s, p].value].def, s, p)
    }

    /** A filter with an exact pattern that is not being deleted: one whose frames are counted. */
    ghost predicate IsCounted(f: nat)
      reads this`flts
    {
      f in flts && flts[f].linked && CheckDef(lim, flts[f].def) && !IsWildcard(flts[f].def)
    }

    /** The amount the driver holds for a counted filter. */
    ghost function View(f: nat): Raw
      requires Shape() && IsCounted(f) && f in cntRef
      reads this`flts, this`cntRef, curSub, hwCnt
    {
      var d := flts[f].def;
      if curSub[d.strHdl, d.pcp] == Some(f) then Flip(hwCnt[d.strHdl, d.pcp], cntRef[f]) else cntRef[f]
    }

    ghost predicate Valid()
      reads this, curSub, rows, hwCnt
    {
      && Shape() && TreesAgree() && CacheSane()
      && (forall f :: f in flts ==> flts[f].linked)
      && cntRef.Keys == flts.Keys
      && LinkedDefs(flts) == After(lim, hist)
      && Synced(After(lim, hist))
      && (forall f :: IsCounted(f) ==> View(f) == Mod32(Counted(lim, hist, f)))
    }

    /** Cache and hardware are what the configured filters ask for, on every row. */
    ghost predicate Synced(fs: Filters)
      requires Shape()
      reads curSub, rows
    {
      forall s, p :: 0 <= s < lim.maxStr && 0 <= p < NUM_PCP ==>
                       curSub[s, p] == Eff(fs, s, p) && rows[s, p] == WantedRow(lim, fs, s, p)
    }

    // ---------------------------------------------------------------- lookups

    ghost function Head(strHdl: int, pcp: int): Option<nat>
      reads this`strs
    {
      if (strHdl, pcp) in strs then Least(strs[(strHdl, pcp)]) else None
    }

    /** The lowest of the heads of the four subtrees that can match a row. */
    ghost function Winner(s: int, p: int): Option<nat>
      reads this`strs
    {
      Lower(Lower(Lower(Head(s, p), Head(WILDCARD, p)), Head(s, WILDCARD)), Head(WILDCARD, WILDCARD))
    }

    /** The four subtree heads are enough: the lowest of them is the effective filter. */
    lemma WinnerIsEffective(s: int, p: int)
      requires TreesAgree() && 0 <= s && 0 <= p
      ensures Winner(s, p) == Eff(LinkedDefs(flts), s, p)
    {
      var fs := LinkedDefs(flts);
      var w := Winner(s, p);
      forall f | f in fs && Matches(fs[f], s, p)
        ensures w.Some? && w.value <= f
      {
        var k := (fs[f].strHdl, fs[f].pcp);
        assert k in strs && f in strs[k];
        var h := Head(k.0, k.1);
        assert h.Some? && h.value <= f;
      }
      if w.Some? {
        var k :| k in {(s, p), (s, WILDCARD), (WILDCARD, p), (WILDCARD, WILDCARD)} && Head(k.0, k.1) == w;
        assert k in strs && w.value in strs[k];
        assert w.value in fs && Matches(fs[w.value], s, p);
      }
    }

    /** The lowest-numbered linked filter with exactly this pattern, none if there is no such filter. */
    ghost predicate IsFirstOf(r: Option<nat>, k: Pattern)
      reads this`flts
    {
      && (r.None? ==> forall f :: f in flts && flts[f].linked ==> PatternOf(flts[f].def) != k)
      && (r.Some? ==>
            && r.value in flts && flts[r.value].linked && PatternOf(flts[r.value].def) == k
            && forall f :: f in flts && flts[f].linked && PatternOf(flts[f].def) == k ==> r.value <= f)
    }

    /** edgx_psfp_flt_first_sub: head of the subtree of one pattern. While the trees agree that is the first
        of all filters with the pattern. */
    method FirstSub(strHdl: int, pcp: int) returns (r: Option<nat>)
      ensures TreesAgree() ==> IsFirstOf(r, (strHdl, pcp))
      ensures r == Head(strHdl, pcp)
    {
      if (strHdl, pcp) in strs {
        r := Least(strs[(strHdl, pcp)]);
      } else {
        r := None;
      }
    }

    /** A linked trigger is the head of the subtree of its own pattern. */
    ghost predicate TriggerHeads(trigger: Option<nat>, strHdl: int, pcp: int)
      reads this`flts, this`strs
    {
      trigger.Some? && trigger.value in flts && flts[trigger.value].linked ==> Head(strHdl, pcp) == trigger
    }

    /** edgx_psfp_flt_get_cand: a trigger that is still linked stands for its own pattern. */
    method GetCand(trigger: Option<nat>, strHdl: int, pcp: int) returns (r: Option<nat>)
      requires TriggerHeads(trigger, strHdl, pcp)
      ensures r == Head(strHdl, pcp)
    {
      if trigger.Some? && trigger.value in flts && flts[trigger.value].linked {
        r := trigger;
      } else {
        r := FirstSub(strHdl, pcp);
      }
    }

    /** edgx_psfp_flt_str_find_eff_sub: lowest-numbered of the candidates. */
    method FindEffSub(cand: seq<Option<nat>>) returns (eff: Option<nat>)
      ensures eff == None <==> forall i :: 0 <= i < |cand| ==> cand[i] == None
      ensures eff.Some? ==> eff in cand
      ensures eff.Some? ==> forall i :: 0 <= i < |cand| && cand[i].Some? ==> eff.value <= cand[i].value
    {
      eff := None;
      for i := 0 to |cand|
        invariant eff == None <==> forall j :: 0 <= j < i ==> cand[j] == None
        invariant eff.Some? ==> eff in cand[..i]
        invariant eff.Some? ==> forall j :: 0 <= j < i && cand[j].Some? ==> eff.value <= cand[j].value
      {
        if cand[i].Some? && (eff == None || eff.value > cand[i].value) {
          eff := cand[i];
        }
      }
    }

    // ---------------------------------------------------------------- refresh of hardware rows

    /** edgx_psfp_flt_update_cnt_ref: the virtual counter trick. */
    method UpdateCntRef(f: nat, cur: Raw)
      requires f in cntRef
      modifies this`cntRef
      ensures cntRef == old(cntRef)[f := Flip(cur, old(cntRef)[f])]
    {
      var ref: seq<int> := cntRef[f];
      var i := 0;
      while i < 4
        modifies {}
        invariant 0 <= i <= 4 && |ref| == 4
        invariant forall j :: 0 <= j < i ==> ref[j] == Sub32(cur[j], cntRef[f][j])
        invariant forall j :: i <= j < 4 ==> ref[j] == cntRef[f][j]
      {
        ref := ref[i := Sub32(cur[i], ref[i])];
        i := i + 1;
      }
      assert ref == Flip(cur, cntRef[f]);
      cntRef := cntRef[f := ref];
    }

    /** edgx_psfp_flt_upd_cnt, as one step with the capture of the hardware counters. */
    method UpdCnt(trigger: Option<nat>, s: nat, p: nat, eff: Option<nat>)
      requires s < curSub.Length0 && p < curSub.Length1 && s < hwCnt.Length0 && p < hwCnt.Length1
      requires cntRef.Keys == flts.Keys
      requires eff.Some? ==> eff.value in flts
      requires curSub[s, p].Some? ==> curSub[s, p].value in flts
      modifies this`cntRef
      ensures cntRef.Keys == flts.Keys
      ensures forall f :: f in flts && Some(f) != eff && Some(f) != curSub[s, p] ==> cntRef[f] == old(cntRef)[f]
      ensures curSub[s, p] == eff ==> cntRef == old(cntRef)
      ensures forall f :: f in flts && !IsWildcard(flts[f].def) && curSub[s, p] != eff
                          && (Some(f) == eff || (Some(f) == curSub[s, p] && trigger == eff)) ==>
                            cntRef[f] == Flip(hwCnt[s, p], old(cntRef)[f])
    {
      var cur := curSub[s, p];
      if eff == cur {
        return;
      }
      var updateEff := eff.Some? && !IsWildcard(flts[eff.value].def);
      var updateCur := cur.Some? && trigger == eff && !IsWildcard(flts[cur.value].def);
      if !updateEff && !updateCur {
        return;
      }
      var cntCur := hwCnt[s, p];
      if updateEff {
        UpdateCntRef(eff.value, cntCur);
      }
      if updateCur {
        UpdateCntRef(cur.value, cntCur);
      }
    }

    /** Why a row's winner changes: the trigger has just taken it, or was erased while holding it. */
    ghost predicate Explains(trigger: Option<nat>, after: Option<nat>, before: Option<nat>)
      reads this`flts
    {
      && trigger.Some?
      && (trigger == after || (trigger == before && trigger.value in flts && !flts[trigger.value].linked))
    }

    ghost function RowFor(e: Option<nat>): HwRow
      reads this`flts
    {
      if e.Some? && e.value in flts then RowOf(lim, flts[e.value].def.data) else DEFAULT_ROW
    }

    /** edgx_psfp_flt_upd_hw_iter: write one hardware row and move the cache to the new winner. */
    method UpdHwIter(trigger: Option<nat>, eff: Option<nat>, s: nat, p: nat)
      requires Shape() && CacheSane() && cntRef.Keys == flts.Keys && s < lim.maxStr && p < NUM_PCP
      requires eff.Some? ==> eff.value in flts && Matches(flts[eff.value].def, s, p)
      requires curSub[s, p] != eff ==> Explains(trigger, eff, curSub[s, p])
      modifies this`cntRef, curSub, rows
      ensures CacheSane() && cntRef.Keys == flts.Keys
      ensures curSub[s, p] == eff && rows[s, p] == RowFor(eff)
      ensures forall s', p' :: 0 <= s' < lim.maxStr && 0 <= p' < NUM_PCP && (s', p') != (s, p) ==>
                                 curSub[s', p'] == old(curSub[s', p']) && rows[s', p'] == old(rows[s', p'])
      ensures forall f :: IsCounted(f) ==> View(f) == old(View(f))
    {
      ghost var refs := cntRef;
      rows[s, p] := if eff.Some? then RowOf(lim, flts[eff.value].def.data) else DEFAULT_ROW;
      if trigger.Some? {
        UpdCnt(trigger, s, p, eff);
      }
      curSub[s, p] := eff;
      forall f | IsCounted(f)
        ensures View(f) == old(View(f))
      {
        FlipTwice(hwCnt[flts[f].def.strHdl, flts[f].def.pcp], refs[f]);
      }
    }

    ghost predicate WinnersMatch()
      reads this`flts, this`strs
    {
      forall s, p :: 0 <= s < lim.maxStr && 0 <= p < NUM_PCP && Winner(s, p).Some? ==>
                       Winner(s, p).value in flts && Matches(flts[Winner(s, p).value].def, s, p)
    }

    /** Every row in the rectangle that is stale is stale because of the trigger. */
    ghost predicate StaleByTrigger(trigger: Option<nat>, strHdl: int, pcp: int)
      requires Shape()
      reads this`flts, this`strs, curSub
    {
      forall s, p :: 0 <= s < lim.maxStr && 0 <= p < NUM_PCP && Covers(strHdl, pcp, s, p) && curSub[s, p] != Winner(s, p) ==>
                       Explains(trigger, Winner(s, p), curSub[s, p])
    }

    ghost predicate Fresh(s: int, p: int)
      requires Shape() && 0 <= s < lim.maxStr && 0 <= p < NUM_PCP
      reads this`flts, this`strs, curSub, rows
    {
      curSub[s, p] == Winner(s, p) && rows[s, p] == RowFor(Winner(s, p))
    }

    /** _edgx_psfp_flt_for_each_one: pick the winner among the candidates and refresh one row. */
    method RefreshRow(trigger: Option<nat>, cand: seq<Option<nat>>, s: nat, p: nat)
      requires Shape() && WinnersMatch() && CacheSane() && cntRef.Keys == flts.Keys && s < lim.maxStr && p < NUM_PCP
      requires cand == [Head(s, p), Head(WILDCARD, p), Head(s, WILDCARD), Head(WILDCARD, WILDCARD)]
      requires curSub[s, p] != Winner(s, p) ==> Explains(trigger, Winner(s, p), curSub[s, p])
      modifies this`cntRef, curSub, rows
      ensures CacheSane() && cntRef.Keys == flts.Keys
      ensures Fresh(s, p)
      ensures forall s', p' :: 0 <= s' < lim.maxStr && 0 <= p' < NUM_PCP && (s', p') != (s, p) ==>
                                 curSub[s', p'] == old(curSub[s', p']) && rows[s', p'] == old(rows[s', p'])
      ensures forall f :: IsCounted(f) ==> View(f) == old(View(f))
    {
      var eff := FindEffSub(cand);
      assert eff == Winner(s, p) by {
        assert cand[0] == Head(s, p) && cand[1] == Head(WILDCARD, p) && cand[2] == Head(s, WILDCARD) && cand[3] == Head(WILDCARD, WILDCARD);
      }
      UpdHwIter(trigger, eff, s, p);
    }

    /** edgx_psfp_flt_for_each_one */
    method ForEachOne(trigger: Option<nat>, strHdl: nat, pcp: nat)
      requires Shape() && WinnersMatch() && CacheSane() && cntRef.Keys == flts.Keys && strHdl < lim.maxStr && pcp < NUM_PCP
      requires TriggerHeads(trigger, strHdl, pcp) && StaleByTrigger(trigger, strHdl, pcp)
      modifies this`cntRef, curSub, rows
      ensures CacheSane() && cntRef.Keys == flts.Keys
      ensures Fresh(strHdl, pcp)
      ensures forall s, p :: 0 <= s < lim.maxStr && 0 <= p < NUM_PCP && !Covers(strHdl, pcp, s, p) ==>
                               curSub[s, p] == old(curSub[s, p]) && rows[s, p] == old(rows[s, p])
      ensures forall f :: IsCounted(f) ==> View(f) == old(View(f))
    {
      var c0 := GetCand(trigger, strHdl, pcp);
      var c1 := FirstSub(strHdl, WILDCARD);
      var c2 := FirstSub(WILDCARD, pcp);
      var c3 := FirstSub(WILDCARD, WILDCARD);
      RefreshRow(trigger, [c0, c2, c1, c3], strHdl, pcp);
    }

    /** One PCP of the loop over all PCPs of a stream. */
    method RefreshPcp(trigger: Option<nat>, wcPcp: Option<nat>, wc: Option<nat>, s: nat, p: nat)
      requires Shape() && WinnersMatch() && CacheSane() && cntRef.Keys == flts.Keys && s < lim.maxStr && p < NUM_PCP
      requires wcPcp == Head(s, WILDCARD) && wc == Head(WILDCARD, WILDCARD)
      requires curSub[s, p] != Winner(s, p) ==> Explains(trigger, Winner(s, p), curSub[s, p])
      modifies this`cntRef, curSub, rows
      ensures CacheSane() && cntRef.Keys == flts.Keys
      ensures Fresh(s, p)
      ensures forall s', p' :: 0 <= s' < lim.maxStr && 0 <= p' < NUM_PCP && (s', p') != (s, p) ==>
                                 curSub[s', p'] == old(curSub[s', p']) && rows[s', p'] == old(rows[s', p'])
      ensures forall f :: IsCounted(f) ==> View(f) == old(View(f))
    {
      hide Winner, Head, WinnersMatch, RowFor, View, CacheSane, Explains, CheckDef, IsWildcard, IsFirstOf, TreesAgree;
      var c0 := FirstSub(s, p);
      var c1 := FirstSub(WILDCARD, p);
      RefreshRow(trigger, [c0, c1, wcPcp, wc], s, p);
    }

    /** edgx_psfp_flt_for_each_wc_pcp: one stream, every PCP. */
    method ForEachWcPcp(trigger: Option<nat>, strHdl: nat)
      requires Shape() && WinnersMatch() && CacheSane() && cntRef.Keys == flts.Keys && strHdl < lim.maxStr
      requires TriggerHeads(trigger, strHdl, WILDCARD) && StaleByTrigger(trigger, strHdl, WILDCARD)
      modifies this`cntRef, curSub, rows
      ensures CacheSane() && cntRef.Keys == flts.Keys
      ensures forall p :: 0 <= p < NUM_PCP ==> Fresh(strHdl, p)
      ensures forall s, p :: 0 <= s < lim.maxStr && 0 <= p < NUM_PCP && s != strHdl ==>
                               curSub[s, p] == old(curSub[s, p]) && rows[s, p] == old(rows[s, p])
      ensures forall f :: IsCounted(f) ==> View(f) == old(View(f))
    {
      hide Winner, Head, WinnersMatch, RowFor, View, CacheSane, TriggerHeads, Explains, CheckDef, IsWildcard, IsFirstOf, TreesAgree;
      var wcPcp := GetCand(trigger, strHdl, WILDCARD);
      var wc := FirstSub(WILDCARD, WILDCARD);
      for pcp := 0 to NUM_PCP
        invariant CacheSane() && cntRef.Keys == flts.Keys
        invariant forall p :: 0 <= p < pcp ==> curSub[strHdl, p] == Winner(strHdl, p) && rows[strHdl, p] == RowFor(Winner(strHdl, p))
        invariant forall s, p :: 0 <= s < lim.maxStr && 0 <= p < NUM_PCP && (s != strHdl || p >= pcp) ==>
                                   curSub[s, p] == old(curSub[s, p]) && rows[s, p] == old(rows[s, p])
        invariant forall f :: IsCounted(f) ==> View(f) == old(View(f))
      {
        RefreshPcp(trigger, wcPcp, wc, strHdl, pcp);
      }
    }

    /** One stream of the loop over all streams for a PCP. */
    method RefreshStr(trigger: Option<nat>, wcStr: Option<nat>, wc: Option<nat>, s: nat, p: nat)
      requires Shape() && WinnersMatch() && CacheSane() && cntRef.Keys == flts.Keys && s < lim.maxStr && p < NUM_PCP
      requires wcStr == Head(WILDCARD, p) && wc == Head(WILDCARD, WILDCARD)
      requires curSub[s, p] != Winner(s, p) ==> Explains(trigger, Winner(s, p), curSub[s, p])
      modifies this`cntRef, curSub, rows
      ensures CacheSane() && cntRef.Keys == flts.Keys
      ensures Fresh(s, p)
      ensures forall s', p' :: 0 <= s' < lim.maxStr && 0 <= p' < NUM_PCP && (s', p') != (s, p) ==>
                                 curSub[s', p'] == old(curSub[s', p']) && rows[s', p'] == old(rows[s', p'])
      ensures forall f :: IsCounted(f) ==> View(f) == old(View(f))
    {
      hide Winner, Head, WinnersMatch, RowFor, View, CacheSane, Explains, CheckDef, IsWildcard, IsFirstOf, TreesAgree;
      var c0 := FirstSub(s, p);
      var c1 := FirstSub(s, WILDCARD);
      RefreshRow(trigger, [c0, wcStr, c1, wc], s, p);
    }

    /** edgx_psfp_flt_for_each_wc_str_hdl: one PCP, every stream. */
    method ForEachWcStrHdl(trigger: Option<nat>, pcp: nat)
      requires Shape() && WinnersMatch() && CacheSane() && cntRef.Keys == flts.Keys && pcp < NUM_PCP
      requires TriggerHeads(trigger, WILDCARD, pcp) && StaleByTrigger(trigger, WILDCARD, pcp)
      modifies this`cntRef, curSub, rows
      ensures CacheSane() && cntRef.Keys == flts.Keys
      ensures forall s :: 0 <= s < lim.maxStr ==> Fresh(s, pcp)
      ensures forall s, p :: 0 <= s < lim.maxStr && 0 <= p < NUM_PCP && p != pcp ==>
                               curSub[s, p] == old(curSub[s, p]) && rows[s, p] == old(rows[s, p])
      ensures forall f :: IsCounted(f) ==> View(f) == old(View(f))
    {
      hide Winner, Head, WinnersMatch, RowFor, View, CacheSane, TriggerHeads, Explains, CheckDef, IsWildcard, IsFirstOf, TreesAgree;
      var wcStr := GetCand(trigger, WILDCARD, pcp);
      var wc := FirstSub(WILDCARD, WILDCARD);
      for strHdl := 0 to lim.maxStr
        invariant CacheSane() && cntRef.Keys == flts.Keys
        invariant forall s :: 0 <= s < strHdl ==> curSub[s, pcp] == Winner(s, pcp) && rows[s, pcp] == RowFor(Winner(s, pcp))
        invariant forall s, p :: 0 <= s < lim.maxStr && 0 <= p < NUM_PCP && (p != pcp || s >= strHdl) ==>
                                   curSub[s, p] == old(curSub[s, p]) && rows[s, p] == old(rows[s, p])
        invariant forall f :: IsCounted(f) ==> View(f) == old(View(f))
      {
        RefreshStr(trigger, wcStr, wc, strHdl, pcp);
      }
    }

    /** edgx_psfp_flt_for_each_wc: every stream and every PCP. The driver reads the heads of the
        (any stream, PCP) subtrees once, before the loops. */
    method ForEachWc(trigger: Option<nat>)
      requires Shape() && WinnersMatch() && CacheSane() && cntRef.Keys == flts.Keys
      requires TriggerHeads(trigger, WILDCARD, WILDCARD) && StaleByTrigger(trigger, WILDCARD, WILDCARD)
      modifies this`cntRef, curSub, rows
      ensures CacheSane() && cntRef.Keys == flts.Keys
      ensures forall s, p :: 0 <= s < lim.maxStr && 0 <= p < NUM_PCP ==> Fresh(s, p)
      ensures forall f :: IsCounted(f) ==> View(f) == old(View(f))
    {
      hide Winner, Head, WinnersMatch, RowFor, View, CacheSane, TriggerHeads, Explains, CheckDef, IsWildcard, IsFirstOf, TreesAgree;
      var wc := GetCand(trigger, WILDCARD, WILDCARD);
      var wcStr: seq<Option<nat>> := [];
      for pcp := 0 to NUM_PCP
        modifies {}
        invariant |wcStr| == pcp && forall p :: 0 <= p < pcp ==> wcStr[p] == Head(WILDCARD, p)
      {
        var c := FirstSub(WILDCARD, pcp);
        wcStr := wcStr + [c];
      }
      for strHdl := 0 to lim.maxStr
        invariant CacheSane() && cntRef.Keys == flts.Keys
        invariant forall s, p :: 0 <= s < strHdl && 0 <= p < NUM_PCP ==> curSub[s, p] == Winner(s, p) && rows[s, p] == RowFor(Winner(s, p))
        invariant forall s, p :: strHdl <= s < lim.maxStr && 0 <= p < NUM_PCP ==> curSub[s, p] == old(curSub[s, p])
        invariant forall f :: IsCounted(f) ==> View(f) == old(View(f))
      {
        var wcPcp := FirstSub(strHdl, WILDCARD);
        RefreshStream(trigger, strHdl, wcStr, wcPcp, wc);
      }
    }

    /** The inner loop of edgx_psfp_flt_for_each_wc. */
    method RefreshStream(trigger: Option<nat>, strHdl: nat, wcStr: seq<Option<nat>>, wcPcp: Option<nat>, wc: Option<nat>)
      requires Shape() && WinnersMatch() && CacheSane() && cntRef.Keys == flts.Keys && strHdl < lim.maxStr
      requires |wcStr| == NUM_PCP && forall p :: 0 <= p < NUM_PCP ==> wcStr[p] == Head(WILDCARD, p)
      requires wcPcp == Head(strHdl, WILDCARD) && wc == Head(WILDCARD, WILDCARD)
      requires forall p :: 0 <= p < NUM_PCP && curSub[strHdl, p] != Winner(strHdl, p) ==>
                             Explains(trigger, Winner(strHdl, p), curSub[strHdl, p])
      modifies this`cntRef, curSub, rows
      ensures CacheSane() && cntRef.Keys == flts.Keys
      ensures forall p :: 0 <= p < NUM_PCP ==> curSub[strHdl, p] == Winner(strHdl, p) && rows[strHdl, p] == RowFor(Winner(strHdl, p))
      ensures forall s, p :: 0 <= s < lim.maxStr && 0 <= p < NUM_PCP && s != strHdl ==>
                               curSub[s, p] == old(curSub[s, p]) && rows[s, p] == old(rows[s, p])
      ensures forall f :: IsCounted(f) ==> View(f) == old(View(f))
    {
      hide Winner, Head, WinnersMatch, RowFor, View, CacheSane, Explains, CheckDef, IsWildcard;
      for pcp := 0 to NUM_PCP
        invariant CacheSane() && cntRef.Keys == flts.Keys
        invariant forall p :: 0 <= p < pcp ==> curSub[strHdl, p] == Winner(strHdl, p) && rows[strHdl, p] == RowFor(Winner(strHdl, p))
        invariant forall s, p :: 0 <= s < lim.maxStr && 0 <= p < NUM_PCP && (s != strHdl || p >= pcp) ==>
                                   curSub[s, p] == old(curSub[s, p]) && rows[s, p] == old(rows[s, p])
        invariant forall f :: IsCounted(f) ==> View(f) == old(View(f))
      {
        var c0 := FirstSub(strHdl, pcp);
        RefreshRow(trigger, [c0, wcStr[pcp], wcPcp, wc], strHdl, pcp);
      }
    }

    /** edgx_psfp_flt_upd_hw: refresh the rows under the trigger's pattern, and no others. */
    method UpdHw(trigger: Option<nat>, strHdl: int, pcp: int)
      requires Shape() && TreesAgree() && CacheSane() && cntRef.Keys == flts.Keys
      requires strHdl == WILDCARD || 0 <= strHdl < lim.maxStr
      requires pcp == WILDCARD || 0 <= pcp < NUM_PCP
      requires TriggerHeads(trigger, strHdl, pcp) && StaleByTrigger(trigger, strHdl, pcp)
      modifies this`cntRef, curSub, rows
      ensures CacheSane() && cntRef.Keys == flts.Keys
      ensures forall s, p :: 0 <= s < lim.maxStr && 0 <= p < NUM_PCP && Covers(strHdl, pcp, s, p) ==> Fresh(s, p)
      ensures forall s, p :: 0 <= s < lim.maxStr && 0 <= p < NUM_PCP && !Covers(strHdl, pcp, s, p) ==>
                               curSub[s, p] == old(curSub[s, p]) && rows[s, p] == old(rows[s, p])
      ensures forall f :: IsCounted(f) ==> View(f) == old(View(f))
    {
      forall s, p | 0 <= s < lim.maxStr && 0 <= p < NUM_PCP && Winner(s, p).Some?
        ensures Winner(s, p).value in flts && Matches(flts[Winner(s, p).value].def, s, p)
      {
        WinnerIsEffective(s, p);
      }
      if strHdl == WILDCARD && pcp == WILDCARD {
        ForEachWc(trigger);
      } else if strHdl != WILDCARD && pcp == WILDCARD {
        ForEachWcPcp(trigger, strHdl);
      } else if strHdl == WILDCARD && pcp != WILDCARD {
        ForEachWcStrHdl(trigger, pcp);
      } else {
        ForEachOne(trigger, strHdl, pcp);
      }
    }

    // ---------------------------------------------------------------- user requests

    /** edgx_psfp_flt_init: every row gets the default, whatever rows and counters the hardware starts with. */
    constructor (lim: Limits, rows0: (nat, nat) -> HwRow, cnt0: (nat, nat) -> Raw)
      ensures Valid() && hist == [] && this.lim == lim && fresh(curSub) && fresh(rows) && fresh(hwCnt)
    {
      this.lim := lim;
      flts, strs, cntRef, hist := map[], map[], map[], [];
      curSub := new Option<nat>[lim.maxStr, NUM_PCP]((s, p) => None);
      rows := new HwRow[lim.maxStr, NUM_PCP](rows0);
      hwCnt := new Raw[lim.maxStr, NUM_PCP](cnt0);
      new;
      UpdHw(None, WILDCARD, WILDCARD);
    }

    /** What the table looks like right after a filter has entered its subtree: rows it now wins
        are stale, and if it is not the head of its subtree there are none. */
    lemma AddStale(fs: Filters, f: nat, d: FltDef)
      requires Shape() && TreesAgree() && f !in fs && CheckDef(lim, d)
      requires LinkedDefs(flts) == fs[f := d]
      requires Synced(fs)
      ensures StaleByTrigger(Some(f), d.strHdl, d.pcp)
      ensures forall s, p :: 0 <= s < lim.maxStr && 0 <= p < NUM_PCP
                             && (!Covers(d.strHdl, d.pcp, s, p) || Head(d.strHdl, d.pcp) != Some(f)) ==>
                               Eff(fs[f := d], s, p) == Eff(fs, s, p)
    {
      hide Agree;
      assert f in LinkedDefs(flts) && LinkedDefs(flts)[f] == d;
      forall s, p | 0 <= s < lim.maxStr && 0 <= p < NUM_PCP
        ensures Winner(s, p) != curSub[s, p] ==> Winner(s, p) == Some(f)
        ensures (!Covers(d.strHdl, d.pcp, s, p) || Head(d.strHdl, d.pcp) != Some(f)) ==> Eff(fs[f := d], s, p) == Eff(fs, s, p)
      {
        WinnerIsEffective(s, p);
        EffAfterAdd(fs, f, d, s, p);
        if Covers(d.strHdl, d.pcp, s, p) && Head(d.strHdl, d.pcp) != Some(f) {
          HeadUndercuts(f, s, p);
          var h := Head(d.strHdl, d.pcp).value;
          assert h in fs && fs[h] == LinkedDefs(flts)[h];
        }
      }
    }

    /** A filter that is not the head of its subtree is undercut by the head on every row. */
    lemma HeadUndercuts(f: nat, s: int, p: int)
      requires TreesAgree() && f in flts && flts[f].linked && Matches(flts[f].def, s, p)
      requires Head(flts[f].def.strHdl, flts[f].def.pcp) != Some(f)
      ensures Head(flts[f].def.strHdl, flts[f].def.pcp).Some?
      ensures var h := Head(flts[f].def.strHdl, flts[f].def.pcp).value;
              h < f && h in LinkedDefs(flts) && Matches(LinkedDefs(flts)[h], s, p)
    {
    }

    /** After the refresh: rows that were rewritten or whose winner did not change add up to all rows. */
    lemma AllSynced(fs: Filters)
      requires Shape() && TreesAgree()
      requires forall s, p :: 0 <= s < lim.maxStr && 0 <= p < NUM_PCP ==>
                                Fresh(s, p) || (Eff(fs, s, p) == Eff(LinkedDefs(flts), s, p) && curSub[s, p] == Eff(fs, s, p)
                                                && rows[s, p] == WantedRow(lim, fs, s, p))
      requires forall f :: f in fs && f in LinkedDefs(flts) ==> fs[f] == LinkedDefs(flts)[f]
      ensures Synced(LinkedDefs(flts))
    {
      hide Agree, Winner;
      forall s, p | 0 <= s < lim.maxStr && 0 <= p < NUM_PCP
        ensures curSub[s, p] == Eff(LinkedDefs(flts), s, p) && rows[s, p] == WantedRow(lim, LinkedDefs(flts), s, p)
      {
        WinnerIsEffective(s, p);
      }
    }

    /** The insertions of _edgx_psfp_flt_add: the new filter enters the trees with a zero reference. */
    method Link(filter: nat, def: FltDef, ghost fs: Filters)
      requires Shape() && TreesAgree() && CacheSane() && cntRef.Keys == flts.Keys
      requires filter !in flts && CheckDef(lim, def) && LinkedDefs(flts) == fs
      modifies this`flts, this`strs, this`cntRef
      ensures TreesAgree() && CacheSane() && cntRef.Keys == flts.Keys
      ensures flts == old(flts)[filter := FltEntry(def, true)]
      ensures LinkedDefs(flts) == fs[filter := def]
      ensures IsCounted(filter) ==> View(filter) == [0, 0, 0, 0]
      ensures forall f :: f != filter && IsCounted(f) ==> old(IsCounted(f)) && View(f) == old(View(f))
    {
      hide Agree, LinkedDefs;
      AgreeAfterLink(lim, flts, strs, filter, def);
      flts := flts[filter := FltEntry(def, true)];
      strs := LinkSub(strs, PatternOf(def), filter);
      cntRef := cntRef[filter := [0, 0, 0, 0]];
    }

    /** _edgx_psfp_flt_add, once the allocations have succeeded: only a new head refreshes hardware. */
    method Insert(filter: nat, def: FltDef, ghost fs: Filters)
      requires Shape() && TreesAgree() && CacheSane() && cntRef.Keys == flts.Keys
      requires filter !in flts && filter !in fs && CheckDef(lim, def) && LinkedDefs(flts) == fs && Synced(fs)
      modifies this`flts, this`strs, this`cntRef, curSub, rows
      ensures TreesAgree() && CacheSane() && cntRef.Keys == flts.Keys
      ensures flts == old(flts)[filter := FltEntry(def, true)]
      ensures LinkedDefs(flts) == fs[filter := def] && Synced(fs[filter := def])
      ensures IsCounted(filter) ==> View(filter) == [0, 0, 0, 0]
      ensures forall f :: f != filter && IsCounted(f) ==> old(IsCounted(f)) && View(f) == old(View(f))
    {
      hide Agree, LinkedDefs, Eff, WantedRow, Winner, Head, View, IsCounted, CacheSane, StaleByTrigger, RowFor, Fresh,
           TriggerHeads, Covers;
      Link(filter, def, fs);
      AddStale(fs, filter, def);
      var first := FirstSub(def.strHdl, def.pcp);
      if first == Some(filter) {
        HeadsItself(filter, def.strHdl, def.pcp);
        UpdHw(Some(filter), def.strHdl, def.pcp);
      }
      AllSynced(fs);
    }

    lemma HeadsItself(f: nat, strHdl: int, pcp: int)
      requires Head(strHdl, pcp) == Some(f)
      ensures TriggerHeads(Some(f), strHdl, pcp)
    {
    }

    /** A request that changes nothing is still part of the history. */
    ghost method Note(r: Request)
      requires Valid() && !r.Traffic? && Configure(lim, After(lim, hist), r) == After(lim, hist)
      requires r.Add? ==> !Accepts(lim, After(lim, hist), r)
      modifies this`hist
      ensures Valid() && hist == old(hist) + [r]
    {
      hide Agree, Synced, CacheSane, Configure, View;
      AfterOne(lim, hist, r);
      forall f {
        CountedOne(lim, hist, r, f);
      }
      hist := hist + [r];
    }

    /** flt_tbl_write. `mem` tells whether the allocations succeed. */
    method Add(filter: nat, def: FltDef, mem: bool) returns (st: Status)
      requires Valid()
      modifies this`flts, this`strs, this`cntRef, this`hist, curSub, rows
      ensures Valid() && hist == old(hist) + [PsfpSpec.Add(filter, def, mem)]
      ensures st == if filter >= MAX_NO_FILTERS || !CheckDef(lim, def) then EInval
                    else if filter in After(lim, old(hist)) then EExist
                    else if !mem then ENoMem else Ok
    {
      hide Agree, CacheSane, View, Synced, After, Counted, CheckDef;
      ghost var r, fs := PsfpSpec.Add(filter, def, mem), After(lim, hist);
      assert filter in flts <==> filter in fs by {
        assert filter in flts <==> filter in LinkedDefs(flts);
      }
      if filter >= MAX_NO_FILTERS || !CheckDef(lim, def) {
        Note(r);
        return EInval;
      }
      if filter in flts {
        Note(r);
        return EExist;
      }
      if !mem {
        Note(r);
        return ENoMem;
      }
      Insert(filter, def, fs);
      AfterOne(lim, hist, r);
      forall f {
        CountedOne(lim, hist, r, f);
      }
      hist := hist + [r];
      st := Ok;
    }

    /** Right after a filter has left its subtree: rows it was effective on are stale, and if it was
        not the head of its subtree there are none. */
    lemma DeleteStale(fs: Filters, f: nat, k: Pattern, wasFirst: bool)
      requires Shape() && TreesAgree() && f in flts && !flts[f].linked && k == PatternOf(flts[f].def)
      requires f in fs && fs[f] == flts[f].def && LinkedDefs(flts) == fs - {f}
      requires !wasFirst ==> Head(k.0, k.1).Some? && Head(k.0, k.1).value < f
      requires Synced(fs)
      ensures StaleByTrigger(Some(f), k.0, k.1)
      ensures forall s, p :: 0 <= s < lim.maxStr && 0 <= p < NUM_PCP && (!Covers(k.0, k.1, s, p) || !wasFirst) ==>
                               Eff(fs - {f}, s, p) == Eff(fs, s, p)
    {
      hide Agree, Head;
      forall s, p | 0 <= s < lim.maxStr && 0 <= p < NUM_PCP
        ensures Winner(s, p) != curSub[s, p] ==> curSub[s, p] == Some(f)
        ensures !Covers(k.0, k.1, s, p) || !wasFirst ==> Eff(fs - {f}, s, p) == Eff(fs, s, p)
      {
        WinnerIsEffective(s, p);
        if !wasFirst && Covers(k.0, k.1, s, p) {
          HeadMatches(k, s, p);
          var h := Head(k.0, k.1).value;
          assert h in fs && fs[h] == LinkedDefs(flts)[h];
        }
        if Eff(fs, s, p) != Some(f) {
          EffAfterDelete(fs, f, s, p);
        }
      }
    }

    lemma HeadMatches(k: Pattern, s: int, p: int)
      requires TreesAgree() && Head(k.0, k.1).Some? && Covers(k.0, k.1, s, p)
      ensures var h := Head(k.0, k.1).value; h in LinkedDefs(flts) && Matches(LinkedDefs(flts)[h], s, p)
    {
    }

    /** The erasure of a filter from its subtree at the start of flt_del_store. */
    method Unlink(filter: nat, ghost fs: Filters) returns (wasFirst: bool)
      requires Shape() && TreesAgree() && CacheSane() && cntRef.Keys == flts.Keys
      requires filter in flts && flts[filter].linked && LinkedDefs(flts) == fs
      modifies this`flts, this`strs
      ensures TreesAgree() && CacheSane() && cntRef.Keys == flts.Keys
      ensures flts == old(flts)[filter := FltEntry(old(flts)[filter].def, false)]
      ensures LinkedDefs(flts) == fs - {filter}
      ensures var k := PatternOf(flts[filter].def);
              wasFirst <==> !(Head(k.0, k.1).Some? && Head(k.0, k.1).value < filter)
      ensures forall f :: IsCounted(f) ==> f != filter && old(IsCounted(f)) && View(f) == old(View(f))
    {
      hide Agree, LinkedDefs;
      AgreeAfterUnlink(lim, flts, strs, filter);
      var k := PatternOf(flts[filter].def);
      var first := FirstSub(k.0, k.1);
      wasFirst := first == Some(filter);
      LeastWithout(strs[k], filter);
      flts := flts[filter := FltEntry(flts[filter].def, false)];
      strs := UnlinkSub(strs, k, filter);
    }

    /** flt_del_store: only the head of a subtree refreshes hardware when it goes. */
    method Erase(filter: nat, ghost fs: Filters)
      requires Shape() && TreesAgree() && CacheSane() && cntRef.Keys == flts.Keys
      requires filter in flts && flts[filter].linked && LinkedDefs(flts) == fs && Synced(fs)
      modifies this`flts, this`strs, this`cntRef, curSub, rows
      ensures TreesAgree() && CacheSane() && cntRef.Keys == flts.Keys
      ensures flts == old(flts) - {filter}
      ensures LinkedDefs(flts) == fs - {filter} && Synced(fs - {filter})
      ensures forall f :: IsCounted(f) ==> old(IsCounted(f)) && View(f) == old(View(f))
    {
      hide Agree, Eff, WantedRow, Winner, Head, CacheSane, StaleByTrigger, RowFor, Fresh, Covers;
      assert filter in fs && fs[filter] == flts[filter].def by {
        assert filter in LinkedDefs(flts);
      }
      CheckedPattern(filter);
      var k := PatternOf(flts[filter].def);
      var wasFirst := Unlink(filter, fs);
      DeleteStale(fs, filter, k, wasFirst);
      if wasFirst {
        UpdHw(Some(filter), k.0, k.1);
      }
      AllSynced(fs);
      Forget(filter, fs - {filter});
    }

    lemma CheckedPattern(f: nat)
      requires TreesAgree() && f in flts
      ensures CheckDef(lim, flts[f].def)
    {
    }

    /** The last two lines of flt_del_store: the filter itself is freed. Nothing refers to it any more. */
    method Forget(filter: nat, ghost gs: Filters)
      requires Shape() && TreesAgree() && CacheSane() && cntRef.Keys == flts.Keys
      requires filter in flts && !flts[filter].linked && LinkedDefs(flts) == gs && Synced(gs)
      modifies this`flts, this`cntRef
      ensures TreesAgree() && CacheSane() && cntRef.Keys == flts.Keys
      ensures flts == old(flts) - {filter}
      ensures LinkedDefs(flts) == gs
      ensures forall f :: IsCounted(f) ==> old(IsCounted(f)) && View(f) == old(View(f))
    {
      hide WantedRow, Eff, CheckDef, IsWildcard;
      assert forall f :: f in gs ==> f in flts && f != filter;
      flts := flts - {filter};
      cntRef := cntRef - {filter};
      assert LinkedDefs(flts) == gs;
    }

    method Delete(filter: nat) returns (st: Status)
      requires Valid()
      modifies this`flts, this`strs, this`cntRef, this`hist, curSub, rows
      ensures Valid() && hist == old(hist) + [PsfpSpec.Delete(filter)]
      ensures st == if filter in After(lim, old(hist)) then Ok else ENoEnt
    {
      hide Agree, CacheSane, View, Synced, After, Counted, CheckDef;
      ghost var r, fs := PsfpSpec.Delete(filter), After(lim, hist);
      assert filter in flts <==> filter in fs by {
        assert filter in flts <==> filter in LinkedDefs(flts);
      }
      if filter !in flts {
        Note(r);
        return ENoEnt;
      }
      Erase(filter, fs);
      AfterOne(lim, hist, r);
      forall f {
        CountedOne(lim, hist, r, f);
      }
      hist := hist + [r];
      st := Ok;
    }

    /** The hardware counts a batch of frames on one row. */
    method Traffic(s: nat, p: nat, incs: Incs)
      requires Valid() && s < lim.maxStr && p < NUM_PCP
      modifies this`hist, hwCnt
      ensures Valid() && hist == old(hist) + [PsfpSpec.Traffic(s, p, incs)]
    {
      hide Agree, CacheSane, WantedRow, After, Counted;
      ghost var r, hw, fs, before := PsfpSpec.Traffic(s, p, incs), hwCnt[s, p], After(lim, hist), hist;
      hwCnt[s, p] := Bump(hwCnt[s, p], incs);
      AfterOne(lim, hist, r);
      hist := hist + [r];
      forall f | IsCounted(f)
        ensures View(f) == Mod32(Counted(lim, hist, f))
      {
        CountedOne(lim, before, r, f);
        var d := flts[f].def;
        assert f in LinkedDefs(flts);
        if (d.strHdl, d.pcp) == (s, p) && curSub[s, p] == Some(f) {
          BumpActive(hw, cntRef[f], incs, Counted(lim, before, f));
        }
      }
    }

    method Handle(r: Request)
      requires Valid()
      requires r.Traffic? ==> r.s < lim.maxStr && r.p < NUM_PCP
      modifies this`flts, this`strs, this`cntRef, this`hist, curSub, rows, hwCnt
      ensures Valid() && hist == old(hist) + [r]
    {
      hide Valid;
      match r {
        case Add(filter, def, mem) =>
          var _ := Add(filter, def, mem);
        case Delete(filter) =>
          var _ := Delete(filter);
        case Traffic(s, p, incs) =>
          Traffic(s, p, incs);
      }
    }

    /** flt_str_cnt_read with edgx_psfp_flt_get_cnt. */
    method GetCnt(filter: nat, t: CntType) returns (st: Status, cnt: u32)
      requires Valid()
      ensures st == if filter >= MAX_NO_FILTERS || filter >= lim.maxStr * NUM_PCP then EInval
                    else if filter !in After(lim, hist) then ENoEnt else Ok
      ensures st == Ok ==> cnt == if IsWildcard(After(lim, hist)[filter]) then 0
                                  else Amount(Counted(lim, hist, filter), t) % TWO32
    {
      hide CacheSane, WantedRow, After, Counted;
      cnt := 0;
      if filter >= MAX_NO_FILTERS || filter >= lim.maxStr * NUM_PCP {
        return EInval, 0;
      }
      assert filter in flts <==> filter in LinkedDefs(flts);
      if filter !in flts {
        return ENoEnt, 0;
      }
      var d := flts[filter].def;
      if IsWildcard(d) {
        return Ok, 0;
      }
      assert IsCounted(filter);
      st := Ok;
      if curSub[d.strHdl, d.pcp] != Some(filter) {
        FlipZero(cntRef[filter]);
        UserCntIsAmount(cntRef[filter], [0, 0, 0, 0], Counted(lim, hist, filter), t);
        cnt := GetUserCnt(cntRef[filter], [0, 0, 0, 0], t);
      } else {
        UserCntIsAmount(hwCnt[d.strHdl, d.pcp], cntRef[filter], Counted(lim, hist, filter), t);
        cnt := GetUserCnt(hwCnt[d.strHdl, d.pcp], cntRef[filter], t);
      }
    }

    /** flt_tbl_read: the filter as it was written, except that an exact filter reports the oversize-block
        bit of its hardware row. */
    method ReadFilter(filter: nat) returns (st: Status, def: FltDef)
      requires Valid()
      ensures st == if filter >= MAX_NO_FILTERS then EInval else if filter !in After(lim, hist) then ENoEnt else Ok
      ensures st == Ok ==> def == ReadBack(After(lim, hist), filter)
    {
      hide CacheSane, After, Counted, CheckDef;
      def := FltDef(0, 0, FltData(0, 0, 0, false, false));
      if filter >= MAX_NO_FILTERS {
        return EInval, def;
      }
      assert filter in flts <==> filter in LinkedDefs(flts);
      if filter !in flts {
        return ENoEnt, def;
      }
      def := flts[filter].def;
      if !IsWildcard(def) {
        ExactRow(lim, def, filter);
        var row := ReadRow(lim, rows[def.strHdl, def.pcp]);
        def := def.(data := def.data.(blkOversz := row.blkOversz));
      }
      st := Ok;
    }

    lemma ExactRow(l: Limits, d: FltDef, filter: nat)
      requires TreesAgree() && l == lim && filter in flts && flts[filter].def == d && !IsWildcard(d)
      ensures 0 <= d.strHdl < l.maxStr && 0 <= d.pcp < NUM_PCP
    {
    }
  }

  // ---------------------------------------------------------------- whole runs

  /** Frames only hit rows the hardware has. */
  predicate Feasible(lim: Limits, rs: seq<Request>) {
    forall i :: 0 <= i < |rs| && rs[i].Traffic? ==> rs[i].s < lim.maxStr && rs[i].p < NUM_PCP
  }

  method Run(lim: Limits, rows0: (nat, nat) -> HwRow, cnt0: (nat, nat) -> Raw, rs: seq<Request>) returns (t: FilterTable)
    requires Feasible(lim, rs)
    ensures t.Valid() && t.lim == lim && t.hist == rs
  {
    hide FilterTable.Valid;
    t := new FilterTable(lim, rows0, cnt0);
    for i := 0 to |rs|
      invariant t.Valid() && t.lim == lim && t.hist == rs[..i]
      invariant fresh(t) && fresh(t.curSub) && fresh(t.rows) && fresh(t.hwCnt)
    {
      t.Handle(rs[i]);
    }
  }

  /** After any history of requests, a hardware row and the driver's cache entry for it are those of
      the lowest-numbered filter that matches the row, or the default when none does. */
  method RowAfter(lim: Limits, rows0: (nat, nat) -> HwRow, cnt0: (nat, nat) -> Raw, rs: seq<Request>, s: nat, p: nat)
    returns (row: HwRow, cached: Option<nat>)
    requires Feasible(lim, rs) && s < lim.maxStr && p < NUM_PCP
    ensures cached == None ==> row == DEFAULT_ROW && forall f :: f in After(lim, rs) ==> !Matches(After(lim, rs)[f], s, p)
    ensures cached.Some? ==>
              && cached.value in After(lim, rs)
              && Matches(After(lim, rs)[cached.value], s, p)
              && (forall f :: f in After(lim, rs) && Matches(After(lim, rs)[f], s, p) ==> cached.value <= f)
              && row == RowOf(lim, After(lim, rs)[cached.value].data)
  {
    var t := Run(lim, rows0, cnt0, rs);
    hide Agree, After, Counted, RowOf;
    row, cached := t.rows[s, p], t.curSub[s, p];
  }

  /** What happens after any history to a frame that hits a row: without a matching filter it passes exactly up
      to 1518 bytes; otherwise the lowest-numbered matching filter decides, by its gate, meter and limit. */
  method AdmitAfter(lim: Limits, rows0: (nat, nat) -> HwRow, cnt0: (nat, nat) -> Raw, rs: seq<Request>, s: nat, p: nat,
                    size: nat, open: set<int>, green: set<int>)
    returns (passes: bool)
    requires Feasible(lim, rs) && s < lim.maxStr && p < NUM_PCP
    requires lim.maxGate <= 16 && lim.maxFmtr + lim.resFmtr <= 4096
    ensures (forall f :: f in After(lim, rs) ==> !Matches(After(lim, rs)[f], s, p)) ==> (passes <==> size <= 1518)
    ensures forall f :: f in After(lim, rs) && Matches(After(lim, rs)[f], s, p)
              && (forall g :: g in After(lim, rs) && Matches(After(lim, rs)[g], s, p) ==> f <= g)
              ==> (passes <==> Demands(lim, After(lim, rs)[f].data, size, open, green))
  {
    hide After, Matches, RowOf, CheckDef, Admits, Demands;
    var row, cached := RowAfter(lim, rows0, cnt0, rs, s, p);
    passes := Admits(row, size, open, green);
    if cached.Some? {
      AfterChecked(lim, rs);
      FilteredPass(lim, After(lim, rs)[cached.value], size, open, green);
    } else {
      UnfilteredPass(lim, map[], s, p, size, open, green);
    }
  }

  /** After any history, a counter reads the frames that hit rows while its filter was effective on
      them, modulo 2^32; counters of wildcard filters read zero. */
  method CountAfter(lim: Limits, rows0: (nat, nat) -> HwRow, cnt0: (nat, nat) -> Raw, rs: seq<Request>, filter: nat, ct: CntType)
    returns (st: Status, cnt: u32)
    requires Feasible(lim, rs)
    ensures st == if filter >= MAX_NO_FILTERS || filter >= lim.maxStr * NUM_PCP then EInval
                  else if filter !in After(lim, rs) then ENoEnt else Ok
    ensures st == Ok ==> cnt == if IsWildcard(After(lim, rs)[filter]) then 0
                                else Amount(Counted(lim, rs, filter), ct) % TWO32
  {
    var t := Run(lim, rows0, cnt0, rs);
    st, cnt := t.GetCnt(filter, ct);
  }

  /** What a filter reads back as after any history. */
  method ReadAfter(lim: Limits, rows0: (nat, nat) -> HwRow, cnt0: (nat, nat) -> Raw, rs: seq<Request>, filter: nat)
    returns (st: Status, def: FltDef)
    requires Feasible(lim, rs)
    ensures st == if filter >= MAX_NO_FILTERS then EInval else if filter !in After(lim, rs) then ENoEnt else Ok
    ensures st == Ok ==> def == ReadBack(After(lim, rs), filter)
  {
    hide After, Counted;
    var t := Run(lim, rows0, cnt0, rs);
    st, def := t.ReadFilter(filter);
  }
}
