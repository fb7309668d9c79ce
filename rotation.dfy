/** The rotation step of the manager (IncSlotChar, IAS_Manager.cs): a bounded circular walk
    of a slot's cursor that stops at the first ad it may show. */
module Rotation {
  import opened Results
  import opened Catalog

  /** `lastSlotId + 1 >= adSlotCount ? 0 : lastSlotId + 1`, in 32-bit arithmetic. */
  function NextCursor(cursor: int32, n: int): (r: int32)
    ensures 0 <= cursor < n <= 0x7FFF_FFFF ==> r == if cursor + 1 == n then 0 else cursor + 1
  {
    var next := Wrap32(cursor as int + 1);
    if next >= n then 0 else next
  }

  /** Never a self ad, never an inactive one. */
  predicate Showable(ad: AdData)
  {
    !ad.isSelf && ad.isActive
  }

  /** The test IncSlotChar applies at loop step `step` of a slot with `n` ads: installed apps
      are only taken once a whole lap (`step >= n`) found nothing better. */
  predicate Acceptable(ad: AdData, step: int, n: int)
  {
    Showable(ad) && (!ad.isInstalled || step >= n)
  }

  /** How the walk ends: an ad accepted at `step` (then the coroutine that downloads its
      texture is started), every step used up without one, or a cursor letter with no ad
      (where the source dereferences null). `cursor` is what lastSlotId is left at. */
  datatype Selection =
    | Accepted(cursor: int32, adIndex: nat, step: nat)
    | Exhausted(cursor: int32)
    | MissingAd(cursor: int32)

  /** The loop of IncSlotChar from step `i` on, with the cursor at `cursor`. */
  function SelectFrom(ads: seq<AdData>, cursor: int32, i: nat): (w: Selection)
    ensures w.Accepted? ==> i <= w.step < 2 * |ads|
                            && IsFirstAd(ads, w.adIndex, SlotLetter(w.cursor))
                            && Acceptable(ads[w.adIndex], w.step, |ads|)
    ensures w.MissingAd? ==> AdIndex(ads, SlotLetter(w.cursor)) == -1
    ensures i >= 2 * |ads| ==> w == Exhausted(cursor)
    decreases 2 * |ads| - i
  {
    if i >= 2 * |ads| then Exhausted(cursor)
    else
      var c := NextCursor(cursor, |ads|);
      var k := AdIndex(ads, SlotLetter(c));
      if k < 0 then MissingAd(c)
      else if Acceptable(ads[k], i, |ads|) then Accepted(c, k, i)
      else SelectFrom(ads, c, i + 1)
  }

  /** The whole walk of IncSlotChar on a slot whose cursor is `cursor`. */
  function Select(ads: seq<AdData>, cursor: int32): Selection
  {
    SelectFrom(ads, cursor, 0)
  }

  /** A cursor that starts among the positions stays among them. */
  lemma {:induction false} SelectCursorInRange(ads: seq<AdData>, cursor: int32, i: nat)
    requires 0 <= cursor < |ads| <= 0x7FFF_FFFF
    ensures 0 <= SelectFrom(ads, cursor, i).cursor < |ads|
    decreases 2 * |ads| - i
  {
    if i < 2 * |ads| {
      SelectCursorInRange(ads, NextCursor(cursor, |ads|), i + 1);
    }
  }

  /** `k` steps of the cursor. */
  function Rot(cursor: int32, k: nat, n: int): int32
    decreases k
  {
    if k == 0 then cursor else Rot(NextCursor(cursor, n), k - 1, n)
  }

  lemma {:induction false} RotAdd(cursor: int32, a: nat, b: nat, n: int)
    ensures Rot(cursor, a + b, n) == Rot(Rot(cursor, a, n), b, n)
    decreases a
  {
    if a > 0 {
      RotAdd(NextCursor(cursor, n), a - 1, b, n);
    }
  }

  lemma {:induction false} RotForward(cursor: int32, k: nat, n: int)
    requires 0 <= cursor && cursor + k < n <= 0x7FFF_FFFF
    ensures Rot(cursor, k, n) == cursor + k
    decreases k
  {
    if k > 0 {
      RotForward(NextCursor(cursor, n), k - 1, n);
    }
  }

  /** n cursor steps on a slot of n ads come back to the start: the rotation is cyclic. */
  lemma RotLap(cursor: int32, n: int)
    requires 0 <= cursor < n <= 0x7FFF_FFFF
    ensures Rot(cursor, n, n) == cursor
  {
    var toEnd := n - 1 - cursor;
    RotForward(cursor, toEnd, n);
    RotAdd(cursor, toEnd, 1, n);
    assert Rot(cursor, toEnd + 1, n) == 0;
    RotAdd(cursor, toEnd + 1, cursor as nat, n);
    if cursor > 0 {
      RotForward(0, cursor as nat, n);
    }
  }

  lemma {:induction false} ExhaustedIsRot(ads: seq<AdData>, cursor: int32, i: nat)
    requires i <= 2 * |ads|
    ensures SelectFrom(ads, cursor, i).Exhausted?
            ==> SelectFrom(ads, cursor, i).cursor == Rot(cursor, 2 * |ads| - i, |ads|)
    decreases 2 * |ads| - i
  {
    if i < 2 * |ads| {
      ExhaustedIsRot(ads, NextCursor(cursor, |ads|), i + 1);
    }
  }

  /** When the walk finds nothing it has made 2n steps and the cursor is back where it
      started. */
  lemma ExhaustedKeepsCursor(ads: seq<AdData>, cursor: int32)
    requires 0 <= cursor < |ads| <= 0x7FFF_FFFF
    ensures Select(ads, cursor).Exhausted? ==> Select(ads, cursor).cursor == cursor
  {
    var n := |ads|;
    ExhaustedIsRot(ads, cursor, 0);
    RotAdd(cursor, n, n, n);
    RotLap(cursor, n);
  }

  /** Every cursor position of the slot names an ad (a slot lettered 'a', 'b', ... without
      gaps). */
  predicate AllLettersPresent(ads: seq<AdData>)
  {
    forall p :: 0 <= p < |ads| ==> AdIndex(ads, SlotLetter(p)) >= 0
  }

  /** The ad the cursor position `p` selects. */
  function AdAtPosition(ads: seq<AdData>, p: int): AdData
    requires 0 <= p < |ads| && AllLettersPresent(ads)
  {
    ads[AdIndex(ads, SlotLetter(p))]
  }

  /** Steps from cursor `c` until the cursor first reaches position `p`, minus one. */
  function Dist(c: int, p: int, n: int): int
  {
    if p > c then p - c - 1 else p - c - 1 + n
  }

  /** If position `p` is reached at step `s` (its first or its second visit) and its ad is
      acceptable there, the walk accepts an ad no later than `s`. */
  lemma {:induction false} SelectReaches(ads: seq<AdData>, c: int32, i: nat, p: int, s: nat)
    requires 0 <= c < |ads| <= 0x7FFF_FFFF && 0 <= p < |ads| && AllLettersPresent(ads)
    requires i <= s < 2 * |ads|
    requires s - i == Dist(c, p, |ads|) || s - i == Dist(c, p, |ads|) + |ads|
    requires Acceptable(AdAtPosition(ads, p), s, |ads|)
    ensures SelectFrom(ads, c, i).Accepted? && SelectFrom(ads, c, i).step <= s
    decreases s - i
  {
    var n := |ads|;
    var c1 := NextCursor(c, n);
    assert AdIndex(ads, SlotLetter(c1)) >= 0;
    var k := AdIndex(ads, SlotLetter(c1));
    if !Acceptable(ads[k], i, n) {
      if s == i {
        assert false;
      }
      SelectReaches(ads, c1, i + 1, p, s);
    }
  }

  /** With no gaps in the letters, the walk never hits a missing ad. */
  lemma {:induction false} SelectNeverMissing(ads: seq<AdData>, c: int32, i: nat)
    requires 0 <= c < |ads| <= 0x7FFF_FFFF && AllLettersPresent(ads)
    ensures !SelectFrom(ads, c, i).MissingAd?
    decreases 2 * |ads| - i
  {
    if i < 2 * |ads| {
      var c1 := NextCursor(c, |ads|);
      assert AdIndex(ads, SlotLetter(c1)) >= 0;
      SelectNeverMissing(ads, c1, i + 1);
    }
  }

  /** IncSlotChar finds an ad exactly when some position holds a showable one; otherwise it
      runs all 2n steps and starts no download. */
  lemma SelectFindsShowable(ads: seq<AdData>, c: int32)
    requires 0 <= c < |ads| <= 0x7FFF_FFFF && AllLettersPresent(ads)
    ensures Select(ads, c).Accepted?
            <==> exists p :: 0 <= p < |ads| && Showable(AdAtPosition(ads, p))
    ensures !Select(ads, c).MissingAd?
  {
    SelectNeverMissing(ads, c, 0);
    var n := |ads|;
    if exists p :: 0 <= p < n && Showable(AdAtPosition(ads, p)) {
      var p :| 0 <= p < n && Showable(AdAtPosition(ads, p));
      var d := Dist(c, p, n);
      if AdAtPosition(ads, p).isInstalled {
        SelectReaches(ads, c, 0, p, d + n);
      } else {
        SelectReaches(ads, c, 0, p, d);
      }
    }
    var w := Select(ads, c);
    if w.Accepted? {
      SelectCursorInRange(ads, c, 0);
      FirstMatchUnique([], ads, 0, SlotLetter(w.cursor));
      assert AdAtPosition(ads, w.cursor) == ads[w.adIndex];
    }
  }

  /** If some position holds a showable ad for an app that is not installed, the walk accepts
      during its first lap and the accepted ad is not installed. */
  lemma SelectPrefersUninstalled(ads: seq<AdData>, c: int32, p: int)
    requires 0 <= c < |ads| <= 0x7FFF_FFFF && AllLettersPresent(ads)
    requires 0 <= p < |ads| && Showable(AdAtPosition(ads, p)) && !AdAtPosition(ads, p).isInstalled
    ensures Select(ads, c).Accepted?
    ensures Select(ads, c).step < |ads| && !ads[Select(ads, c).adIndex].isInstalled
  {
    SelectReaches(ads, c, 0, p, Dist(c, p, |ads|));
  }

  /** Ads listed in letter order: the k-th ad is lettered 'a' + k. */
  predicate LetteredInOrder(ads: seq<AdData>)
  {
    |ads| <= 26 && forall k :: 0 <= k < |ads| ==> ads[k].slotChar == SlotLetter(k)
  }

  lemma LetteredInOrderPositions(ads: seq<AdData>)
    requires LetteredInOrder(ads)
    ensures AllLettersPresent(ads)
    ensures forall p :: 0 <= p < |ads| ==> AdIndex(ads, SlotLetter(p)) == p
  {
    forall p | 0 <= p < |ads| ensures AdIndex(ads, SlotLetter(p)) == p {
      assert IsFirstAd(ads, p, SlotLetter(p));
      FirstMatchUnique([], ads, 0, SlotLetter(p));
    }
  }

  /** For a slot lettered 'a', 'b', ... in order: the accepted ad is showable, and it is an
      installed app's ad only when every showable ad is one. */
  lemma SelectOnLetteredSlot(ads: seq<AdData>, c: int32)
    requires 0 <= c < |ads| && LetteredInOrder(ads)
    ensures Select(ads, c).Accepted? <==> exists k :: 0 <= k < |ads| && Showable(ads[k])
    ensures Select(ads, c).Exhausted? ==> Select(ads, c).cursor == c
    ensures Select(ads, c).Accepted? ==> Showable(ads[Select(ads, c).adIndex])
    ensures (exists k :: 0 <= k < |ads| && Showable(ads[k]) && !ads[k].isInstalled)
            ==> Select(ads, c).Accepted? && !ads[Select(ads, c).adIndex].isInstalled
  {
    LetteredInOrderPositions(ads);
    SelectFindsShowable(ads, c);
    ExhaustedKeepsCursor(ads, c);
    if exists k :: 0 <= k < |ads| && Showable(ads[k]) {
      var k :| 0 <= k < |ads| && Showable(ads[k]);
      assert AdAtPosition(ads, k) == ads[k];
    }
    if exists k :: 0 <= k < |ads| && Showable(ads[k]) && !ads[k].isInstalled {
      var k :| 0 <= k < |ads| && Showable(ads[k]) && !ads[k].isInstalled;
      assert AdAtPosition(ads, k) == ads[k];
      SelectPrefersUninstalled(ads, c, k);
    }
  }

  // ---- IncSlotChar, RefreshActiveAdSlots and RandomizeAdSlots on the whole catalog. ----

  /** What IncSlotChar(jsonFileId, wantedSlotInt) leaves: the catalog (the slot's cursor where
      the walk stopped) and the ad whose texture download it starts (None: it starts none),
      or the exception it raises. */
  datatype IncStep = IncStep(data: seq<FileData>, result: Result<Option<AdRef>, Fault>)

  /** IncSlotChar. The first slot numbered `s` is walked; a missing slot is dereferenced
      (NullReference) before anything changes; a cursor letter with no ad is dereferenced
      (NullReference) after the cursor has already moved. */
  function IncSlot(data: seq<FileData>, f: int, s: int): (r: IncStep)
    ensures OnlyCursorsDiffer(r.data, data)
    ensures GetSlotIndex(data, f, s) < 0 ==> r == IncStep(data, Failure(NullReference))
  {
    var si := GetSlotIndex(data, f, s);
    if si < 0 then IncStep(data, Failure(NullReference))
    else
      var slot := data[f].slotInts[si];
      var w := Select(slot.advert, slot.lastSlotId);
      var data' := SetCursor(data, f, si, w.cursor);
      match w
      case Accepted(_, k, _) => IncStep(data', Success(Some(AdRef(f, si, k))))
      case Exhausted(_) => IncStep(data', Success(None))
      case MissingAd(_) => IncStep(data', Failure(NullReference))
  }

  /** One step of the walk that started at `cursor0`, now at `cursor` and step `i`: the
      cursor moves to `next` and the ad with its letter is at `k`. */
  lemma WalkStep(ads: seq<AdData>, cursor0: int32, cursor: int32, i: nat, next: int32, k: int)
    requires i < 2 * |ads| && SelectFrom(ads, cursor, i) == Select(ads, cursor0)
    requires next == NextCursor(cursor, |ads|) && k == AdIndex(ads, SlotLetter(next))
    ensures k < 0 ==> Select(ads, cursor0) == MissingAd(next)
    ensures k >= 0 && Acceptable(ads[k], i, |ads|) ==> Select(ads, cursor0) == Accepted(next, k, i)
    ensures k >= 0 && !Acceptable(ads[k], i, |ads|) ==> SelectFrom(ads, next, i + 1) == Select(ads, cursor0)
  {
  }

  /** IncSlotChar on an existing slot: the cursor is left where the walk stopped. */
  lemma IncSlotWalk(data: seq<FileData>, f: int, s: int)
    requires GetSlotIndex(data, f, s) >= 0
    ensures var si := GetSlotIndex(data, f, s);
            var slot := data[f].slotInts[si];
            var w := Select(slot.advert, slot.lastSlotId);
            IncSlot(data, f, s).data == SetCursor(data, f, si, w.cursor)
            && IncSlot(data, f, s).result ==
                 match w
                 case Accepted(_, k, _) => Success(Some(AdRef(f, si, k)))
                 case Exhausted(_) => Success(None)
                 case MissingAd(_) => Failure(NullReference)
  {
  }

  /** The ad whose download IncSlotChar starts is a showable ad of the slot it was asked for,
      and it is the slot's current ad afterwards (what GetAdData, IsAdReady, GetAdURL and
      GetAdPackageName then report). */
  lemma IncSlotStartsCurrentAd(data: seq<FileData>, f: int, s: int)
    ensures var r := IncSlot(data, f, s);
            r.result.Success? && r.result.value.Some? ==>
              var ref := r.result.value.value;
              ValidRef(r.data, ref) && ref.fileId == f && ref.slotIndex == GetSlotIndex(data, f, s)
              && Showable(AdAt(r.data, ref))
              && GetCurrentAd(r.data, f, s) == Some(AdAt(r.data, ref))
  {
    var r := IncSlot(data, f, s);
    if r.result.Success? && r.result.value.Some? {
      var si := GetSlotIndex(data, f, s);
      var slot := data[f].slotInts[si];
      var w := Select(slot.advert, slot.lastSlotId);
      OnlyCursorsDifferKeys(r.data, data);
      SameKeysLookups(r.data, data, f, s, SlotLetter(w.cursor));
      assert r.data[f].slotInts[si].lastSlotId == w.cursor;
      FirstMatchUnique([], slot.advert, 0, SlotLetter(w.cursor));
    }
  }

  lemma SetCursorKeepsWellFormed(data: seq<FileData>, f: nat, si: nat, cursor: int32)
    requires WellFormed(data) && f < |data| && si < |data[f].slotInts|
    requires 0 <= cursor < |data[f].slotInts[si].advert|
    ensures WellFormed(SetCursor(data, f, si, cursor))
  {
    var r := SetCursor(data, f, si, cursor);
    assert forall k :: 0 <= k < |r[f].slotInts| ==> r[f].slotInts[k].slotInt == data[f].slotInts[k].slotInt;
    assert WellFormedFile(r[f]);
  }

  /** IncSlotChar keeps the catalog well formed: in particular the cursor stays on an ad. */
  lemma IncSlotKeepsWellFormed(data: seq<FileData>, f: int, s: int)
    requires WellFormed(data)
    ensures WellFormed(IncSlot(data, f, s).data)
  {
    var si := GetSlotIndex(data, f, s);
    if si >= 0 {
      var slot := data[f].slotInts[si];
      AtMost26Ads(slot.advert);
      SelectCursorInRange(slot.advert, slot.lastSlotId, 0);
      SetCursorKeepsWellFormed(data, f, si, Select(slot.advert, slot.lastSlotId).cursor);
    }
  }

  /** On a well-formed catalog whose slot has every letter up to its size, IncSlotChar never
      throws; it starts a download exactly when the slot has a showable ad, and when it
      starts none the catalog is unchanged. */
  lemma IncSlotOnLetteredSlot(data: seq<FileData>, f: int, s: int)
    requires WellFormed(data) && GetSlotIndex(data, f, s) >= 0
    requires AllLettersPresent(data[f].slotInts[GetSlotIndex(data, f, s)].advert)
    ensures var ads := data[f].slotInts[GetSlotIndex(data, f, s)].advert;
            var r := IncSlot(data, f, s);
            r.result.Success?
            && (r.result.value.Some? <==> exists p :: 0 <= p < |ads| && Showable(AdAtPosition(ads, p)))
            && (r.result.value.None? ==> r.data == data)
  {
    var si := GetSlotIndex(data, f, s);
    var slot := data[f].slotInts[si];
    AtMost26Ads(slot.advert);
    SelectFindsShowable(slot.advert, slot.lastSlotId);
    ExhaustedKeepsCursor(slot.advert, slot.lastSlotId);
    if Select(slot.advert, slot.lastSlotId).Exhausted? {
      assert slot.(lastSlotId := slot.lastSlotId) == slot;
      assert data[f].slotInts[si := slot] == data[f].slotInts;
      assert data[f := FileData(data[f].slotInts)] == data;
    }
  }

  /** The first slot number from 1 on that file `f` has no slot for: the loops
      `for(i = 1; DoesSlotIntExist(jsonFileId, i); i++)` visit exactly 1 .. SlotRunEnd - 1. */
  function SlotRunEnd(data: seq<FileData>, f: int): (r: int)
    ensures r >= 1 && !DoesSlotIntExist(data, f, r)
    ensures forall i :: 1 <= i < r ==> DoesSlotIntExist(data, f, i)
  {
    if DoesSlotFileIdExist(data, f) then FirstGap(data[f].slotInts, 1) else 1
  }

  function MaxSlotInt(slots: seq<SlotData>): (r: int)
    ensures forall k :: 0 <= k < |slots| ==> slots[k].slotInt <= r
  {
    if slots == [] then 0
    else
      var m := MaxSlotInt(slots[1..]);
      if slots[0].slotInt > m then slots[0].slotInt else m
  }

  /** The least number from `i` on that no slot carries. */
  function FirstGap(slots: seq<SlotData>, i: int): (r: int)
    ensures i <= r && SlotIndex(slots, r) == -1
    ensures forall j :: i <= j < r ==> SlotIndex(slots, j) >= 0
    decreases MaxSlotInt(slots) + 1 - i
  {
    if SlotIndex(slots, i) < 0 then i else FirstGap(slots, i + 1)
  }

  lemma SlotRunEndKeys(a: seq<FileData>, b: seq<FileData>, f: int)
    requires SameCatalogKeys(a, b)
    ensures SlotRunEnd(a, f) == SlotRunEnd(b, f)
  {
    var ra := SlotRunEnd(a, f);
    var rb := SlotRunEnd(b, f);
    SameKeysLookups(a, b, f, ra, 0);
    SameKeysLookups(a, b, f, rb, 0);
  }

  /** A run of RefreshBanners calls: the catalog it leaves, the downloads it starts in order,
      and the exception that ended it early, if any. */
  datatype RefreshRun = RefreshRun(data: seq<FileData>, started: seq<AdRef>, fault: Option<Fault>)

  /** RefreshBanners(f, i), RefreshBanners(f, i + 1), ... up to slot number `end` - 1, with
      `inc` in place of IncSlotChar. */
  function SlotsWith(inc: (seq<FileData>, int, int) -> IncStep, data: seq<FileData>, f: int, i: int, end: int): RefreshRun
    decreases end - i
  {
    if i >= end then RefreshRun(data, [], None)
    else
      var step := inc(data, f, i);
      match step.result
      case Failure(e) => RefreshRun(step.data, [], Some(e))
      case Success(started) =>
        var rest := SlotsWith(inc, step.data, f, i + 1, end);
        RefreshRun(rest.data, (if started.Some? then [started.value] else []) + rest.started, rest.fault)
  }

  /** IncSlotChar as a function value. */
  function IncSlotPass(): (seq<FileData>, int, int) -> IncStep
  {
    (d: seq<FileData>, g: int, s: int) => IncSlot(d, g, s)
  }

  /** RefreshBanners(f, i), RefreshBanners(f, i + 1), ... up to slot number `end` - 1. */
  function RefreshFrom(data: seq<FileData>, f: int, i: int, end: int): (r: RefreshRun)
    ensures OnlyCursorsDiffer(r.data, data)
    ensures forall k :: 0 <= k < |r.started| ==> r.started[k].fileId == f
  {
    IncSlotPassGood();
    SlotsWithFacts(IncSlotPass(), data, f, i, end);
    SlotsWith(IncSlotPass(), data, f, i, end)
  }

  /** What one IncSlotChar call does on `d` for file `g`: it moves cursors only, keeps a
      well-formed catalog well formed, and starts a download only of a showable ad of `g`. */
  predicate IncGood(step: IncStep, d: seq<FileData>, g: int)
  {
    OnlyCursorsDiffer(step.data, d) && (WellFormed(d) ==> WellFormed(step.data))
    && (step.result.Success? && step.result.value.Some? ==>
          var ref := step.result.value.value;
          ValidRef(step.data, ref) && ref.fileId == g && Showable(AdAt(step.data, ref)))
  }

  ghost predicate GoodInc(inc: (seq<FileData>, int, int) -> IncStep)
  {
    forall d: seq<FileData>, g: int, s: int :: IncGood(inc(d, g, s), d, g)
  }

  lemma IncSlotPassGood()
    ensures GoodInc(IncSlotPass())
  {
    forall d: seq<FileData>, g: int, s: int ensures IncGood(IncSlotPass()(d, g, s), d, g) {
      assert IncSlotPass()(d, g, s) == IncSlot(d, g, s);
      IncSlotStartsCurrentAd(d, g, s);
      if WellFormed(d) {
        IncSlotKeepsWellFormed(d, g, s);
      }
    }
  }

  /** A run on `data` that moves cursors only, keeps a well-formed catalog well formed, and
      starts downloads only of showable ads of file `f` of the catalog it leaves. */
  predicate RunGood(r: RefreshRun, data: seq<FileData>, f: int)
  {
    OnlyCursorsDiffer(r.data, data) && (forall k :: 0 <= k < |r.started| ==> r.started[k].fileId == f)
    && StartsShowable(r) && (WellFormed(data) ==> WellFormed(r.data))
  }

  /** Every run of such calls is such a run. */
  lemma {:induction false} SlotsWithFacts(inc: (seq<FileData>, int, int) -> IncStep, data: seq<FileData>, f: int, i: int, end: int)
    requires GoodInc(inc)
    ensures RunGood(SlotsWith(inc, data, f, i, end), data, f)
    decreases end - i
  {
    if i < end {
      var step := inc(data, f, i);
      assert IncGood(step, data, f);
      if step.result.Success? {
        SlotsWithFacts(inc, step.data, f, i + 1, end);
        RunGoodCons(step, data, f, SlotsWith(inc, step.data, f, i + 1, end));
      }
    }
  }

  /** A good call followed by a good run on the catalog it leaves is a good run. */
  lemma RunGoodCons(step: IncStep, data: seq<FileData>, f: int, rest: RefreshRun)
    requires IncGood(step, data, f) && step.result.Success? && RunGood(rest, step.data, f)
    ensures var mine := if step.result.value.Some? then [step.result.value.value] else [];
            RunGood(RefreshRun(rest.data, mine + rest.started, rest.fault), data, f)
  {
    if step.result.value.Some? {
      var ref := step.result.value.value;
      StartsShowableCons(step.data, ref, rest);
      var r := [ref] + rest.started;
      forall k | 0 <= k < |r| ensures r[k].fileId == f {
        if k > 0 {
          assert r[k] == rest.started[k - 1];
        }
      }
    } else {
      assert [] + rest.started == rest.started;
    }
  }

  /** One RefreshBanners call, then the rest of the slot numbers. */
  lemma RefreshFromStep(data: seq<FileData>, f: int, i: int, end: int)
    requires i < end
    ensures var step := IncSlot(data, f, i);
            var rest := RefreshFrom(step.data, f, i + 1, end);
            RefreshFrom(data, f, i, end) ==
              if step.result.Failure? then RefreshRun(step.data, [], Some(step.result.error))
              else RefreshRun(rest.data, (if step.result.value.Some? then [step.result.value.value] else []) + rest.started, rest.fault)
  {
    assert IncSlotPass()(data, f, i) == IncSlot(data, f, i);
  }

  /** The downloads `started` so far, then the run `rest`. */
  function Then(started: seq<AdRef>, rest: RefreshRun): (r: RefreshRun)
    ensures r.data == rest.data && r.fault == rest.fault && |r.started| == |started| + |rest.started|
  {
    RefreshRun(rest.data, started + rest.started, rest.fault)
  }

  /** `inc` moves cursors and starts downloads as IncSlotChar does. */
  ghost predicate IncPassIs(inc: (seq<FileData>, int, int) -> IncStep)
  {
    forall d: seq<FileData>, g: int, s: int {:trigger IncSlot(d, g, s)} :: inc(d, g, s) == IncSlot(d, g, s)
  }

  lemma IncPassExists()
    ensures exists inc :: IncPassIs(inc)
  {
    assert IncPassIs(IncSlotPass());
  }

  /** Two passes that agree everywhere make the same run. */
  lemma {:induction false} SlotsWithSame(p: (seq<FileData>, int, int) -> IncStep, q: (seq<FileData>, int, int) -> IncStep,
                                         data: seq<FileData>, f: int, i: int, end: int)
    requires forall d: seq<FileData>, g: int, s: int :: p(d, g, s) == q(d, g, s)
    ensures SlotsWith(p, data, f, i, end) == SlotsWith(q, data, f, i, end)
    decreases end - i
  {
    if i < end {
      var step := p(data, f, i);
      if step.result.Success? {
        SlotsWithSame(p, q, step.data, f, i + 1, end);
      }
    }
  }

  /** With such a pass the run is RefreshActiveAdSlots(jsonFileId). */
  lemma SlotsWithIsRefreshFile(inc: (seq<FileData>, int, int) -> IncStep, data: seq<FileData>, f: int)
    requires IncPassIs(inc)
    ensures SlotsWith(inc, data, f, 1, SlotRunEnd(data, f)) == RefreshFile(data, f)
  {
    forall d: seq<FileData>, g: int, s: int ensures inc(d, g, s) == IncSlotPass()(d, g, s) {
      assert inc(d, g, s) == IncSlot(d, g, s);
    }
    SlotsWithSame(inc, IncSlotPass(), data, f, 1, SlotRunEnd(data, f));
  }

  /** RefreshActiveAdSlots(jsonFileId) before its first RefreshBanners call. */
  lemma SlotsWithEntry(inc: (seq<FileData>, int, int) -> IncStep, data: seq<FileData>, f: int, i: int, end: int)
    ensures SlotsWith(inc, data, f, i, end) == Then([], SlotsWith(inc, data, f, i, end))
  {
    assert [] + SlotsWith(inc, data, f, i, end).started == SlotsWith(inc, data, f, i, end).started;
  }

  /** A RefreshBanners call that throws ends RefreshActiveAdSlots(jsonFileId): `after` and
      `r` are what the pass left and returned on `before`. */
  lemma SlotsWithThrows(inc: (seq<FileData>, int, int) -> IncStep, run: RefreshRun, started: seq<AdRef>,
                        before: seq<FileData>, f: int, i: int, end: int, after: seq<FileData>, r: Result<Option<AdRef>, Fault>)
    requires i < end && run == Then(started, SlotsWith(inc, before, f, i, end))
    requires inc(before, f, i) == IncStep(after, r) && r.Failure?
    ensures run == RefreshRun(after, started, Some(r.error))
  {
  }

  /** A RefreshBanners call that returns adds the download it started, if any. */
  lemma SlotsWithStep(inc: (seq<FileData>, int, int) -> IncStep, run: RefreshRun, started: seq<AdRef>,
                      before: seq<FileData>, f: int, i: int, end: int, after: seq<FileData>, r: Result<Option<AdRef>, Fault>)
    requires i < end && run == Then(started, SlotsWith(inc, before, f, i, end))
    requires inc(before, f, i) == IncStep(after, r) && r.Success?
    ensures run == Then(started + (if r.value.Some? then [r.value.value] else []), SlotsWith(inc, after, f, i + 1, end))
  {
    ThenStep(started, if r.value.Some? then [r.value.value] else [], SlotsWith(inc, before, f, i, end), SlotsWith(inc, after, f, i + 1, end));
  }

  /** Downloads `started`, then `mine`, then the run `rest`, grouped either way. */
  lemma ThenStep(started: seq<AdRef>, mine: seq<AdRef>, whole: RefreshRun, rest: RefreshRun)
    requires whole == RefreshRun(rest.data, mine + rest.started, rest.fault)
    ensures Then(started, whole) == Then(started + mine, rest)
  {
    assert started + (mine + rest.started) == (started + mine) + rest.started;
  }

  /** RefreshActiveAdSlots(jsonFileId) after its last RefreshBanners call. */
  lemma SlotsWithExit(inc: (seq<FileData>, int, int) -> IncStep, run: RefreshRun, started: seq<AdRef>,
                      data: seq<FileData>, f: int, end: int)
    requires run == Then(started, SlotsWith(inc, data, f, end, end))
    ensures run == RefreshRun(data, started, None)
  {
    assert started + [] == started;
  }

  /** On a catalog whose cursors alone moved, the loops over slot numbers 1, 2, ... stop
      where they would have stopped on the original. */
  lemma RunEndByKeys(a: seq<FileData>, b: seq<FileData>, f: int, i: int)
    requires OnlyCursorsDiffer(b, a) && 1 <= i <= SlotRunEnd(a, f)
    ensures DoesSlotIntExist(b, f, i) <==> i < SlotRunEnd(a, f)
  {
    OnlyCursorsDifferKeys(b, a);
    SameKeysLookups(b, a, f, i, SlotLetter(0));
  }

  /** RefreshActiveAdSlots(jsonFileId): every consecutive slot number from 1. */
  function RefreshFile(data: seq<FileData>, f: int): RefreshRun
  {
    RefreshFrom(data, f, 1, SlotRunEnd(data, f))
  }

  /** A refresh keeps the catalog well formed. */
  lemma RefreshFromKeepsWellFormed(data: seq<FileData>, f: int, i: int, end: int)
    requires WellFormed(data)
    ensures WellFormed(RefreshFrom(data, f, i, end).data)
  {
    IncSlotPassGood();
    SlotsWithFacts(IncSlotPass(), data, f, i, end);
  }

  /** Every download a refresh starts is for a showable ad of the final catalog. */
  predicate StartsShowable(r: RefreshRun)
  {
    forall k :: 0 <= k < |r.started| ==> ValidRef(r.data, r.started[k]) && Showable(AdAt(r.data, r.started[k]))
  }

  lemma RefreshFromStartsShowable(data: seq<FileData>, f: int, i: int, end: int)
    ensures StartsShowable(RefreshFrom(data, f, i, end))
  {
    IncSlotPassGood();
    SlotsWithFacts(IncSlotPass(), data, f, i, end);
  }

  /** Every slot of file `f` carries every letter up to its size. */
  predicate LetteredFile(data: seq<FileData>, f: int)
  {
    0 <= f < |data| && forall k :: 0 <= k < |data[f].slotInts| ==> AllLettersPresent(data[f].slotInts[k].advert)
  }

  /** File `f` has slots numbered i .. end - 1. */
  predicate SlotsExist(data: seq<FileData>, f: int, i: int, end: int)
  {
    forall j :: i <= j < end ==> DoesSlotIntExist(data, f, j)
  }

  lemma IncSlotKeepsLettering(data: seq<FileData>, f: int, s: int, i: int, end: int)
    requires LetteredFile(data, f) && SlotsExist(data, f, i, end)
    ensures LetteredFile(IncSlot(data, f, s).data, f) && SlotsExist(IncSlot(data, f, s).data, f, i, end)
  {
    var d := IncSlot(data, f, s).data;
    forall k | 0 <= k < |d[f].slotInts| ensures AllLettersPresent(d[f].slotInts[k].advert) {
      assert Uncursored(d)[f].slotInts[k] == Uncursored(data)[f].slotInts[k];
    }
    forall j | i <= j < end ensures DoesSlotIntExist(d, f, j) {
      OnlyCursorsDifferKeys(d, data);
      SameKeysLookups(d, data, f, j, 0);
    }
  }

  /** A refresh of a well-formed catalog whose slots all carry every letter up to their size
      runs to the end without an exception. */
  lemma {:induction false} RefreshFromNoFault(data: seq<FileData>, f: int, i: int, end: int)
    requires WellFormed(data) && LetteredFile(data, f) && SlotsExist(data, f, i, end)
    ensures RefreshFrom(data, f, i, end).fault == None
    decreases end - i
  {
    if i < end {
      IncSlotOnLetteredFile(data, f, i, end);
      RefreshFromNoFault(IncSlot(data, f, i).data, f, i + 1, end);
      RefreshFromGoesOnFault(data, f, i, end);
    }
  }

  /** IncSlotChar on the first slot of such a run throws nothing and leaves the rest of the
      run as it was required. */
  lemma IncSlotOnLetteredFile(data: seq<FileData>, f: int, i: int, end: int)
    requires WellFormed(data) && LetteredFile(data, f) && SlotsExist(data, f, i, end) && i < end
    ensures IncSlot(data, f, i).result.Success?
    ensures WellFormed(IncSlot(data, f, i).data) && LetteredFile(IncSlot(data, f, i).data, f)
    ensures SlotsExist(IncSlot(data, f, i).data, f, i + 1, end)
  {
    assert DoesSlotIntExist(data, f, i);
    IncSlotOnLetteredSlot(data, f, i);
    IncSlotKeepsWellFormed(data, f, i);
    IncSlotKeepsLettering(data, f, i, i + 1, end);
  }

  /** A slot that throws nothing hands the refresh on to the next one. */
  lemma RefreshFromGoesOnFault(data: seq<FileData>, f: int, i: int, end: int)
    requires i < end && IncSlot(data, f, i).result.Success?
    ensures RefreshFrom(data, f, i, end).fault == RefreshFrom(IncSlot(data, f, i).data, f, i + 1, end).fault
  {
    RefreshFromStep(data, f, i, end);
  }

  /** RefreshActiveAdSlots(jsonFileId) on such a file starts only downloads of showable ads,
      keeps the catalog well formed and throws nothing. */
  lemma RefreshFileFacts(data: seq<FileData>, f: int)
    requires WellFormed(data)
    ensures StartsShowable(RefreshFile(data, f)) && WellFormed(RefreshFile(data, f).data)
    ensures LetteredFile(data, f) ==> RefreshFile(data, f).fault == None
  {
    RefreshFromStartsShowable(data, f, 1, SlotRunEnd(data, f));
    RefreshFromKeepsWellFormed(data, f, 1, SlotRunEnd(data, f));
    if LetteredFile(data, f) {
      RefreshFromNoFault(data, f, 1, SlotRunEnd(data, f));
    }
  }

  /** Random.Range(min, max) on ints: `min` when the bounds are equal, otherwise a draw from
      [min, max) with the bounds swapped when min > max. `draw` is the random source. */
  function RandomRange(lo: int, hi: int, draw: nat): (r: int)
    ensures lo < hi ==> lo <= r < hi
    ensures lo == hi ==> r == lo
    ensures hi < lo ==> hi <= r < lo
  {
    if lo == hi then lo
    else if lo < hi then lo + draw % (hi - lo)
    else hi + draw % (lo - hi)
  }

  /** `Random.Range(0, advert.Count - 1)`: the cursor RandomizeAdSlots gives a slot of `n`
      ads. The upper bound is exclusive, so the last position is never chosen and the first
      ad IncSlotChar then looks at is never the one at position 0. */
  function RandomCursor(n: nat, draw: nat): (r: int32)
    ensures 2 <= n <= 0x8000_0000 ==> 0 <= r < n - 1 && 1 <= NextCursor(r, n) < n
    ensures n == 1 ==> r == 0
    ensures n == 0 ==> r == -1
  {
    Wrap32(RandomRange(0, n - 1, draw))
  }

  /** The file after RandomizeAdSlots has visited slot numbers 1 .. end - 1: the first slot
      with each such number gets a fresh random cursor; `draw(slotInt)` is the draw it used. */
  function Randomized(file: FileData, end: int, draw: int -> nat): (r: FileData)
    ensures |r.slotInts| == |file.slotInts|
    ensures forall k :: 0 <= k < |file.slotInts| ==>
              r.slotInts[k] == if 1 <= file.slotInts[k].slotInt < end && SlotIndex(file.slotInts, file.slotInts[k].slotInt) == k
                               then file.slotInts[k].(lastSlotId := RandomCursor(|file.slotInts[k].advert|, draw(file.slotInts[k].slotInt)))
                               else file.slotInts[k]
  {
    FileData(seq(|file.slotInts|, k requires 0 <= k < |file.slotInts| =>
      var slot := file.slotInts[k];
      if 1 <= slot.slotInt < end && SlotIndex(file.slotInts, slot.slotInt) == k
      then slot.(lastSlotId := RandomCursor(|slot.advert|, draw(slot.slotInt)))
      else slot))
  }

  /** Visiting no slot number changes nothing. */
  lemma RandomizedNone(file: FileData, draw: int -> nat)
    ensures Randomized(file, 1, draw) == file
  {
    assert Randomized(file, 1, draw).slotInts == file.slotInts;
  }

  /** Visiting slot number `i` next re-randomizes the first slot numbered `i` only. */
  lemma RandomizedStep(file: FileData, i: int, draw: int -> nat)
    requires i >= 1 && SlotIndex(file.slotInts, i) >= 0
    ensures var si := SlotIndex(file.slotInts, i);
            var before := Randomized(file, i, draw);
            before.slotInts[si] == file.slotInts[si]
            && Randomized(file, i + 1, draw)
               == FileData(before.slotInts[si := file.slotInts[si].(lastSlotId := RandomCursor(|file.slotInts[si].advert|, draw(i)))])
  {
    var si := SlotIndex(file.slotInts, i);
    var before := Randomized(file, i, draw);
    var after := Randomized(file, i + 1, draw);
    var expected := before.slotInts[si := file.slotInts[si].(lastSlotId := RandomCursor(|file.slotInts[si].advert|, draw(i)))];
    forall k | 0 <= k < |file.slotInts| ensures after.slotInts[k] == expected[k] {
      if k != si && file.slotInts[k].slotInt == i {
        assert SlotIndex(file.slotInts, i) != k;
      }
    }
    assert after.slotInts == expected;
  }

  /** The catalog part-way through RandomizeAdSlots: slot numbers below `i` visited. */
  function RandomizedUpTo(data: seq<FileData>, f: int, i: int, draw: int -> nat): (r: seq<FileData>)
    ensures |r| == |data|
  {
    if DoesSlotFileIdExist(data, f) then data[f := Randomized(data[f], i, draw)] else data
  }

  /** A part-way randomized catalog differs from the original in cursors only. */
  lemma RandomizedUpToKeys(data: seq<FileData>, f: int, i: int, draw: int -> nat)
    ensures OnlyCursorsDiffer(RandomizedUpTo(data, f, i, draw), data)
    ensures SameCatalogKeys(RandomizedUpTo(data, f, i, draw), data)
  {
    var r := RandomizedUpTo(data, f, i, draw);
    if DoesSlotFileIdExist(data, f) {
      assert Uncursored(r)[f].slotInts == Uncursored(data)[f].slotInts;
      assert Uncursored(r) == Uncursored(data);
    }
    OnlyCursorsDifferKeys(r, data);
  }

  /** One pass of RandomizeAdSlots' loop: slot number `i` exists at the same position as in
      the original catalog, and setting its cursor to the draw for `i` visits `i`. */
  lemma RandomizedUpToStep(data: seq<FileData>, f: int, i: int, draw: int -> nat)
    requires 1 <= i <= SlotRunEnd(data, f) && DoesSlotIntExist(RandomizedUpTo(data, f, i, draw), f, i)
    ensures var cur := RandomizedUpTo(data, f, i, draw);
            var si := GetSlotIndex(cur, f, i);
            0 <= f < |data| && i < SlotRunEnd(data, f)
            && si == GetSlotIndex(data, f, i) && 0 <= si < |data[f].slotInts|
            && |cur[f].slotInts[si].advert| == |data[f].slotInts[si].advert|
            && SetCursor(cur, f, si, RandomCursor(|cur[f].slotInts[si].advert|, draw(i)))
               == RandomizedUpTo(data, f, i + 1, draw)
  {
    var cur := RandomizedUpTo(data, f, i, draw);
    RandomizedUpToKeys(data, f, i, draw);
    SameKeysLookups(cur, data, f, i, SlotLetter(0));
    SameKeysLookups(cur, data, f, SlotRunEnd(data, f), SlotLetter(0));
    RandomizedStep(data[f], i, draw);
    var si := GetSlotIndex(cur, f, i);
    var c := RandomCursor(|cur[f].slotInts[si].advert|, draw(i));
    assert SetCursor(cur, f, si, c)[f] == RandomizedUpTo(data, f, i + 1, draw)[f];
  }

  /** RandomizeAdSlots' loop body as it runs on the catalog `cur` so far: the slot found for
      number `i` gets the draw for `i` as its cursor, which visits `i`. */
  lemma RandomizeLoopStep(data: seq<FileData>, f: int, i: int, draw: int -> nat, cur: seq<FileData>, si: int, next: seq<FileData>)
    requires 1 <= i <= SlotRunEnd(data, f) && cur == RandomizedUpTo(data, f, i, draw) && DoesSlotIntExist(cur, f, i)
    requires si == GetSlotIndex(cur, f, i) && 0 <= f < |cur| && 0 <= si < |cur[f].slotInts|
    requires next == SetCursor(cur, f, si, Wrap32(RandomRange(0, |cur[f].slotInts[si].advert| - 1, draw(i))))
    ensures i < SlotRunEnd(data, f) && next == RandomizedUpTo(data, f, i + 1, draw)
  {
    RandomizedUpToStep(data, f, i, draw);
  }

  /** RandomizeAdSlots' loop stops at the first missing slot number, having randomized the
      whole run before it. */
  lemma RandomizedUpToEnd(data: seq<FileData>, f: int, i: int, draw: int -> nat)
    requires 1 <= i <= SlotRunEnd(data, f) && !DoesSlotIntExist(RandomizedUpTo(data, f, i, draw), f, i)
    ensures i == SlotRunEnd(data, f) && RandomizedUpTo(data, f, i, draw) == RandomizeFile(data, f, draw)
  {
    RandomizedUpToKeys(data, f, i, draw);
    SameKeysLookups(RandomizedUpTo(data, f, i, draw), data, f, i, SlotLetter(0));
  }

  /** RandomizeAdSlots(jsonFileId) on the catalog. */
  function RandomizeFile(data: seq<FileData>, f: int, draw: int -> nat): (r: seq<FileData>)
    ensures |r| == |data|
  {
    if DoesSlotFileIdExist(data, f) then data[f := Randomized(data[f], SlotRunEnd(data, f), draw)] else data
  }

  /** Randomizing changes only cursors, keeps the catalog well formed, and leaves every
      randomized slot of two or more ads with a cursor below its last position. */
  lemma RandomizeFileFacts(data: seq<FileData>, f: int, draw: int -> nat)
    requires WellFormed(data)
    ensures OnlyCursorsDiffer(RandomizeFile(data, f, draw), data)
    ensures WellFormed(RandomizeFile(data, f, draw))
    ensures forall s :: 1 <= s < SlotRunEnd(data, f) ==>
              var slot := data[f].slotInts[GetSlotIndex(data, f, s)];
              var slot' := RandomizeFile(data, f, draw)[f].slotInts[GetSlotIndex(data, f, s)];
              slot'.lastSlotId == RandomCursor(|slot.advert|, draw(s))
              && (|slot.advert| >= 2 ==> 0 <= slot'.lastSlotId < |slot.advert| - 1)
  {
    var r := RandomizeFile(data, f, draw);
    if DoesSlotFileIdExist(data, f) {
      var file := data[f];
      var file' := r[f];
      forall k | 0 <= k < |file.slotInts|
        ensures file'.slotInts[k].(lastSlotId := 0) == file.slotInts[k].(lastSlotId := 0)
        ensures WellFormedSlot(file'.slotInts[k])
      {
        AtMost26Ads(file.slotInts[k].advert);
      }
      assert Uncursored(r)[f].slotInts == Uncursored(data)[f].slotInts;
      assert Uncursored(r) == Uncursored(data);
      assert WellFormedFile(file');
      forall s | 1 <= s < SlotRunEnd(data, f)
        ensures var slot := data[f].slotInts[GetSlotIndex(data, f, s)];
                var slot' := r[f].slotInts[GetSlotIndex(data, f, s)];
                slot'.lastSlotId == RandomCursor(|slot.advert|, draw(s))
                && (|slot.advert| >= 2 ==> 0 <= slot'.lastSlotId < |slot.advert| - 1)
      {
        var si := GetSlotIndex(data, f, s);
        assert DoesSlotIntExist(data, f, s);
        AtMost26Ads(file.slotInts[si].advert);
      }
    }
  }

  /** RefreshActiveAdSlots(jsonFileId) as a per-file pass of the file loop. */
  function RefreshFilePass(): (seq<FileData>, nat) -> RefreshRun
  {
    (d: seq<FileData>, g: nat) => RefreshFile(d, g)
  }

  /** RefreshActiveAdSlots(): every file from `f` on, in order; an exception ends the run. */
  function RefreshFilesFrom(data: seq<FileData>, f: nat): (r: RefreshRun)
    ensures OnlyCursorsDiffer(r.data, data)
  {
    RefreshFilePassGood();
    FilesWithFacts(RefreshFilePass(), data, f, |data|);
    FilesWith(RefreshFilePass(), data, f, |data|)
  }

  function RefreshAll(data: seq<FileData>): RefreshRun
  {
    RefreshFilesFrom(data, 0)
  }

  /** A download started on a catalog, then a run on the catalog left: all showable. */
  lemma StartsShowableCons(data: seq<FileData>, ref: AdRef, rest: RefreshRun)
    requires ValidRef(data, ref) && Showable(AdAt(data, ref))
    requires StartsShowable(rest) && OnlyCursorsDiffer(rest.data, data)
    ensures StartsShowable(RefreshRun(rest.data, [ref] + rest.started, rest.fault))
  {
    StartsShowableAppend(RefreshRun(data, [ref], None), rest);
  }

  /** Downloads started on a catalog stay valid and showable once only cursors moved. */
  lemma StartsShowableAppend(a: RefreshRun, b: RefreshRun)
    requires StartsShowable(a) && StartsShowable(b)
    requires OnlyCursorsDiffer(a.data, b.data)
    ensures StartsShowable(RefreshRun(b.data, a.started + b.started, b.fault))
  {
    var s := a.started + b.started;
    forall k | 0 <= k < |s|
      ensures ValidRef(b.data, s[k]) && Showable(AdAt(b.data, s[k]))
    {
      if k < |a.started| {
        OnlyCursorsDifferAt(a.data, b.data, a.started[k]);
      } else {
        assert s[k] == b.started[k - |a.started|];
      }
    }
  }

  lemma RefreshFileKeepsLength(data: seq<FileData>, f: nat)
    ensures |RefreshFile(data, f).data| == |data|
  {
    OnlyCursorsDifferKeys(RefreshFile(data, f).data, data);
  }

  // ---- The file loop over an abstract per-file refresh. ----

  /** RefreshActiveAdSlots()' loop over files `f` .. `n` - 1 with `pass` as its body. */
  function FilesWith(pass: (seq<FileData>, nat) -> RefreshRun, data: seq<FileData>, f: nat, n: nat): RefreshRun
    decreases n - f
  {
    if f >= n then RefreshRun(data, [], None)
    else
      var run := pass(data, f);
      if run.fault.Some? then run
      else
        var rest := FilesWith(pass, run.data, f + 1, n);
        RefreshRun(rest.data, run.started + rest.started, rest.fault)
  }

  /** `pass` refreshes every file as RefreshActiveAdSlots(jsonFileId) does. */
  ghost predicate RefreshPassIs(pass: (seq<FileData>, nat) -> RefreshRun)
  {
    forall d: seq<FileData>, g: nat {:trigger RefreshFile(d, g)} :: pass(d, g) == RefreshFile(d, g)
  }

  lemma RefreshPassExists()
    ensures exists pass :: RefreshPassIs(pass)
  {
    assert RefreshPassIs(RefreshFilePass());
  }

  /** Two passes that agree everywhere make the same loop. */
  lemma {:induction false} FilesWithSame(p: (seq<FileData>, nat) -> RefreshRun, q: (seq<FileData>, nat) -> RefreshRun,
                                         data: seq<FileData>, f: nat, n: nat)
    requires forall d: seq<FileData>, g: nat :: p(d, g) == q(d, g)
    ensures FilesWith(p, data, f, n) == FilesWith(q, data, f, n)
    decreases n - f
  {
    if f < n {
      var run := p(data, f);
      if run.fault.None? {
        FilesWithSame(p, q, run.data, f + 1, n);
      }
    }
  }

  /** With such a pass the loop is RefreshActiveAdSlots(). */
  lemma FilesWithIsRefreshAll(pass: (seq<FileData>, nat) -> RefreshRun, data: seq<FileData>)
    requires RefreshPassIs(pass)
    ensures FilesWith(pass, data, 0, |data|) == RefreshAll(data)
  {
    forall d: seq<FileData>, g: nat ensures pass(d, g) == RefreshFilePass()(d, g) {
      assert pass(d, g) == RefreshFile(d, g);
    }
    FilesWithSame(pass, RefreshFilePass(), data, 0, |data|);
  }

  /** RefreshActiveAdSlots() before its first file. */
  lemma FilesWithEntry(pass: (seq<FileData>, nat) -> RefreshRun, data: seq<FileData>, n: nat)
    ensures FilesWith(pass, data, 0, n) == Then([], FilesWith(pass, data, 0, n))
  {
    assert [] + FilesWith(pass, data, 0, n).started == FilesWith(pass, data, 0, n).started;
  }

  /** A file whose refresh throws ends RefreshActiveAdSlots(): `after`, `mine` and `e` are
      what the pass left, started and threw on `before`. */
  lemma FilesWithThrows(pass: (seq<FileData>, nat) -> RefreshRun, run: RefreshRun, started: seq<AdRef>,
                        before: seq<FileData>, f: nat, n: nat, after: seq<FileData>, mine: seq<AdRef>, e: Fault)
    requires f < n && run == Then(started, FilesWith(pass, before, f, n))
    requires pass(before, f) == RefreshRun(after, mine, Some(e))
    ensures run == RefreshRun(after, started + mine, Some(e))
  {
  }

  /** A file whose refresh completes adds the downloads it started. */
  lemma FilesWithStep(pass: (seq<FileData>, nat) -> RefreshRun, run: RefreshRun, started: seq<AdRef>,
                      before: seq<FileData>, f: nat, n: nat, after: seq<FileData>, mine: seq<AdRef>)
    requires f < n && run == Then(started, FilesWith(pass, before, f, n))
    requires pass(before, f) == RefreshRun(after, mine, None)
    ensures run == Then(started + mine, FilesWith(pass, after, f + 1, n))
  {
    ThenStep(started, mine, FilesWith(pass, before, f, n), FilesWith(pass, after, f + 1, n));
  }

  /** RefreshActiveAdSlots() after its last file. */
  lemma FilesWithExit(pass: (seq<FileData>, nat) -> RefreshRun, run: RefreshRun, started: seq<AdRef>,
                      data: seq<FileData>, f: nat, n: nat)
    requires f >= n && run == Then(started, FilesWith(pass, data, f, n))
    ensures run == RefreshRun(data, started, None)
  {
    assert started + [] == started;
  }

  /** What every per-file refresh does: it moves cursors only, keeps a well-formed catalog
      well formed, and starts downloads of showable ads only. */
  ghost predicate GoodPass(pass: (seq<FileData>, nat) -> RefreshRun)
  {
    forall d: seq<FileData>, f: nat :: OnlyCursorsDiffer(pass(d, f).data, d) && StartsShowable(pass(d, f))
                                       && (WellFormed(d) ==> WellFormed(pass(d, f).data))
  }

  lemma RefreshFilePassGood()
    ensures GoodPass(RefreshFilePass())
  {
    var pass := RefreshFilePass();
    forall d: seq<FileData>, f: nat
      ensures OnlyCursorsDiffer(pass(d, f).data, d) && StartsShowable(pass(d, f))
              && (WellFormed(d) ==> WellFormed(pass(d, f).data))
    {
      assert pass(d, f) == RefreshFile(d, f);
      RefreshFromStartsShowable(d, f, 1, SlotRunEnd(d, f));
      if WellFormed(d) {
        RefreshFromKeepsWellFormed(d, f, 1, SlotRunEnd(d, f));
      }
    }
  }

  lemma {:induction false} FilesWithFacts(pass: (seq<FileData>, nat) -> RefreshRun, data: seq<FileData>, f: nat, n: nat)
    requires GoodPass(pass)
    ensures OnlyCursorsDiffer(FilesWith(pass, data, f, n).data, data) && StartsShowable(FilesWith(pass, data, f, n))
    ensures WellFormed(data) ==> WellFormed(FilesWith(pass, data, f, n).data)
    decreases n - f
  {
    if f < n {
      var run := pass(data, f);
      if run.fault.None? {
        var rest := FilesWith(pass, run.data, f + 1, n);
        FilesWithFacts(pass, run.data, f + 1, n);
        StartsShowableAppend(run, rest);
      }
    }
  }

  /** RefreshActiveAdSlots() starts downloads of showable ads of the catalog it leaves, and
      keeps a well-formed catalog well formed. */
  lemma RefreshFilesFromFacts(data: seq<FileData>, f: nat)
    ensures StartsShowable(RefreshFilesFrom(data, f))
    ensures WellFormed(data) ==> WellFormed(RefreshFilesFrom(data, f).data)
  {
    RefreshFilePassGood();
    FilesWithFacts(RefreshFilePass(), data, f, |data|);
  }
}
