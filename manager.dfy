/** The manager object itself (IAS_Manager.cs): the catalog, the texture list, the installed
    apps and the stored preference, changed in place by its methods. Every method is proved
    against the function that specifies it and keeps the manager's invariant. */
module Manager {
  import opened Results
  import opened Catalog
  import opened Rotation
  import opened Manifest
  import opened ImageCache
  import opened Session
  import opened Sync
  import Text

  class IasManager {
    const bundleId: string
    const platform: Platform
    /** advertData: one file per manifest URL. */
    var advertData: seq<FileData>
    /** advertTextures: the textures the ads index with adTextureId. */
    var advertTextures: seq<Texture>
    /** installedApps: lower-cased package names of the publisher's installed games. */
    var installedApps: seq<string>
    /** The "IASAdvertData" player preference. */
    var store: Blob

    /** Well-formed catalogs, in memory and stored, and every ready ad indexing a texture. */
    ghost predicate Valid()
      reads this`advertData, this`advertTextures, this`store
    {
      WellFormed(advertData) && TexturesIndexed(advertData, |advertTextures|)
      && (store.Encoded? ==> WellFormed(store.catalog))
    }

    /** A fresh manager: empty lists, and whatever the previous session stored. */
    constructor (bundleId: string, platform: Platform, stored: Blob)
      ensures this.bundleId == bundleId && this.platform == platform
      ensures advertData == [] && advertTextures == [] && installedApps == [] && store == stored
      ensures Valid() <==> (stored.Encoded? ==> WellFormed(stored.catalog))
    {
      this.bundleId := bundleId;
      this.platform := platform;
      advertData := [];
      advertTextures := [];
      installedApps := [];
      store := stored;
    }

    /** UpdateInstalledPackages, given what JarLoader.GetPackageList("com.pickle.") returned:
        the list is cleared, then filled from the cleaned package list; a list of only white
        space throws after the list was cleared. */
    method UpdateInstalledPackages(packageList: string) returns (fault: Option<Fault>)
      modifies this
      ensures CleanPackageList(packageList).Success? ==>
                fault == None && installedApps == CleanPackageList(packageList).value
      ensures CleanPackageList(packageList).Failure? ==>
                fault == Some(CleanPackageList(packageList).error) && installedApps == []
      ensures advertData == old(advertData) && advertTextures == old(advertTextures) && store == old(store)
      ensures Valid() == old(Valid())
    {
      installedApps := [];
      if packageList != [] {
        var trimmed := Text.Trim(packageList);
        if trimmed == [] {
          return Some(ArgumentOutOfRange);
        }
        var packageArray := Text.SplitRemoveEmpty(trimmed[..|trimmed| - 1], ',');
        var i := 0;
        assert packageArray[0..] == packageArray;
        while i < |packageArray|
          invariant 0 <= i <= |packageArray|
          invariant installedApps + CleanNonBlankEntries(packageArray[i..]) == CleanNonBlankEntries(packageArray)
          invariant advertData == old(advertData) && advertTextures == old(advertTextures) && store == old(store)
        {
          CleanNonBlankStep(installedApps, packageArray, i);
          var entry := Text.ToLower(Text.Trim(packageArray[i]));
          if entry != [] {
            AddInstalledApp(entry);
          }
          i := i + 1;
        }
      }
      fault := None;
    }

    /** installedApps.Add(entry). */
    method AddInstalledApp(entry: string)
      modifies this
      ensures installedApps == old(installedApps) + [entry]
      ensures advertData == old(advertData) && advertTextures == old(advertTextures) && store == old(store)
    {
      installedApps := installedApps + [entry];
    }

    /** SaveIASData: the catalog is encoded into the preference. */
    method SaveIASData()
      modifies this
      ensures store == Encoded(advertData)
      ensures advertData == old(advertData) && advertTextures == old(advertTextures) && installedApps == old(installedApps)
      ensures old(Valid()) ==> Valid()
    {
      store := Encoded(advertData);
    }

    /** LoadIASData: the stored catalog replaces the current one and every ad loses its
        texture; the result says whether cached data was loaded. */
    method LoadIASData() returns (r: Result<bool, Fault>)
      modifies this
      ensures var l := Load(old(store), old(advertData));
              (r.Success? <==> l.Success?)
              && (l.Success? ==> r.value == l.value.cachedLoaded && advertData == l.value.data)
              && (l.Failure? ==> r.error == l.error && advertData == old(advertData))
      ensures store == old(store) && advertTextures == old(advertTextures) && installedApps == old(installedApps)
      ensures old(Valid()) ==> Valid()
    {
      match store
      case Empty => r := Success(false);
      case EncodedNull => r := Failure(NullReference);
      case Garbage => r := Failure(BadFormat);
      case Encoded(catalog) =>
        advertData := catalog;
        var f := 0;
        while f < |advertData|
          invariant 0 <= f <= |advertData| == |catalog|
          invariant forall g :: 0 <= g < f ==> advertData[g] == ResetFile(catalog[g])
          invariant forall g :: f <= g < |catalog| ==> advertData[g] == catalog[g]
          invariant store == old(store) && advertTextures == old(advertTextures) && installedApps == old(installedApps)
        {
          var slots := advertData[f].slotInts;
          var k := 0;
          while k < |slots|
            invariant 0 <= k <= |slots| == |catalog[f].slotInts|
            invariant forall q :: 0 <= q < k ==> slots[q] == ResetSlot(catalog[f].slotInts[q])
            invariant forall q :: k <= q < |slots| ==> slots[q] == catalog[f].slotInts[q]
          {
            var ads := slots[k].advert;
            var a := 0;
            while a < |ads|
              invariant 0 <= a <= |ads| == |catalog[f].slotInts[k].advert|
              invariant forall p :: 0 <= p < a ==> ads[p] == ResetAd(catalog[f].slotInts[k].advert[p])
              invariant forall p :: a <= p < |ads| ==> ads[p] == catalog[f].slotInts[k].advert[p]
            {
              ads := ads[a := ads[a].(adTextureId := -1, isTextureReady := false)];
              a := a + 1;
            }
            assert ads == ResetSlot(catalog[f].slotInts[k]).advert;
            slots := slots[k := slots[k].(advert := ads)];
            k := k + 1;
          }
          assert slots == ResetFile(catalog[f]).slotInts;
          advertData := advertData[f := FileData(slots)];
          f := f + 1;
        }
        assert advertData == ResetVolatile(catalog);
        r := Success(true);
        if old(Valid()) {
          ResetKeepsWellFormed(catalog);
          ResetClearsTextures(catalog);
          assert TexturesIndexed(advertData, 0);
          forall g | 0 <= g < |advertData| ensures FileTexturesIndexed(advertData[g], |advertTextures|) {
            assert FileTexturesIndexed(advertData[g], 0);
          }
        }
    }

    /** IsAdReady: whether the ad the slot currently shows has its texture. */
    function IsAdReady(jsonFileId: int, wantedSlotInt: int): (r: bool)
      reads this
      ensures r <==> exists si, ai :: ShowsAd(advertData, jsonFileId, wantedSlotInt, si, ai)
                                       && advertData[jsonFileId].slotInts[si].advert[ai].isTextureReady
    {
      CurrentAdIsShown(advertData, jsonFileId, wantedSlotInt);
      match GetCurrentAd(advertData, jsonFileId, wantedSlotInt)
      case None => false
      case Some(ad) => ad.isTextureReady
    }

    /** GetAdURL: the URL of the ad the slot currently shows, or "" when it shows none. */
    function GetAdURL(jsonFileId: int, wantedSlotInt: int): (r: string)
      reads this
      ensures forall si, ai :: ShowsAd(advertData, jsonFileId, wantedSlotInt, si, ai)
                ==> r == advertData[jsonFileId].slotInts[si].advert[ai].adUrl
      ensures (forall si, ai :: !ShowsAd(advertData, jsonFileId, wantedSlotInt, si, ai)) ==> r == []
    {
      CurrentAdIsShown(advertData, jsonFileId, wantedSlotInt);
      match GetCurrentAd(advertData, jsonFileId, wantedSlotInt)
      case None => []
      case Some(ad) => ad.adUrl
    }

    /** GetAdPackageName: the package name of the ad the slot currently shows, or "". */
    function GetAdPackageName(jsonFileId: int, wantedSlotInt: int): (r: string)
      reads this
      ensures forall si, ai :: ShowsAd(advertData, jsonFileId, wantedSlotInt, si, ai)
                ==> r == advertData[jsonFileId].slotInts[si].advert[ai].packageName
      ensures (forall si, ai :: !ShowsAd(advertData, jsonFileId, wantedSlotInt, si, ai)) ==> r == []
    {
      CurrentAdIsShown(advertData, jsonFileId, wantedSlotInt);
      match GetCurrentAd(advertData, jsonFileId, wantedSlotInt)
      case None => []
      case Some(ad) => ad.packageName
    }

    /** An ad IsAdReady reports ready indexes a texture of the list, so GetAdTexture's list
        access cannot go out of range. */
    lemma ReadyAdHasTexture(jsonFileId: int, wantedSlotInt: int)
      requires Valid() && IsAdReady(jsonFileId, wantedSlotInt)
      ensures 0 <= GetCurrentAd(advertData, jsonFileId, wantedSlotInt).value.adTextureId < |advertTextures|
    {
      CurrentAdIsShown(advertData, jsonFileId, wantedSlotInt);
      var si, ai :| ShowsAd(advertData, jsonFileId, wantedSlotInt, si, ai);
      TexturesIndexedAt(advertData, |advertTextures|, AdRef(jsonFileId, si, ai));
    }

    /** IncSlotChar: the cursor of the slot walks until it finds an ad it may show; the ad
        whose texture download is then started is returned. A missing slot, or a cursor
        letter with no ad, is dereferenced as null. */
    method IncSlotChar(jsonFileId: int, wantedSlotInt: int) returns (r: Result<Option<AdRef>, Fault>)
      modifies this
      ensures IncSlot(old(advertData), jsonFileId, wantedSlotInt) == IncStep(advertData, r)
      ensures advertTextures == old(advertTextures) && installedApps == old(installedApps) && store == old(store)
      ensures old(Valid()) ==> Valid()
    {
      var si := GetSlotIndex(advertData, jsonFileId, wantedSlotInt);
      if si < 0 {
        return Failure(NullReference);
      }
      var w := WalkSlot(jsonFileId, si);
      if w.Accepted? {
        r := Success(Some(AdRef(jsonFileId, si, w.adIndex)));
      } else if w.Exhausted? {
        r := Success(None);
      } else {
        r := Failure(NullReference);
      }
      IncSlotWalk(old(advertData), jsonFileId, wantedSlotInt);
      IncSlotKeepsValid(old(advertData), old(advertTextures), old(store), jsonFileId, wantedSlotInt);
    }

    /** The loop of IncSlotChar on slot `si` of file `f`: at most two laps of the cursor, each
        step moving it and looking up the ad with its letter; installed apps are accepted from
        the second lap on. */
    method WalkSlot(f: nat, si: nat) returns (w: Selection)
      requires f < |advertData| && si < |advertData[f].slotInts|
      modifies this
      ensures w == Select(old(advertData)[f].slotInts[si].advert, old(advertData)[f].slotInts[si].lastSlotId)
      ensures advertData == SetCursor(old(advertData), f, si, w.cursor)
      ensures advertTextures == old(advertTextures) && installedApps == old(installedApps) && store == old(store)
    {
      ghost var data0 := advertData;
      ghost var cursor0: int32 := advertData[f].slotInts[si].lastSlotId;
      var ads := advertData[f].slotInts[si].advert;
      var adSlotCount := |ads|;
      ghost var cursor: int32 := cursor0;
      SetCursorSame(advertData, f, si);
      var isValidAd := false;
      var missing := false;
      var curAd := 0;
      var i := 0;
      while !isValidAd && !missing && i < adSlotCount * 2
        invariant 0 <= i <= adSlotCount * 2
        invariant advertData == SetCursor(data0, f, si, cursor)
        invariant !isValidAd && !missing ==> SelectFrom(ads, cursor, i) == Select(ads, cursor0)
        invariant isValidAd ==> !missing && i >= 1 && Select(ads, cursor0) == Accepted(cursor, curAd, i - 1)
        invariant missing ==> Select(ads, cursor0) == MissingAd(cursor)
        invariant advertTextures == old(advertTextures) && installedApps == old(installedApps) && store == old(store)
        decreases adSlotCount * 2 - i, !isValidAd, !missing
      {
        var next := AdvanceCursor(f, si, adSlotCount);
        SetCursorTwice(data0, f, si, cursor, next);
        // GetAdData(jsonFileId, wantedSlotInt, GetSlotChar(jsonFileId, wantedSlotInt))
        var k := AdIndex(ads, SlotLetter(next));
        WalkStep(ads, cursor0, cursor, i, next, k);
        cursor := next;
        if k < 0 {
          missing := true;
        } else if !ads[k].isSelf && ads[k].isActive {
          if !ads[k].isInstalled || i >= adSlotCount {
            isValidAd := true;
            curAd := k;
          }
        }
        i := i + 1;
      }
      var lastSlotId := advertData[f].slotInts[si].lastSlotId;
      if missing {
        w := MissingAd(lastSlotId);
      } else if isValidAd {
        w := Accepted(lastSlotId, curAd, i - 1);
      } else {
        w := Exhausted(lastSlotId);
      }
    }

    /** One step of the loop of IncSlotChar: the slot's cursor moves to the next position,
        back to 0 past the last one, in 32-bit arithmetic. */
    method AdvanceCursor(f: nat, si: nat, adSlotCount: int) returns (next: int32)
      requires f < |advertData| && si < |advertData[f].slotInts|
      modifies this
      ensures next == NextCursor(old(advertData)[f].slotInts[si].lastSlotId, adSlotCount)
      ensures advertData == SetCursor(old(advertData), f, si, next)
      ensures advertTextures == old(advertTextures) && installedApps == old(installedApps) && store == old(store)
    {
      var lastSlotId := advertData[f].slotInts[si].lastSlotId;
      next := Wrap32(lastSlotId as int + 1);
      if next >= adSlotCount {
        next := 0;
      }
      advertData := SetCursor(advertData, f, si, next);
    }

    /** `curSlotData.lastSlotId = cursor` on slot `si` of file `f`. */
    method SetLastSlotId(f: nat, si: nat, cursor: int32)
      requires f < |advertData| && si < |advertData[f].slotInts|
      modifies this
      ensures advertData == SetCursor(old(advertData), f, si, cursor)
      ensures advertTextures == old(advertTextures) && installedApps == old(installedApps) && store == old(store)
    {
      advertData := SetCursor(advertData, f, si, cursor);
    }

    /** RandomizeAdSlots: slot numbers 1, 2, ... up to the first one missing each get
        `Random.Range(0, advert.Count - 1)` as their cursor; `draw(i)` is the random source
        of slot number `i`. */
    method RandomizeAdSlots(jsonFileId: int, draw: int -> nat)
      modifies this
      ensures advertData == RandomizeFile(old(advertData), jsonFileId, draw)
      ensures advertTextures == old(advertTextures) && installedApps == old(installedApps) && store == old(store)
      ensures old(Valid()) ==> Valid()
    {
      ghost var data0 := advertData;
      ghost var end := SlotRunEnd(advertData, jsonFileId);
      if DoesSlotFileIdExist(advertData, jsonFileId) {
        RandomizedNone(advertData[jsonFileId], draw);
      }
      var i := 1;
      while DoesSlotIntExist(advertData, jsonFileId, i)
        invariant 1 <= i <= end
        invariant advertData == RandomizedUpTo(data0, jsonFileId, i, draw)
        invariant advertTextures == old(advertTextures) && installedApps == old(installedApps) && store == old(store)
        decreases end - i
      {
        var si := GetSlotIndex(advertData, jsonFileId, i);
        var curSlotData := advertData[jsonFileId].slotInts[si];
        var cursor := Wrap32(RandomRange(0, |curSlotData.advert| - 1, draw(i)));
        ghost var before := advertData;
        SetLastSlotId(jsonFileId, si, cursor);
        RandomizeLoopStep(data0, jsonFileId, i, draw, before, si, advertData);
        i := i + 1;
      }
      RandomizedUpToEnd(data0, jsonFileId, i, draw);
      if old(Valid()) {
        RandomizeFileFacts(data0, jsonFileId, draw);
        OnlyCursorsKeepTextures(data0, advertData, |advertTextures|);
      }
    }

    /** RefreshActiveAdSlots(jsonFileId): RefreshBanners, that is IncSlotChar, for slot
        numbers 1, 2, ... up to the first one missing. The texture downloads it starts are
        returned in order; an exception ends the loop and is returned. */
    method RefreshActiveAdSlotsIn(jsonFileId: int) returns (started: seq<AdRef>, fault: Option<Fault>)
      modifies this
      ensures RefreshFile(old(advertData), jsonFileId) == RefreshRun(advertData, started, fault)
      ensures advertTextures == old(advertTextures) && installedApps == old(installedApps) && store == old(store)
      ensures old(Valid()) ==> Valid()
    {
      IncPassExists();
      ghost var inc :| IncPassIs(inc);
      ghost var end := SlotRunEnd(advertData, jsonFileId);
      SlotsWithIsRefreshFile(inc, advertData, jsonFileId);
      ghost var run := SlotsWith(inc, advertData, jsonFileId, 1, end);
      started := [];
      fault := None;
      var i := 1;
      SlotsWithEntry(inc, advertData, jsonFileId, 1, end);
      RunEndByKeys(old(advertData), advertData, jsonFileId, i);
      while DoesSlotIntExist(advertData, jsonFileId, i)
        invariant 1 <= i <= end
        invariant OnlyCursorsDiffer(advertData, old(advertData))
        invariant DoesSlotIntExist(advertData, jsonFileId, i) <==> i < end
        invariant run == Then(started, SlotsWith(inc, advertData, jsonFileId, i, end))
        invariant advertTextures == old(advertTextures) && installedApps == old(installedApps) && store == old(store)
        invariant old(Valid()) ==> Valid()
        decreases end - i
      {
        ghost var before := advertData;
        var r := IncSlotCharBy(inc, jsonFileId, i);
        if r.Failure? {
          SlotsWithThrows(inc, run, started, before, jsonFileId, i, end, advertData, r);
          fault := Some(r.error);
          return;
        }
        SlotsWithStep(inc, run, started, before, jsonFileId, i, end, advertData, r);
        if r.value.Some? {
          started := started + [r.value.value];
        } else {
          assert started + [] == started;
        }
        i := i + 1;
        RunEndByKeys(old(advertData), advertData, jsonFileId, i);
      }
      SlotsWithExit(inc, run, started, advertData, jsonFileId, end);
    }

    /** IncSlotChar seen through a pass that moves cursors as it does. */
    method IncSlotCharBy(ghost inc: (seq<FileData>, int, int) -> IncStep, jsonFileId: int, wantedSlotInt: int)
      returns (r: Result<Option<AdRef>, Fault>)
      requires IncPassIs(inc)
      modifies this
      ensures inc(old(advertData), jsonFileId, wantedSlotInt) == IncStep(advertData, r)
      ensures OnlyCursorsDiffer(advertData, old(advertData))
      ensures advertTextures == old(advertTextures) && installedApps == old(installedApps) && store == old(store)
      ensures old(Valid()) ==> Valid()
    {
      r := IncSlotChar(jsonFileId, wantedSlotInt);
    }

    /** RefreshActiveAdSlots(jsonFileId) seen through a pass that refreshes files as it does. */
    method RefreshActiveAdSlotsBy(ghost pass: (seq<FileData>, nat) -> RefreshRun, jsonFileId: nat)
      returns (started: seq<AdRef>, fault: Option<Fault>)
      requires RefreshPassIs(pass)
      modifies this
      ensures pass(old(advertData), jsonFileId) == RefreshRun(advertData, started, fault)
      ensures |advertData| == |old(advertData)|
      ensures advertTextures == old(advertTextures) && installedApps == old(installedApps) && store == old(store)
      ensures old(Valid()) ==> Valid()
    {
      RefreshFileKeepsLength(advertData, jsonFileId);
      started, fault := RefreshActiveAdSlotsIn(jsonFileId);
    }

    /** RefreshActiveAdSlots(): RefreshActiveAdSlots(jsonFileId) for every file in order. An
        exception in one file ends the whole loop and is returned. */
    method RefreshActiveAdSlots() returns (started: seq<AdRef>, fault: Option<Fault>)
      modifies this
      ensures RefreshAll(old(advertData)) == RefreshRun(advertData, started, fault)
      ensures advertTextures == old(advertTextures) && installedApps == old(installedApps) && store == old(store)
      ensures old(Valid()) ==> Valid()
    {
      RefreshPassExists();
      ghost var pass :| RefreshPassIs(pass);
      FilesWithIsRefreshAll(pass, advertData);
      ghost var n := |advertData|;
      ghost var run := FilesWith(pass, advertData, 0, n);
      started := [];
      fault := None;
      var jsonFileId := 0;
      FilesWithEntry(pass, advertData, n);
      while DoesSlotFileIdExist(advertData, jsonFileId)
        invariant 0 <= jsonFileId <= n && |advertData| == n
        invariant run == Then(started, FilesWith(pass, advertData, jsonFileId, n))
        invariant advertTextures == old(advertTextures) && installedApps == old(installedApps) && store == old(store)
        invariant old(Valid()) ==> Valid()
        decreases n - jsonFileId
      {
        ghost var before := advertData;
        var mine, e := RefreshActiveAdSlotsBy(pass, jsonFileId);
        if e.Some? {
          FilesWithThrows(pass, run, started, before, jsonFileId, n, advertData, mine, e.value);
          started := started + mine;
          fault := e;
          return;
        }
        FilesWithStep(pass, run, started, before, jsonFileId, n, advertData, mine);
        started := started + mine;
        jsonFileId := jsonFileId + 1;
      }
      FilesWithExit(pass, run, started, advertData, jsonFileId, n);
    }

    /** What the record merge reads of the manager: the bundle id, the installed apps and
        the platform, with the image-extension match of the build. */
    function Env(imageFileType: string -> string): (env: MergeEnv)
      reads this`installedApps
      ensures env.bundleId == bundleId && env.installed == installedApps && env.platform == platform
      ensures env.imageFileType == imageFileType
    {
      MergeEnv(bundleId, installedApps, platform, imageFileType)
    }

    /** The record loop of DownloadIASData, merging the manifest's records one by one into
        file `jsonFileId` of the catalog, in place. A bad slot id ends it with the records
        before it merged. The reload flag starts as `reload`, the randomize flag as false. */
    method MergeRecordsInto(jsonFileId: nat, recs: seq<JsonSlotData>, env: MergeEnv, reload: bool) returns (m: FileMerge)
      requires jsonFileId < |advertData|
      modifies this
      ensures m == MergeRecords(old(advertData)[jsonFileId], recs, env, reload, false)
      ensures advertData == old(advertData)[jsonFileId := m.file]
      ensures advertTextures == old(advertTextures) && installedApps == old(installedApps) && store == old(store)
    {
      assert exists merge :: MergeIs(merge, env) by {
        MergeIsMerge(env);
      }
      ghost var merge :| MergeIs(merge, env);
      RecordsWithIs(merge, env, advertData[jsonFileId], recs, reload, false);
      m := MergeRecordsBy(merge, jsonFileId, recs, env, reload);
    }

    /** MergeRecordsInto, stated through the record body `merge`. */
    method MergeRecordsBy(ghost merge: (FileData, JsonSlotData) -> Result<RecordMerge, MergeError>, jsonFileId: nat,
                          recs: seq<JsonSlotData>, env: MergeEnv, reload: bool) returns (m: FileMerge)
      requires jsonFileId < |advertData| && MergeIs(merge, env)
      modifies this
      ensures m == RecordsWith(merge, old(advertData)[jsonFileId], recs, reload, false)
      ensures advertData == old(advertData)[jsonFileId := m.file]
      ensures advertTextures == old(advertTextures) && installedApps == old(installedApps) && store == old(store)
    {
      var file := advertData[jsonFileId];
      ghost var target := RecordsWith(merge, file, recs, reload, false);
      var needToReloadAdSlots := reload;
      var needToRandomizeSlot := false;
      var i := 0;
      while i < |recs|
        invariant 0 <= i <= |recs|
        invariant advertData == old(advertData)[jsonFileId := file]
        invariant RecordsWith(merge, file, recs[i..], needToReloadAdSlots, needToRandomizeSlot) == target
        invariant advertTextures == old(advertTextures) && installedApps == old(installedApps) && store == old(store)
      {
        var one := MergeRecordOf(merge, file, recs[i], env);
        if one.Failure? {
          RecordsWithStops(target, merge, file, recs, i, needToReloadAdSlots, needToRandomizeSlot, one);
          m := Aborted(file, one.error);
          return;
        }
        RecordsWithGoesOn(target, merge, file, recs, i, needToReloadAdSlots, needToRandomizeSlot, one);
        file := one.value.file;
        SetFile(jsonFileId, file);
        needToReloadAdSlots := needToReloadAdSlots || one.value.reload;
        needToRandomizeSlot := needToRandomizeSlot || one.value.newAd;
        i := i + 1;
      }
      RecordsWithDone(target, merge, file, recs, needToReloadAdSlots, needToRandomizeSlot);
      m := Completed(file, needToReloadAdSlots, needToRandomizeSlot);
    }

    /** Replaces file `f` of the catalog. */
    method SetFile(f: nat, file: FileData)
      requires f < |advertData|
      modifies this
      ensures advertData == old(advertData)[f := file]
      ensures advertTextures == old(advertTextures) && installedApps == old(installedApps) && store == old(store)
    {
      advertData := advertData[f := file];
    }

    /** The loop body of DownloadIASData for manifest `jsonFileId`, once its request has
        returned: a failed request stops; the file is added when missing; its records are
        merged; its slots are re-randomized when an ad was added and refreshed when a
        timestamp (or the absence of cached data) asks for it. */
    method MergeManifest(jsonFileId: nat, fetch: Fetch, imageFileType: string -> string, cachedDataLoaded: bool, draw: int -> nat)
      returns (started: seq<AdRef>, end: SyncEnd)
      modifies this
      ensures SyncFile(old(advertData), jsonFileId, fetch, Env(imageFileType), cachedDataLoaded, draw) == SyncRun(advertData, started, end)
      ensures advertTextures == old(advertTextures) && installedApps == old(installedApps) && store == old(store)
      ensures old(Valid()) ==> Valid()
    {
      started := [];
      if RequestFailed(fetch.error, fetch.text) {
        end := FetchStopped(jsonFileId);
        return;
      }
      if !DoesSlotFileIdExist(advertData, jsonFileId) {
        advertData := advertData + [FileData([])];
      }
      if jsonFileId >= |advertData| {
        if fetch.slots == [] {
          end := Done;
        } else {
          match ParseSlotId(fetch.slots[0].slotid)
          case Failure(e) => end := MergeStopped(jsonFileId, e);
          case Success(_) => end := Threw(jsonFileId, ArgumentOutOfRange);
        }
      } else {
        var m := MergeRecordsInto(jsonFileId, fetch.slots, Env(imageFileType), !cachedDataLoaded);
        if m.Aborted? {
          end := MergeStopped(jsonFileId, m.error);
        } else {
          if m.randomize {
            RandomizeAdSlots(jsonFileId, draw);
          }
          if m.reload {
            var fault;
            started, fault := RefreshActiveAdSlotsIn(jsonFileId);
            end := if fault.Some? then Threw(jsonFileId, fault.value) else Done;
          } else {
            end := Done;
          }
        }
      }
      if old(Valid()) {
        SyncFilePreserves(old(advertData), jsonFileId, fetch, Env(imageFileType), cachedDataLoaded, draw, |advertTextures|);
      }
    }

    /** DownloadIASData(cachedDataLoaded), after the wait for a connection: `fetches` are
        the answers to the manifest URLs in order and `draws(j)` the random source of
        manifest j's re-randomization. Every manifest is merged in turn; only a run through
        all of them saves the catalog, any early stop leaves the stored data alone. */
    method DownloadIASData(cachedDataLoaded: bool, fetches: seq<Fetch>, imageFileType: string -> string, draws: nat -> (int -> nat))
      returns (started: seq<AdRef>, end: SyncEnd)
      modifies this
      ensures SyncAll(old(advertData), fetches, Env(imageFileType), cachedDataLoaded, draws) == SyncRun(advertData, started, end)
      ensures end.Done? ==> store == Encoded(advertData)
      ensures !end.Done? ==> store == old(store)
      ensures advertTextures == old(advertTextures) && installedApps == old(installedApps)
      ensures old(Valid()) ==> Valid()
    {
      ghost var env := Env(imageFileType);
      assert exists p :: PassIs(p, fetches, env, cachedDataLoaded, draws) by {
        PassIsPass(fetches, env, cachedDataLoaded, draws);
      }
      ghost var pass :| PassIs(pass, fetches, env, cachedDataLoaded, draws);
      PassIsPass(fetches, env, cachedDataLoaded, draws);
      LoopSamePasses(advertData, 0, pass, Pass(fetches, env, cachedDataLoaded, draws), fetches, env, cachedDataLoaded, draws);
      started, end := MergeManifests(pass, fetches, imageFileType, cachedDataLoaded, draws);
      if end.Done? {
        SaveIASData();
      }
    }

    /** The loop of DownloadIASData over the manifests, `pass` standing for its body: a
        manifest whose pass does not complete ends the loop. */
    method MergeManifests(ghost pass: (seq<FileData>, nat) -> SyncRun, fetches: seq<Fetch>, imageFileType: string -> string,
                          cachedDataLoaded: bool, draws: nat -> (int -> nat))
      returns (started: seq<AdRef>, end: SyncEnd)
      requires PassIs(pass, fetches, Env(imageFileType), cachedDataLoaded, draws)
      modifies this
      ensures Loop(old(advertData), 0, |fetches|, pass) == SyncRun(advertData, started, end)
      ensures advertTextures == old(advertTextures) && installedApps == old(installedApps) && store == old(store)
      ensures old(Valid()) ==> Valid()
    {
      ghost var target := Loop(advertData, 0, |fetches|, pass);
      assert [] + target.started == target.started;
      started := [];
      var jsonFileId := 0;
      while jsonFileId < |fetches|
        invariant 0 <= jsonFileId <= |fetches|
        invariant target == ThenSync(started, Loop(advertData, jsonFileId, |fetches|, pass))
        invariant advertTextures == old(advertTextures) && installedApps == old(installedApps) && store == old(store)
        invariant old(Valid()) ==> Valid()
      {
        ghost var before := advertData;
        var mine, e := MergeManifestAt(pass, jsonFileId, fetches, imageFileType, cachedDataLoaded, draws);
        if !e.Done? {
          LoopStops(target, started, before, jsonFileId, |fetches|, pass, SyncRun(advertData, mine, e));
          started := started + mine;
          end := e;
          return;
        }
        LoopGoesOn(target, started, before, jsonFileId, |fetches|, pass, SyncRun(advertData, mine, e));
        started := started + mine;
        jsonFileId := jsonFileId + 1;
      }
      LoopExit(target, started, advertData, jsonFileId, |fetches|, pass);
      end := Done;
    }

    /** MergeManifest for manifest `jsonFileId`, stated through the loop body `pass`. */
    method MergeManifestAt(ghost pass: (seq<FileData>, nat) -> SyncRun, jsonFileId: nat, fetches: seq<Fetch>,
                           imageFileType: string -> string, cachedDataLoaded: bool, draws: nat -> (int -> nat))
      returns (started: seq<AdRef>, end: SyncEnd)
      requires jsonFileId < |fetches| && PassIs(pass, fetches, Env(imageFileType), cachedDataLoaded, draws)
      modifies this
      ensures pass(old(advertData), jsonFileId) == SyncRun(advertData, started, end)
      ensures advertTextures == old(advertTextures) && installedApps == old(installedApps) && store == old(store)
      ensures old(Valid()) ==> Valid()
    {
      started, end := MergeManifest(jsonFileId, fetches[jsonFileId], imageFileType, cachedDataLoaded, draws(jsonFileId));
    }

    /** DownloadAdTexture(curAdData) for the ad at `ref`, with `env` what the device and the
        network answer. An ad without a current texture that is neither the game itself nor
        inactive gets one, from its cache file when it has one or else from its image URL,
        appended to the texture list; a missing or unreadable cache file is forgotten. */
    method DownloadAdTexture(ref: AdRef, env: TextureEnv) returns (outcome: TextureOutcome)
      requires ValidRef(advertData, ref)
      modifies this
      ensures var r := TextureStep(old(AdAt(advertData, ref)), old(|advertTextures|), env);
              advertData == SetAd(old(advertData), ref, r.ad) && advertTextures == old(advertTextures) + r.added
              && outcome == r.outcome
      ensures installedApps == old(installedApps) && store == old(store)
      ensures old(Valid()) ==> Valid()
    {
      var curAdData := AdAt(advertData, ref);
      SetAdSame(advertData, ref);
      outcome := Notified;
      if NeedsTexture(curAdData) && !curAdData.isSelf && curAdData.isActive {
        if curAdData.isTextureFileCached {
          if !env.fileExists {
            advertData := SetAd(advertData, ref, curAdData.(isTextureFileCached := false));
            outcome := Stopped;
          } else if !env.readOk {
            advertData := SetAd(advertData, ref, curAdData.(isTextureFileCached := false));
            outcome := Thrown;
          } else {
            advertTextures := advertTextures + [FromCacheFile(CacheFileName(curAdData))];
          }
        } else if env.fetchError != [] || Text.Contains(env.fetchText, ServerError) || env.fetchText == [] {
          outcome := Stopped;
        } else {
          advertTextures := advertTextures + [FromImageUrl(curAdData.imgUrl)];
          if !env.writeOk {
            outcome := Thrown;
          } else {
            curAdData := curAdData.(isTextureFileCached := true);
          }
        }
        if outcome == Notified {
          curAdData := curAdData.(adTextureId := |advertTextures| - 1, lastUpdated := curAdData.newUpdateTime, isTextureReady := true);
          advertData := SetAd(advertData, ref, curAdData);
        }
      }
      if old(Valid()) {
        StepKeepsCatalog(old(advertData), ref, old(|advertTextures|), env);
      }
    }

    /** Start, given what JarLoader.GetPackageList returned: on Android the installed apps
        are refreshed, then the stored catalog is loaded and, when there was one, every slot
        gets an active ad. The manifest download it starts runs later (DownloadIASData). */
    method Start(packageList: string) returns (cachedIASDataLoaded: bool, started: seq<AdRef>, fault: Option<Fault>)
      modifies this
      ensures StartUp(platform, packageList, old(installedApps), old(store), old(advertData))
              == Startup(installedApps, advertData, cachedIASDataLoaded, started, fault)
      ensures store == old(store) && advertTextures == old(advertTextures)
      ensures old(Valid()) ==> Valid()
    {
      cachedIASDataLoaded := false;
      started := [];
      fault := None;
      if platform == Android {
        fault := UpdateInstalledPackages(packageList);
        if fault.Some? {
          return;
        }
      }
      var loaded := LoadIASData();
      if loaded.Failure? {
        fault := Some(loaded.error);
        return;
      }
      cachedIASDataLoaded := loaded.value;
      if cachedIASDataLoaded {
        started, fault := RefreshActiveAdSlots();
      }
    }

    /** The invariant holds after IncSlotChar when it held before. */
    lemma IncSlotKeepsValid(data: seq<FileData>, textures: seq<Texture>, stored: Blob, f: int, s: int)
      requires advertData == IncSlot(data, f, s).data && advertTextures == textures && store == stored
      ensures WellFormed(data) && TexturesIndexed(data, |textures|) && (stored.Encoded? ==> WellFormed(stored.catalog))
              ==> Valid()
    {
      if WellFormed(data) {
        IncSlotKeepsWellFormed(data, f, s);
      }
      if TexturesIndexed(data, |textures|) {
        OnlyCursorsKeepTextures(data, advertData, |textures|);
      }
    }
  }

  /** The body of the record loop for one record, stated through `merge`. */
  method MergeRecordOf(ghost merge: (FileData, JsonSlotData) -> Result<RecordMerge, MergeError>, file: FileData,
                       rec: JsonSlotData, env: MergeEnv) returns (one: Result<RecordMerge, MergeError>)
    requires MergeIs(merge, env)
    ensures one == merge(file, rec)
  {
    one := MergeRecord(file, rec, env);
  }

  /** What Start leaves: the installed apps, the catalog, whether cached data was loaded,
      the texture downloads its refresh started, and the exception that ended it. */
  datatype Startup = Startup(installed: seq<string>, data: seq<FileData>, cached: bool, started: seq<AdRef>, fault: Option<Fault>)

  /** Start on a manager holding `installed`, `data` and the stored preference `stored`. */
  function StartUp(platform: Platform, packageList: string, installed: seq<string>, stored: Blob, data: seq<FileData>): (r: Startup)
    ensures r.started != [] ==> r.cached && stored.Encoded?
    ensures r.cached <==> (platform != Android || CleanPackageList(packageList).Success?) && stored.Encoded?
    ensures platform != Android ==> r.installed == installed
  {
    var apps := if platform == Android then CleanPackageList(packageList) else Success(installed);
    if apps.Failure? then Startup([], data, false, [], Some(apps.error))
    else
      var l := Load(stored, data);
      if l.Failure? then Startup(apps.value, data, false, [], Some(l.error))
      else if !l.value.cachedLoaded then Startup(apps.value, l.value.data, false, [], None)
      else
        var run := RefreshAll(l.value.data);
        Startup(apps.value, run.data, true, run.started, run.fault)
  }

  /** Without a stored catalog Start changes no catalog, starts no download and, once the
      package list is read, throws nothing. */
  lemma StartWithoutCache(platform: Platform, packageList: string, installed: seq<string>, data: seq<FileData>)
    requires platform != Android || CleanPackageList(packageList).Success?
    ensures var r := StartUp(platform, packageList, installed, Empty, data);
            r.data == data && !r.cached && r.started == [] && r.fault == None
  {
  }

  /** Every texture download Start begins is for an ad of the catalog it leaves that can be
      shown, and none of them has its texture yet: the loaded catalog has no textures. */
  lemma {:induction false} StartDownloadsShowable(platform: Platform, packageList: string, installed: seq<string>, stored: Blob, data: seq<FileData>)
    ensures var r := StartUp(platform, packageList, installed, stored, data);
            forall k :: 0 <= k < |r.started| ==>
              ValidRef(r.data, r.started[k]) && Showable(AdAt(r.data, r.started[k])) && !AdAt(r.data, r.started[k]).isTextureReady
  {
    var apps := if platform == Android then CleanPackageList(packageList) else Success(installed);
    var l := Load(stored, data);
    if apps.Success? && l.Success? && l.value.cachedLoaded {
      var run := RefreshAll(l.value.data);
      RefreshFilesFromFacts(l.value.data, 0);
      ResetClearsTextures(stored.catalog);
      OnlyCursorsKeepTextures(l.value.data, run.data, 0);
      forall k | 0 <= k < |run.started| ensures !AdAt(run.data, run.started[k]).isTextureReady {
        NoTextureNoneReady(run.data, run.started[k]);
      }
    }
  }

  /** With no textures at all, no ad is ready. */
  lemma NoTextureNoneReady(data: seq<FileData>, ref: AdRef)
    requires TexturesIndexed(data, 0) && ValidRef(data, ref)
    ensures !AdAt(data, ref).isTextureReady
  {
    if AdAt(data, ref).isTextureReady {
      TexturesIndexedAt(data, 0, ref);
    }
  }

  /** Writing an ad back unchanged changes nothing. */
  lemma SetAdSame(data: seq<FileData>, ref: AdRef)
    requires ValidRef(data, ref)
    ensures SetAd(data, ref, AdAt(data, ref)) == data
  {
    var a := SetAd(data, ref, AdAt(data, ref));
    assert a[ref.fileId].slotInts[ref.slotIndex] == data[ref.fileId].slotInts[ref.slotIndex];
    assert a[ref.fileId].slotInts == data[ref.fileId].slotInts;
  }

  /** Setting a cursor to its own value changes nothing. */
  lemma SetCursorSame(data: seq<FileData>, f: nat, si: nat)
    requires f < |data| && si < |data[f].slotInts|
    ensures SetCursor(data, f, si, data[f].slotInts[si].lastSlotId) == data
  {
    var a := SetCursor(data, f, si, data[f].slotInts[si].lastSlotId);
    assert a[f].slotInts == data[f].slotInts;
  }

  /** Setting a cursor twice is setting it once. */
  lemma SetCursorTwice(data: seq<FileData>, f: nat, si: nat, c1: int32, c2: int32)
    requires f < |data| && si < |data[f].slotInts|
    ensures SetCursor(SetCursor(data, f, si, c1), f, si, c2) == SetCursor(data, f, si, c2)
  {
    var a := SetCursor(SetCursor(data, f, si, c1), f, si, c2);
    var b := SetCursor(data, f, si, c2);
    assert a[f].slotInts == b[f].slotInts;
  }
}
