/** The manifest download of the manager (DownloadIASData, IAS_Manager.cs), file by file:
    a failed request stops everything; otherwise the file is created when missing, its
    records are merged, its slots re-randomized when an ad was added and refreshed when a
    timestamp asks for it. Only a run through every file saves the catalog. */
module Sync {
  import opened Results
  import opened Catalog
  import opened Rotation
  import opened Manifest
  import opened ImageCache

  /** What the request for one manifest URL answers: its error and body, and the records the
      body decodes to. */
  datatype Fetch = Fetch(error: string, text: string, slots: seq<JsonSlotData>)

  /** How the download ends: every file was merged (the catalog is then saved); a request
      failed; a record had a bad slot id; or the list index or a refresh threw. */
  datatype SyncEnd =
    | Done
    | FetchStopped(fileId: nat)
    | MergeStopped(fileId: nat, error: MergeError)
    | Threw(fileId: nat, fault: Fault)

  /** The catalog afterwards, the texture downloads the refreshes started, and the end. */
  datatype SyncRun = SyncRun(data: seq<FileData>, started: seq<AdRef>, end: SyncEnd)

  /** The catalog with a file at position `j`: `advertData.Add(new AdJsonFileData())` when
      the file does not exist yet. */
  function EnsureFile(data: seq<FileData>, j: nat): (r: seq<FileData>)
    ensures j < |data| ==> r == data
    ensures j >= |data| ==> r == data + [FileData([])]
  {
    if DoesSlotFileIdExist(data, j) then data else data + [FileData([])]
  }

  /** The loop body of DownloadIASData for manifest `j`, after its request returned. The
      reload flag starts as "no cached data was loaded". */
  function SyncFile(data: seq<FileData>, j: nat, fetch: Fetch, env: MergeEnv, cached: bool, draw: int -> nat): (r: SyncRun)
    ensures r.end.FetchStopped? <==> RequestFailed(fetch.error, fetch.text)
    ensures r.end.FetchStopped? ==> r == SyncRun(data, [], FetchStopped(j))
    ensures !r.end.Done? ==> r.end.fileId == j
    ensures |data| <= |r.data| && (r.end.Done? && j <= |data| ==> j < |r.data|)
    ensures j > |data| && !r.end.FetchStopped? ==>
              r.data == data + [FileData([])] && r.started == []
              && (r.end.Done? <==> fetch.slots == [])
              && (r.end.Threw? <==> fetch.slots != [] && ParseSlotId(fetch.slots[0].slotid).Success?)
  {
    if RequestFailed(fetch.error, fetch.text) then SyncRun(data, [], FetchStopped(j))
    else
      var data1 := EnsureFile(data, j);
      if j >= |data1| then
        // The file added is not file `j`: the refresh finds no slot of file `j`, and the
        // first record either stops the merge or indexes the missing file.
        if fetch.slots == [] then SyncRun(data1, [], Done)
        else
          match ParseSlotId(fetch.slots[0].slotid)
          case Failure(e) => SyncRun(data1, [], MergeStopped(j, e))
          case Success(_) => SyncRun(data1, [], Threw(j, ArgumentOutOfRange))
      else
        match MergeRecords(data1[j], fetch.slots, env, !cached, false)
        case Aborted(file, e) => SyncRun(data1[j := file], [], MergeStopped(j, e))
        case Completed(file, reload, randomize) =>
          var data2 := data1[j := file];
          var data3 := if randomize then RandomizeFile(data2, j, draw) else data2;
          if !reload then SyncRun(data3, [], Done)
          else
            var run := RefreshFile(data3, j);
            SyncRun(run.data, run.started, if run.fault.Some? then Threw(j, run.fault.value) else Done)
  }

  /** The loop of DownloadIASData over manifests `j` .. `n` - 1 with body `pass`: a pass
      that does not complete ends the loop. */
  function Loop(data: seq<FileData>, j: nat, n: nat, pass: (seq<FileData>, nat) -> SyncRun): (r: SyncRun)
    decreases n - j
  {
    if j >= n then SyncRun(data, [], Done)
    else
      var one := pass(data, j);
      if !one.end.Done? then one
      else
        var rest := Loop(one.data, j + 1, n, pass);
        SyncRun(rest.data, one.started + rest.started, rest.end)
  }

  /** The body of DownloadIASData: manifest `i`'s pass; `draws(i)` is the random source of
      its re-randomization. */
  function Pass(fetches: seq<Fetch>, env: MergeEnv, cached: bool, draws: nat -> (int -> nat)): (seq<FileData>, nat) -> SyncRun
  {
    (d: seq<FileData>, i: nat) =>
      if i < |fetches| then SyncFile(d, i, fetches[i], env, cached, draws(i)) else SyncRun(d, [], Done)
  }

  /** DownloadIASData over every manifest URL, after the reachability wait. */
  function SyncAll(data: seq<FileData>, fetches: seq<Fetch>, env: MergeEnv, cached: bool, draws: nat -> (int -> nat)): SyncRun
  {
    Loop(data, 0, |fetches|, Pass(fetches, env, cached, draws))
  }

  /** The downloads `started` so far, then the run `rest`. */
  function ThenSync(started: seq<AdRef>, rest: SyncRun): (r: SyncRun)
    ensures r.data == rest.data && r.end == rest.end && |r.started| == |started| + |rest.started|
  {
    SyncRun(rest.data, started + rest.started, rest.end)
  }

  /** A pass that does not complete ends the loop with what it left. */
  lemma LoopStops(target: SyncRun, started: seq<AdRef>, before: seq<FileData>, j: nat, n: nat,
                  pass: (seq<FileData>, nat) -> SyncRun, one: SyncRun)
    requires j < n && target == ThenSync(started, Loop(before, j, n, pass))
    requires one == pass(before, j) && !one.end.Done?
    ensures target == SyncRun(one.data, started + one.started, one.end)
  {
  }

  /** A pass that completes adds its downloads and carries the loop on. */
  lemma LoopGoesOn(target: SyncRun, started: seq<AdRef>, before: seq<FileData>, j: nat, n: nat,
                   pass: (seq<FileData>, nat) -> SyncRun, one: SyncRun)
    requires j < n && target == ThenSync(started, Loop(before, j, n, pass))
    requires one == pass(before, j) && one.end.Done?
    ensures target == ThenSync(started + one.started, Loop(one.data, j + 1, n, pass))
  {
    var rest := Loop(one.data, j + 1, n, pass);
    assert started + (one.started + rest.started) == (started + one.started) + rest.started;
  }

  /** The loop after its last manifest. */
  lemma LoopExit(target: SyncRun, started: seq<AdRef>, data: seq<FileData>, j: nat, n: nat, pass: (seq<FileData>, nat) -> SyncRun)
    requires j >= n && target == ThenSync(started, Loop(data, j, n, pass))
    ensures target == SyncRun(data, started, Done)
  {
    assert started + [] == started;
  }

  /** `pass` does for every manifest what DownloadIASData's body does. */
  ghost predicate PassIs(pass: (seq<FileData>, nat) -> SyncRun, fetches: seq<Fetch>, env: MergeEnv, cached: bool, draws: nat -> (int -> nat))
  {
    forall d: seq<FileData>, i: nat {:trigger SyncFile(d, i, fetches[i], env, cached, draws(i))} ::
      i < |fetches| ==> pass(d, i) == SyncFile(d, i, fetches[i], env, cached, draws(i))
  }

  lemma PassIsPass(fetches: seq<Fetch>, env: MergeEnv, cached: bool, draws: nat -> (int -> nat))
    ensures PassIs(Pass(fetches, env, cached, draws), fetches, env, cached, draws)
  {
  }

  /** Two bodies that both do what DownloadIASData's body does give the same loop. */
  lemma {:induction false} LoopSamePasses(data: seq<FileData>, j: nat, p: (seq<FileData>, nat) -> SyncRun, q: (seq<FileData>, nat) -> SyncRun,
                                          fetches: seq<Fetch>, env: MergeEnv, cached: bool, draws: nat -> (int -> nat))
    requires PassIs(p, fetches, env, cached, draws) && PassIs(q, fetches, env, cached, draws)
    ensures Loop(data, j, |fetches|, p) == Loop(data, j, |fetches|, q)
    decreases |fetches| - j
  {
    if j < |fetches| {
      assert p(data, j) == SyncFile(data, j, fetches[j], env, cached, draws(j)) == q(data, j);
      LoopSamePasses(p(data, j).data, j + 1, p, q, fetches, env, cached, draws);
    }
  }

  // ---- What one file's pass keeps. ----

  /** A catalog whose cursors alone changed still extends the old one. */
  lemma OnlyCursorsExtend(a: seq<FileData>, b: seq<FileData>, f: int)
    requires OnlyCursorsDiffer(a, b) && 0 <= f < |a|
    ensures |b| == |a| && FileExtends(a[f], b[f])
  {
    OnlyCursorsDifferKeys(a, b);
    forall k | 0 <= k < |a[f].slotInts|
      ensures a[f].slotInts[k].advert == b[f].slotInts[k].advert
    {
      assert Uncursored(a)[f].slotInts[k] == Uncursored(b)[f].slotInts[k];
    }
  }

  /** Changing cursors only keeps every texture index. */
  lemma OnlyCursorsKeepTextures(a: seq<FileData>, b: seq<FileData>, n: nat)
    requires OnlyCursorsDiffer(a, b) && TexturesIndexed(a, n)
    ensures TexturesIndexed(b, n)
  {
    OnlyCursorsDifferKeys(a, b);
    forall f | 0 <= f < |b| ensures FileTexturesIndexed(b[f], n) {
      assert FileTexturesIndexed(a[f], n);
      forall k | 0 <= k < |b[f].slotInts| ensures b[f].slotInts[k].advert == a[f].slotInts[k].advert {
        assert Uncursored(a)[f].slotInts[k] == Uncursored(b)[f].slotInts[k];
      }
    }
  }

  /** Changing cursors only keeps every record's ad. */
  lemma OnlyCursorsKeepRecords(a: seq<FileData>, b: seq<FileData>, f: int, rec: JsonSlotData)
    requires OnlyCursorsDiffer(a, b) && 0 <= f < |a| && HasRecord(a[f], rec)
    ensures HasRecord(b[f], rec)
  {
    OnlyCursorsDifferKeys(a, b);
    var id := KeyOf(rec).value;
    SameKeysSlotIndex(a[f].slotInts, b[f].slotInts, id.slotInt, 0);
    var si := SlotIndex(a[f].slotInts, id.slotInt);
    assert Uncursored(a)[f].slotInts[si] == Uncursored(b)[f].slotInts[si];
  }

  /** Every ready ad of the list indexes one of `n` textures. */
  predicate AdsIndexed(ads: seq<AdData>, n: nat)
  {
    forall j :: 0 <= j < |ads| && ads[j].isTextureReady ==> 0 <= ads[j].adTextureId < n
  }

  lemma FileIndexedBySlots(file: FileData, n: nat)
    ensures FileTexturesIndexed(file, n) <==> forall k :: 0 <= k < |file.slotInts| ==> AdsIndexed(file.slotInts[k].advert, n)
  {
  }

  /** Writing an ad with the same texture fields keeps the list's texture indices. */
  lemma WriteKeepsAdsIndexed(ads: seq<AdData>, ai: int, ad: AdData, n: nat)
    requires AdsIndexed(ads, n) && 0 <= ai < |ads| && SameCacheState(ad, ads[ai])
    ensures AdsIndexed(ads[ai := ad], n)
  {
  }

  /** Every ready ad of every slot indexes one of `n` textures. */
  predicate SlotsIndexed(slots: seq<SlotData>, n: nat)
  {
    forall k :: 0 <= k < |slots| ==> AdsIndexed(slots[k].advert, n)
  }

  lemma UpsertKeepsIndexed(slots: seq<SlotData>, s: int, c: char16, n: nat)
    requires SlotsIndexed(slots, n)
    ensures SlotsIndexed(UpsertSlot(slots, s), n)
    ensures var slots' := UpsertSlot(slots, s);
            AdsIndexed(UpsertAd(slots'[SlotIndex(slots', s)].advert, c), n)
  {
    var slots' := UpsertSlot(slots, s);
    assert SlotsIndexed(slots', n) by {
      if SlotIndex(slots, s) < 0 {
        assert slots' == slots + [NewSlot(s)];
      }
    }
    var ads := slots'[SlotIndex(slots', s)].advert;
    assert AdsIndexed(ads, n);
    if AdIndex(ads, c) < 0 {
      assert UpsertAd(ads, c) == ads + [NewAd(c)];
    }
  }

  lemma SetSlotAdsKeepsIndexed(slots: seq<SlotData>, si: int, ads: seq<AdData>, n: nat)
    requires SlotsIndexed(slots, n) && 0 <= si < |slots| && AdsIndexed(ads, n)
    ensures SlotsIndexed(slots[si := slots[si].(advert := ads)], n)
  {
  }

  /** A record's merge keeps every ready ad indexing a texture: the ads it adds have none and
      the ad it writes keeps its texture fields. */
  lemma MergeRecordKeepsTextures(file: FileData, rec: JsonSlotData, env: MergeEnv, n: nat)
    requires FileTexturesIndexed(file, n) && MergeRecord(file, rec, env).Success?
    ensures FileTexturesIndexed(MergeRecord(file, rec, env).value.file, n)
  {
    var id := ParseSlotId(rec.slotid).value;
    FileIndexedBySlots(file, n);
    UpsertKeepsIndexed(file.slotInts, id.slotInt, id.slotChar, n);
    var slots := UpsertSlot(file.slotInts, id.slotInt);
    var si := SlotIndex(slots, id.slotInt);
    var ads := UpsertAd(slots[si].advert, id.slotChar);
    var ai := AdIndex(ads, id.slotChar);
    var ads' := ads[ai := Refreshed(ads[ai], rec, env)];
    WriteKeepsAdsIndexed(ads, ai, Refreshed(ads[ai], rec, env), n);
    SetSlotAdsKeepsIndexed(slots, si, ads', n);
    var file' := FileData(slots[si := slots[si].(advert := ads')]);
    assert MergeRecord(file, rec, env).value.file == file';
    FileIndexedBySlots(file', n);
  }

  lemma {:induction false} MergeRecordsKeepTextures(file: FileData, recs: seq<JsonSlotData>, env: MergeEnv, reload: bool, randomize: bool, n: nat)
    requires FileTexturesIndexed(file, n)
    ensures FileTexturesIndexed(MergeRecords(file, recs, env, reload, randomize).file, n)
    decreases |recs|
  {
    if recs != [] && MergeRecord(file, recs[0], env).Success? {
      var m := MergeRecord(file, recs[0], env).value;
      MergeRecordKeepsTextures(file, recs[0], env, n);
      MergeRecordsKeepTextures(m.file, recs[1..], env, reload || m.reload, randomize || m.newAd, n);
    }
  }

  /** The catalog once manifest `j`'s records are merged into its file, before any cursor
      moves. */
  function Merged(data: seq<FileData>, j: nat, fetch: Fetch, env: MergeEnv, cached: bool): (r: seq<FileData>)
    requires j <= |data|
    ensures |r| == |EnsureFile(data, j)| && j < |r|
  {
    var data1 := EnsureFile(data, j);
    data1[j := MergeRecords(data1[j], fetch.slots, env, !cached, false).file]
  }

  /** Randomizing a file changes cursors only, whatever the catalog. */
  lemma RandomizeCursorsOnly(data: seq<FileData>, f: int, draw: int -> nat)
    requires DoesSlotFileIdExist(data, f)
    ensures OnlyCursorsDiffer(RandomizeFile(data, f, draw), data)
  {
    var r := RandomizeFile(data, f, draw);
    assert Uncursored(r)[f].slotInts == Uncursored(data)[f].slotInts;
    assert Uncursored(r) == Uncursored(data);
  }

  /** After the merge, a pass moves cursors only. */
  lemma SyncFileMovesCursors(data: seq<FileData>, j: nat, fetch: Fetch, env: MergeEnv, cached: bool, draw: int -> nat)
    requires j <= |data| && !RequestFailed(fetch.error, fetch.text)
    ensures OnlyCursorsDiffer(SyncFile(data, j, fetch, env, cached, draw).data, Merged(data, j, fetch, env, cached))
  {
    var data1 := EnsureFile(data, j);
    var m := MergeRecords(data1[j], fetch.slots, env, !cached, false);
    if m.Completed? && m.randomize {
      RandomizeCursorsOnly(data1[j := m.file], j, draw);
    }
  }

  /** A pass touches no file but its own. */
  lemma SyncFileLeavesOtherFiles(data: seq<FileData>, j: nat, fetch: Fetch, env: MergeEnv, cached: bool, draw: int -> nat, g: int)
    requires j <= |data| && 0 <= g < |data| && g != j
    ensures SyncFile(data, j, fetch, env, cached, draw).data[g] == data[g]
  {
    if !RequestFailed(fetch.error, fetch.text) {
      var data1 := EnsureFile(data, j);
      var m := MergeRecords(data1[j], fetch.slots, env, !cached, false);
      if m.Completed? && m.reload {
        var data2 := data1[j := m.file];
        var data3 := if m.randomize then RandomizeFile(data2, j, draw) else data2;
        RefreshLeavesOtherFiles(data3, j, 1, SlotRunEnd(data3, j), g);
      }
    }
  }

  /** A file's refresh touches no other file. */
  lemma {:induction false} RefreshLeavesOtherFiles(data: seq<FileData>, f: int, i: int, end: int, g: int)
    requires 0 <= g < |data| && g != f
    ensures |RefreshFrom(data, f, i, end).data| == |data|
    ensures RefreshFrom(data, f, i, end).data[g] == data[g]
    decreases end - i
  {
    OnlyCursorsDifferKeys(RefreshFrom(data, f, i, end).data, data);
    if i < end {
      var step := IncSlot(data, f, i);
      OnlyCursorsDifferKeys(step.data, data);
      if step.result.Success? {
        RefreshLeavesOtherFiles(step.data, f, i + 1, end, g);
      }
    }
  }

  lemma SetFileKeepsWellFormed(data: seq<FileData>, j: int, file: FileData)
    requires WellFormed(data) && 0 <= j < |data| && WellFormedFile(file)
    ensures WellFormed(data[j := file])
  {
  }

  /** A pass keeps the catalog well formed. */
  lemma SyncFileKeepsWellFormed(data: seq<FileData>, j: nat, fetch: Fetch, env: MergeEnv, cached: bool, draw: int -> nat)
    requires j <= |data| && WellFormed(data)
    ensures WellFormed(SyncFile(data, j, fetch, env, cached, draw).data)
  {
    if !RequestFailed(fetch.error, fetch.text) {
      var data1 := EnsureFile(data, j);
      assert WellFormed(data1) by {
        if j >= |data| {
          assert WellFormedFile(FileData([]));
        }
      }
      MergeRecordsKeepsWellFormed(data1[j], fetch.slots, env, !cached, false);
      var m := MergeRecords(data1[j], fetch.slots, env, !cached, false);
      var data2 := data1[j := m.file];
      SetFileKeepsWellFormed(data1, j, m.file);
      var r := SyncFile(data, j, fetch, env, cached, draw);
      if m.Completed? {
        if m.randomize {
          RandomizeFileFacts(data2, j, draw);
        }
        var data3 := if m.randomize then RandomizeFile(data2, j, draw) else data2;
        assert WellFormed(data3);
        if m.reload {
          RefreshFileFacts(data3, j);
          assert r.data == RefreshFile(data3, j).data;
        } else {
          assert r.data == data3;
        }
      } else {
        assert r.data == data2;
      }
    }
  }

  /** A pass keeps every ready ad indexing a texture of a list of `n`. */
  lemma SyncFileKeepsTextures(data: seq<FileData>, j: nat, fetch: Fetch, env: MergeEnv, cached: bool, draw: int -> nat, n: nat)
    requires j <= |data| && TexturesIndexed(data, n)
    ensures TexturesIndexed(SyncFile(data, j, fetch, env, cached, draw).data, n)
  {
    if !RequestFailed(fetch.error, fetch.text) {
      var data1 := EnsureFile(data, j);
      assert FileTexturesIndexed(data1[j], n);
      MergeRecordsKeepTextures(data1[j], fetch.slots, env, !cached, false, n);
      assert TexturesIndexed(Merged(data, j, fetch, env, cached), n);
      SyncFileMovesCursors(data, j, fetch, env, cached, draw);
      OnlyCursorsKeepTextures(Merged(data, j, fetch, env, cached), SyncFile(data, j, fetch, env, cached, draw).data, n);
    }
  }

  /** A pass keeps the catalog well formed and every ready ad indexing a texture of a list
      of `n`, also when the file index is past the end of the catalog. */
  lemma SyncFilePreserves(data: seq<FileData>, j: nat, fetch: Fetch, env: MergeEnv, cached: bool, draw: int -> nat, n: nat)
    requires WellFormed(data) && TexturesIndexed(data, n)
    ensures var r := SyncFile(data, j, fetch, env, cached, draw);
            WellFormed(r.data) && TexturesIndexed(r.data, n)
  {
    if j <= |data| {
      SyncFileKeepsWellFormed(data, j, fetch, env, cached, draw);
      SyncFileKeepsTextures(data, j, fetch, env, cached, draw, n);
    } else if !RequestFailed(fetch.error, fetch.text) {
      assert SyncFile(data, j, fetch, env, cached, draw).data == data + [FileData([])];
      assert WellFormedFile(FileData([])) && FileTexturesIndexed(FileData([]), n);
    }
  }

  /** A pass keeps every slot and ad of its file, and a completed pass holds an ad for every
      record of the manifest. */
  lemma SyncFileExtends(data: seq<FileData>, j: nat, fetch: Fetch, env: MergeEnv, cached: bool, draw: int -> nat)
    requires j <= |data|
    ensures var r := SyncFile(data, j, fetch, env, cached, draw);
            |data| <= |r.data| <= |data| + 1
            && (j < |data| ==> FileExtends(data[j], r.data[j]))
            && (r.end.Done? ==> j < |r.data| && forall k :: 0 <= k < |fetch.slots| ==> HasRecord(r.data[j], fetch.slots[k]))
  {
    var r := SyncFile(data, j, fetch, env, cached, draw);
    if !RequestFailed(fetch.error, fetch.text) {
      var data1 := EnsureFile(data, j);
      var merged := Merged(data, j, fetch, env, cached);
      MergeRecordsExtends(data1[j], fetch.slots, env, !cached, false);
      SyncFileMovesCursors(data, j, fetch, env, cached, draw);
      OnlyCursorsExtend(merged, r.data, j);
      if j < |data| {
        FileExtendsTransitive(data[j], merged[j], r.data[j]);
      }
      if r.end.Done? {
        MergeRecordsAllPresent(data1[j], fetch.slots, env, !cached, false, []);
        forall k | 0 <= k < |fetch.slots| ensures HasRecord(r.data[j], fetch.slots[k]) {
          OnlyCursorsKeepRecords(merged, r.data, j, fetch.slots[k]);
        }
      }
    }
  }

  /** Every download a pass starts is for a showable ad; the only exception a pass whose
      files so far exist can raise is a refresh's null dereference. */
  lemma SyncFileStarts(data: seq<FileData>, j: nat, fetch: Fetch, env: MergeEnv, cached: bool, draw: int -> nat)
    requires j <= |data|
    ensures var r := SyncFile(data, j, fetch, env, cached, draw);
            StartsShowable(RefreshRun(r.data, r.started, None))
            && (forall k :: 0 <= k < |r.started| ==> r.started[k].fileId == j)
            && (r.end.Threw? ==> r.end.fault == NullReference)
  {
    if !RequestFailed(fetch.error, fetch.text) {
      var data1 := EnsureFile(data, j);
      var m := MergeRecords(data1[j], fetch.slots, env, !cached, false);
      if m.Completed? && m.reload {
        var data2 := data1[j := m.file];
        var data3 := if m.randomize then RandomizeFile(data2, j, draw) else data2;
        RefreshFromStartsShowable(data3, j, 1, SlotRunEnd(data3, j));
        RefreshFaultIsNull(data3, j, 1, SlotRunEnd(data3, j));
      }
    }
  }

  /** IncSlotChar raises only null dereferences, so a refresh does too. */
  lemma {:induction false} RefreshFaultIsNull(data: seq<FileData>, f: int, i: int, end: int)
    ensures RefreshFrom(data, f, i, end).fault.Some? ==> RefreshFrom(data, f, i, end).fault.value == NullReference
    decreases end - i
  {
    if i < end {
      var step := IncSlot(data, f, i);
      if step.result.Success? {
        RefreshFaultIsNull(step.data, f, i + 1, end);
      }
    }
  }

  // ---- The loop, whatever its body. ----

  /** `b` keeps every file of `a`, and each of them extends. */
  predicate CatalogExtends(a: seq<FileData>, b: seq<FileData>)
  {
    |a| <= |b| && forall g :: 0 <= g < |a| ==> FileExtends(a[g], b[g])
  }

  lemma CatalogExtendsTransitive(a: seq<FileData>, b: seq<FileData>, c: seq<FileData>)
    requires CatalogExtends(a, b) && CatalogExtends(b, c)
    ensures CatalogExtends(a, c)
  {
    forall g | 0 <= g < |a| ensures FileExtends(a[g], c[g]) {
      FileExtendsTransitive(a[g], b[g], c[g]);
    }
  }

  /** Pass `i` (below `n`, on a catalog holding files 0 .. `i` - 1) keeps every file but its
      own, and a completed pass holds file `i`. */
  ghost predicate KeepsOthers(pass: (seq<FileData>, nat) -> SyncRun, n: nat)
  {
    forall d: seq<FileData>, i: nat :: i < n && i <= |d| ==>
      |d| <= |pass(d, i).data| && (pass(d, i).end.Done? ==> i < |pass(d, i).data|)
      && forall g :: 0 <= g < |d| && g != i ==> pass(d, i).data[g] == d[g]
  }

  /** Every such pass keeps the catalog well formed. */
  ghost predicate KeepsWellFormed(pass: (seq<FileData>, nat) -> SyncRun, n: nat)
  {
    forall d: seq<FileData>, i: nat :: i < n && i <= |d| && WellFormed(d) ==> WellFormed(pass(d, i).data)
  }

  /** Every such pass keeps every ready ad indexing one of `m` textures. */
  ghost predicate KeepsTextures(pass: (seq<FileData>, nat) -> SyncRun, n: nat, m: nat)
  {
    forall d: seq<FileData>, i: nat :: i < n && i <= |d| && TexturesIndexed(d, m) ==> TexturesIndexed(pass(d, i).data, m)
  }

  /** Every such pass only appends. */
  ghost predicate Appends(pass: (seq<FileData>, nat) -> SyncRun, n: nat)
  {
    forall d: seq<FileData>, i: nat :: i < n && i <= |d| ==> CatalogExtends(d, pass(d, i).data)
  }

  /** Every such pass starts downloads for showable ads of its own file only. */
  ghost predicate StartsOwn(pass: (seq<FileData>, nat) -> SyncRun, n: nat)
  {
    forall d: seq<FileData>, i: nat :: i < n && i <= |d| ==>
      StartsShowable(RefreshRun(pass(d, i).data, pass(d, i).started, None))
      && forall k :: 0 <= k < |pass(d, i).started| ==> pass(d, i).started[k].fileId == i
  }

  /** Every such pass that stops names itself, and its end satisfies `endOk`. */
  ghost predicate EndsOwn(pass: (seq<FileData>, nat) -> SyncRun, n: nat, endOk: SyncEnd -> bool)
  {
    forall d: seq<FileData>, i: nat :: i < n && i <= |d| && !pass(d, i).end.Done? ==>
      pass(d, i).end.fileId == i && endOk(pass(d, i).end)
  }

  /** Every such pass that completes leaves its own file satisfying `ok`. */
  ghost predicate DoneOwn(pass: (seq<FileData>, nat) -> SyncRun, n: nat, ok: (FileData, nat) -> bool)
  {
    forall d: seq<FileData>, i: nat :: i < n && i <= |d| && pass(d, i).end.Done? ==>
      i < |pass(d, i).data| && ok(pass(d, i).data[i], i)
  }

  lemma {:induction false} LoopGrows(data: seq<FileData>, j: nat, n: nat, pass: (seq<FileData>, nat) -> SyncRun, g: nat)
    requires KeepsOthers(pass, n) && j <= |data| && g < j
    ensures var r := Loop(data, j, n, pass);
            |data| <= |r.data| && (r.end.Done? ==> n <= |r.data|) && r.data[g] == data[g]
    decreases n - j
  {
    if j < n {
      var one := pass(data, j);
      if one.end.Done? {
        LoopGrows(one.data, j + 1, n, pass, g);
      }
    }
  }

  lemma {:induction false} LoopKeepsWellFormed(data: seq<FileData>, j: nat, n: nat, pass: (seq<FileData>, nat) -> SyncRun)
    requires KeepsOthers(pass, n) && KeepsWellFormed(pass, n) && j <= |data| && WellFormed(data)
    ensures WellFormed(Loop(data, j, n, pass).data)
    decreases n - j
  {
    if j < n {
      var one := pass(data, j);
      if one.end.Done? {
        LoopKeepsWellFormed(one.data, j + 1, n, pass);
      }
    }
  }

  lemma {:induction false} LoopKeepsTextures(data: seq<FileData>, j: nat, n: nat, pass: (seq<FileData>, nat) -> SyncRun, m: nat)
    requires KeepsOthers(pass, n) && KeepsTextures(pass, n, m) && j <= |data| && TexturesIndexed(data, m)
    ensures TexturesIndexed(Loop(data, j, n, pass).data, m)
    decreases n - j
  {
    if j < n {
      var one := pass(data, j);
      if one.end.Done? {
        LoopKeepsTextures(one.data, j + 1, n, pass, m);
      }
    }
  }

  lemma {:induction false} LoopAppends(data: seq<FileData>, j: nat, n: nat, pass: (seq<FileData>, nat) -> SyncRun)
    requires KeepsOthers(pass, n) && Appends(pass, n) && j <= |data|
    ensures CatalogExtends(data, Loop(data, j, n, pass).data)
    decreases n - j
  {
    if j < n {
      var one := pass(data, j);
      if one.end.Done? {
        LoopAppends(one.data, j + 1, n, pass);
        CatalogExtendsTransitive(data, one.data, Loop(one.data, j + 1, n, pass).data);
      }
    }
  }

  lemma {:induction false} LoopStartsShowable(data: seq<FileData>, j: nat, n: nat, pass: (seq<FileData>, nat) -> SyncRun)
    requires KeepsOthers(pass, n) && StartsOwn(pass, n) && j <= |data|
    ensures var r := Loop(data, j, n, pass);
            StartsShowable(RefreshRun(r.data, r.started, None))
            && forall k :: 0 <= k < |r.started| ==> j <= r.started[k].fileId < n
    decreases n - j
  {
    if j < n {
      var one := pass(data, j);
      if one.end.Done? {
        LoopStartsShowable(one.data, j + 1, n, pass);
        LoopGrows(one.data, j + 1, n, pass, j);
        var rest := Loop(one.data, j + 1, n, pass);
        var r := Loop(data, j, n, pass);
        assert r.data == rest.data && r.started == one.started + rest.started;
        forall k | 0 <= k < |r.started|
          ensures ValidRef(r.data, r.started[k]) && Showable(AdAt(r.data, r.started[k]))
          ensures j <= r.started[k].fileId < n
        {
          if k < |one.started| {
            assert r.started[k] == one.started[k];
            assert ValidRef(one.data, one.started[k]);
          } else {
            assert r.started[k] == rest.started[k - |one.started|];
          }
        }
      }
    }
  }

  lemma {:induction false} LoopEnds(data: seq<FileData>, j: nat, n: nat, pass: (seq<FileData>, nat) -> SyncRun, endOk: SyncEnd -> bool)
    requires KeepsOthers(pass, n) && EndsOwn(pass, n, endOk) && j <= |data|
    ensures var r := Loop(data, j, n, pass);
            !r.end.Done? ==> j <= r.end.fileId < n && endOk(r.end)
    decreases n - j
  {
    if j < n {
      var one := pass(data, j);
      if one.end.Done? {
        LoopEnds(one.data, j + 1, n, pass, endOk);
      }
    }
  }

  lemma {:induction false} LoopDone(data: seq<FileData>, j: nat, n: nat, pass: (seq<FileData>, nat) -> SyncRun, ok: (FileData, nat) -> bool)
    requires KeepsOthers(pass, n) && DoneOwn(pass, n, ok) && j <= |data|
    requires Loop(data, j, n, pass).end.Done?
    ensures var r := Loop(data, j, n, pass);
            n <= |r.data| && forall g :: j <= g < n ==> ok(r.data[g], g)
    decreases n - j
  {
    if j < n {
      var one := pass(data, j);
      var rest := Loop(one.data, j + 1, n, pass);
      assert Loop(data, j, n, pass).data == rest.data;
      LoopDone(one.data, j + 1, n, pass, ok);
      LoopGrows(one.data, j + 1, n, pass, j);
    }
  }

  // ---- The download's body obeys the laws. ----

  lemma PassKeepsOthers(fetches: seq<Fetch>, env: MergeEnv, cached: bool, draws: nat -> (int -> nat))
    ensures KeepsOthers(Pass(fetches, env, cached, draws), |fetches|)
  {
    var pass := Pass(fetches, env, cached, draws);
    forall d: seq<FileData>, i: nat | i < |fetches| && i <= |d|
      ensures |d| <= |pass(d, i).data| && (pass(d, i).end.Done? ==> i < |pass(d, i).data|)
      ensures forall g :: 0 <= g < |d| && g != i ==> pass(d, i).data[g] == d[g]
    {
      assert pass(d, i) == SyncFile(d, i, fetches[i], env, cached, draws(i));
      forall g | 0 <= g < |d| && g != i ensures pass(d, i).data[g] == d[g] {
        SyncFileLeavesOtherFiles(d, i, fetches[i], env, cached, draws(i), g);
      }
    }
  }

  lemma PassKeepsWellFormed(fetches: seq<Fetch>, env: MergeEnv, cached: bool, draws: nat -> (int -> nat))
    ensures KeepsWellFormed(Pass(fetches, env, cached, draws), |fetches|)
  {
    var pass := Pass(fetches, env, cached, draws);
    forall d: seq<FileData>, i: nat | i < |fetches| && i <= |d| && WellFormed(d)
      ensures WellFormed(pass(d, i).data)
    {
      assert pass(d, i) == SyncFile(d, i, fetches[i], env, cached, draws(i));
      SyncFileKeepsWellFormed(d, i, fetches[i], env, cached, draws(i));
    }
  }

  lemma PassKeepsTextures(fetches: seq<Fetch>, env: MergeEnv, cached: bool, draws: nat -> (int -> nat), m: nat)
    ensures KeepsTextures(Pass(fetches, env, cached, draws), |fetches|, m)
  {
    var pass := Pass(fetches, env, cached, draws);
    forall d: seq<FileData>, i: nat | i < |fetches| && i <= |d| && TexturesIndexed(d, m)
      ensures TexturesIndexed(pass(d, i).data, m)
    {
      assert pass(d, i) == SyncFile(d, i, fetches[i], env, cached, draws(i));
      SyncFileKeepsTextures(d, i, fetches[i], env, cached, draws(i), m);
    }
  }

  lemma PassAppends(fetches: seq<Fetch>, env: MergeEnv, cached: bool, draws: nat -> (int -> nat))
    ensures Appends(Pass(fetches, env, cached, draws), |fetches|)
  {
    var pass := Pass(fetches, env, cached, draws);
    forall d: seq<FileData>, i: nat | i < |fetches| && i <= |d|
      ensures CatalogExtends(d, pass(d, i).data)
    {
      var r := SyncFile(d, i, fetches[i], env, cached, draws(i));
      assert pass(d, i) == r;
      SyncFileExtends(d, i, fetches[i], env, cached, draws(i));
      forall g | 0 <= g < |d| ensures FileExtends(d[g], r.data[g]) {
        if g != i {
          SyncFileLeavesOtherFiles(d, i, fetches[i], env, cached, draws(i), g);
        }
      }
    }
  }

  lemma PassStartsOwn(fetches: seq<Fetch>, env: MergeEnv, cached: bool, draws: nat -> (int -> nat))
    ensures StartsOwn(Pass(fetches, env, cached, draws), |fetches|)
  {
    var pass := Pass(fetches, env, cached, draws);
    forall d: seq<FileData>, i: nat | i < |fetches| && i <= |d|
      ensures StartsShowable(RefreshRun(pass(d, i).data, pass(d, i).started, None))
      ensures forall k :: 0 <= k < |pass(d, i).started| ==> pass(d, i).started[k].fileId == i
    {
      assert pass(d, i) == SyncFile(d, i, fetches[i], env, cached, draws(i));
      SyncFileStarts(d, i, fetches[i], env, cached, draws(i));
    }
  }

  /** A stopped pass's end, as the manifests explain it: the failed request, the record
      with a bad slot id, or a refresh's null dereference. */
  ghost predicate Explained(fetches: seq<Fetch>, end: SyncEnd)
  {
    !end.Done? && end.fileId < |fetches|
    && (end.FetchStopped? ==> RequestFailed(fetches[end.fileId].error, fetches[end.fileId].text))
    && (end.MergeStopped? ==> FirstBadId(fetches[end.fileId].slots) < |fetches[end.fileId].slots|)
    && (end.Threw? ==> end.fault == NullReference)
  }

  lemma PassEndsOwn(fetches: seq<Fetch>, env: MergeEnv, cached: bool, draws: nat -> (int -> nat))
    ensures EndsOwn(Pass(fetches, env, cached, draws), |fetches|, e => Explained(fetches, e))
  {
    var pass := Pass(fetches, env, cached, draws);
    forall d: seq<FileData>, i: nat | i < |fetches| && i <= |d| && !pass(d, i).end.Done?
      ensures pass(d, i).end.fileId == i && Explained(fetches, pass(d, i).end)
    {
      var r := SyncFile(d, i, fetches[i], env, cached, draws(i));
      assert pass(d, i) == r;
      SyncFileStarts(d, i, fetches[i], env, cached, draws(i));
      if r.end.MergeStopped? {
        var data1 := EnsureFile(d, i);
        MergeRecordsAbortsAtFirstBadId(data1[i], fetches[i].slots, env, !cached, false);
      }
    }
  }

  /** A file that answered manifest `i`: its request worked and every record has its ad. */
  ghost predicate Answered(fetches: seq<Fetch>, file: FileData, i: nat)
  {
    i < |fetches| && !RequestFailed(fetches[i].error, fetches[i].text)
    && forall k :: 0 <= k < |fetches[i].slots| ==> HasRecord(file, fetches[i].slots[k])
  }

  lemma PassDoneOwn(fetches: seq<Fetch>, env: MergeEnv, cached: bool, draws: nat -> (int -> nat))
    ensures DoneOwn(Pass(fetches, env, cached, draws), |fetches|, (file: FileData, i: nat) => Answered(fetches, file, i))
  {
    var pass := Pass(fetches, env, cached, draws);
    forall d: seq<FileData>, i: nat | i < |fetches| && i <= |d| && pass(d, i).end.Done?
      ensures i < |pass(d, i).data| && Answered(fetches, pass(d, i).data[i], i)
    {
      assert pass(d, i) == SyncFile(d, i, fetches[i], env, cached, draws(i));
      SyncFileExtends(d, i, fetches[i], env, cached, draws(i));
    }
  }

  // ---- The whole download. ----

  /** The download keeps the catalog well formed and every ready ad indexing one of the `m`
      textures already loaded. */
  lemma SyncAllKeeps(data: seq<FileData>, fetches: seq<Fetch>, env: MergeEnv, cached: bool, draws: nat -> (int -> nat), m: nat)
    ensures WellFormed(data) ==> WellFormed(SyncAll(data, fetches, env, cached, draws).data)
    ensures TexturesIndexed(data, m) ==> TexturesIndexed(SyncAll(data, fetches, env, cached, draws).data, m)
  {
    PassKeepsOthers(fetches, env, cached, draws);
    if WellFormed(data) {
      PassKeepsWellFormed(fetches, env, cached, draws);
      LoopKeepsWellFormed(data, 0, |fetches|, Pass(fetches, env, cached, draws));
    }
    if TexturesIndexed(data, m) {
      PassKeepsTextures(fetches, env, cached, draws, m);
      LoopKeepsTextures(data, 0, |fetches|, Pass(fetches, env, cached, draws), m);
    }
  }

  /** The download only appends to the catalog and its files: no ad is ever removed or
      moved. */
  lemma SyncAllExtends(data: seq<FileData>, fetches: seq<Fetch>, env: MergeEnv, cached: bool, draws: nat -> (int -> nat))
    ensures CatalogExtends(data, SyncAll(data, fetches, env, cached, draws).data)
  {
    PassKeepsOthers(fetches, env, cached, draws);
    PassAppends(fetches, env, cached, draws);
    LoopAppends(data, 0, |fetches|, Pass(fetches, env, cached, draws));
  }

  /** Every texture download the manifest download starts is for a showable ad of the final
      catalog, in a file it fetched. */
  lemma SyncAllStartsShowable(data: seq<FileData>, fetches: seq<Fetch>, env: MergeEnv, cached: bool, draws: nat -> (int -> nat))
    ensures var r := SyncAll(data, fetches, env, cached, draws);
            StartsShowable(RefreshRun(r.data, r.started, None))
            && forall k :: 0 <= k < |r.started| ==> r.started[k].fileId < |fetches|
  {
    PassKeepsOthers(fetches, env, cached, draws);
    PassStartsOwn(fetches, env, cached, draws);
    LoopStartsShowable(data, 0, |fetches|, Pass(fetches, env, cached, draws));
  }

  /** A stopped download names a manifest and why it stopped there; the only exception is a
      refresh's null dereference. */
  lemma SyncAllStops(data: seq<FileData>, fetches: seq<Fetch>, env: MergeEnv, cached: bool, draws: nat -> (int -> nat))
    ensures var r := SyncAll(data, fetches, env, cached, draws);
            !r.end.Done? ==> Explained(fetches, r.end)
  {
    PassKeepsOthers(fetches, env, cached, draws);
    PassEndsOwn(fetches, env, cached, draws);
    LoopEnds(data, 0, |fetches|, Pass(fetches, env, cached, draws), e => Explained(fetches, e));
  }

  /** A completed download holds a file per manifest with an ad for every record, and no
      request failed. */
  lemma SyncAllDone(data: seq<FileData>, fetches: seq<Fetch>, env: MergeEnv, cached: bool, draws: nat -> (int -> nat))
    requires SyncAll(data, fetches, env, cached, draws).end.Done?
    ensures var r := SyncAll(data, fetches, env, cached, draws);
            |fetches| <= |r.data| && forall g :: 0 <= g < |fetches| ==> Answered(fetches, r.data[g], g)
  {
    PassKeepsOthers(fetches, env, cached, draws);
    PassDoneOwn(fetches, env, cached, draws);
    LoopDone(data, 0, |fetches|, Pass(fetches, env, cached, draws), (file: FileData, i: nat) => Answered(fetches, file, i));
  }
}
