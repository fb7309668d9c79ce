/** The texture step of the manager (DownloadAdTexture, IAS_Manager.cs): an ad's image comes
    from the device cache file when one was written, otherwise from the image URL, and is
    appended to the manager's texture list, which the ad then indexes. */
module ImageCache {
  import opened Catalog
  import Text

  /** A texture in the manager's list, by where it came from. */
  datatype Texture = FromCacheFile(fileName: string) | FromImageUrl(imgUrl: string)

  /** What the device and the network answer during one run: whether the cache file exists
      and reads, what the image request reports, and whether writing the cache file works. */
  datatype TextureEnv = TextureEnv(fileExists: bool, readOk: bool, fetchError: string, fetchText: string, writeOk: bool)

  /** How the run ends: it reaches the OnIASImageDownloaded notification; it stops early
      (`yield break`) without notifying; or an IOException is rethrown. */
  datatype TextureOutcome = Notified | Stopped | Thrown

  /** The ad afterwards, the texture appended to the list (if any), and how the run ended. */
  datatype TextureRun = TextureRun(ad: AdData, added: seq<Texture>, outcome: TextureOutcome)

  const ServerError: string := "There was an error"

  /** The cache file of an ad, under the persistent data directory. */
  function CacheFileName(ad: AdData): string
  {
    "IAS_" + ad.fileName
  }

  /** The ad has no texture for its current timestamp yet. */
  predicate NeedsTexture(ad: AdData)
  {
    !ad.isTextureReady || ad.lastUpdated < ad.newUpdateTime
  }

  /** The ad after a texture was appended at position `texCount`. */
  function Installed(ad: AdData, texCount: nat): AdData
  {
    ad.(adTextureId := texCount, lastUpdated := ad.newUpdateTime, isTextureReady := true)
  }

  /** A WWW request failed, as the manager tests it for manifests and images alike: an error
      message, the server's error page, or no body. */
  predicate RequestFailed(error: string, text: string)
  {
    error != [] || Text.Contains(text, ServerError) || text == []
  }

  predicate FetchFailed(env: TextureEnv)
  {
    RequestFailed(env.fetchError, env.fetchText)
  }

  /** DownloadAdTexture(ad) while the manager holds `texCount` textures. */
  function TextureStep(ad: AdData, texCount: nat, env: TextureEnv): (r: TextureRun)
    ensures |r.added| <= 1
    ensures r.ad.(isTextureFileCached := ad.isTextureFileCached, isTextureReady := ad.isTextureReady,
                  lastUpdated := ad.lastUpdated, adTextureId := ad.adTextureId) == ad
    ensures r.ad.isTextureReady && !ad.isTextureReady ==> r.ad.adTextureId == texCount && |r.added| == 1
  {
    if !NeedsTexture(ad) || ad.isSelf || !ad.isActive then TextureRun(ad, [], Notified)
    else if ad.isTextureFileCached then
      if !env.fileExists then TextureRun(ad.(isTextureFileCached := false), [], Stopped)
      else if !env.readOk then TextureRun(ad.(isTextureFileCached := false), [], Thrown)
      else TextureRun(Installed(ad, texCount), [FromCacheFile(CacheFileName(ad))], Notified)
    else if FetchFailed(env) then TextureRun(ad, [], Stopped)
    else if !env.writeOk then TextureRun(ad, [FromImageUrl(ad.imgUrl)], Thrown)
    else TextureRun(Installed(ad.(isTextureFileCached := true), texCount), [FromImageUrl(ad.imgUrl)], Notified)
  }

  /** An ad whose texture is ready and current, or one that is never shown, is left alone;
      the listeners are still notified. */
  lemma NothingToDo(ad: AdData, texCount: nat, env: TextureEnv)
    requires !NeedsTexture(ad) || ad.isSelf || !ad.isActive
    ensures TextureStep(ad, texCount, env) == TextureRun(ad, [], Notified)
  {
  }

  /** A run that changes the ad's texture state and notifies leaves the ad with a current
      texture at the appended position, its timestamp taken over and its cache file written;
      the texture appended is the cache file when there was one, else the downloaded image. */
  lemma NotifiedMeansReady(ad: AdData, texCount: nat, env: TextureEnv)
    requires NeedsTexture(ad) && !ad.isSelf && ad.isActive
    requires TextureStep(ad, texCount, env).outcome == Notified
    ensures var r := TextureStep(ad, texCount, env);
            r.ad.isTextureReady && !NeedsTexture(r.ad) && r.ad.isTextureFileCached
            && r.ad.adTextureId == texCount && |r.added| == 1
    ensures var r := TextureStep(ad, texCount, env);
            r.ad == Installed(ad.(isTextureFileCached := true), texCount)
            && r.ad.lastUpdated == ad.newUpdateTime
            && r.added == [if ad.isTextureFileCached then FromCacheFile(CacheFileName(ad)) else FromImageUrl(ad.imgUrl)]
  {
  }

  /** Once a run has succeeded, the next run does nothing until the manifest brings a newer
      timestamp. */
  lemma ReadyIsStable(ad: AdData, texCount: nat, env: TextureEnv, texCount': nat, env': TextureEnv)
    requires NeedsTexture(ad) && !ad.isSelf && ad.isActive
    requires TextureStep(ad, texCount, env).outcome == Notified
    ensures var a := TextureStep(ad, texCount, env).ad;
            TextureStep(a, texCount', env') == TextureRun(a, [], Notified)
  {
  }

  /** A cache file that has gone missing is forgotten, so the next run downloads the image
      again and, when that works, the ad is ready. */
  lemma MissingCacheFileRecovers(ad: AdData, texCount: nat, env: TextureEnv, texCount': nat, env': TextureEnv)
    requires NeedsTexture(ad) && !ad.isSelf && ad.isActive && ad.isTextureFileCached
    requires !env.fileExists
    requires !FetchFailed(env') && env'.writeOk
    ensures var first := TextureStep(ad, texCount, env);
            first.outcome == Stopped && !first.ad.isTextureFileCached && first.added == []
            && TextureStep(first.ad, texCount', env') ==
               TextureRun(Installed(ad, texCount'), [FromImageUrl(ad.imgUrl)], Notified)
  {
  }

  /** A failed image request changes nothing and notifies nobody. */
  lemma FailedFetchChangesNothing(ad: AdData, texCount: nat, env: TextureEnv)
    requires NeedsTexture(ad) && !ad.isSelf && ad.isActive && !ad.isTextureFileCached
    requires FetchFailed(env)
    ensures TextureStep(ad, texCount, env) == TextureRun(ad, [], Stopped)
  {
  }

  /** A failed cache write still appends the texture but leaves the ad as it was, so the
      appended texture is not referenced by it. */
  lemma FailedWriteLeavesAd(ad: AdData, texCount: nat, env: TextureEnv)
    requires NeedsTexture(ad) && !ad.isSelf && ad.isActive && !ad.isTextureFileCached
    requires !FetchFailed(env) && !env.writeOk
    ensures TextureStep(ad, texCount, env) == TextureRun(ad, [FromImageUrl(ad.imgUrl)], Thrown)
  {
  }

  /** Every ready ad of the file indexes a texture of a list of `texCount` textures. */
  predicate FileTexturesIndexed(file: FileData, texCount: nat)
  {
    forall k, j :: 0 <= k < |file.slotInts| && 0 <= j < |file.slotInts[k].advert|
                   && file.slotInts[k].advert[j].isTextureReady
                   ==> 0 <= file.slotInts[k].advert[j].adTextureId < texCount
  }

  /** Every ready ad of the catalog indexes a texture: what makes GetAdTexture's list
      access safe for an ad IsAdReady reports ready. */
  predicate TexturesIndexed(data: seq<FileData>, texCount: nat)
  {
    forall f :: 0 <= f < |data| ==> FileTexturesIndexed(data[f], texCount)
  }

  lemma TexturesIndexedAt(data: seq<FileData>, texCount: nat, ref: AdRef)
    requires TexturesIndexed(data, texCount) && ValidRef(data, ref) && AdAt(data, ref).isTextureReady
    ensures 0 <= AdAt(data, ref).adTextureId < texCount
  {
    assert FileTexturesIndexed(data[ref.fileId], texCount);
  }

  /** A run keeps a ready ad's texture index inside the grown texture list. */
  lemma StepKeepsIndex(ad: AdData, texCount: nat, env: TextureEnv)
    requires ad.isTextureReady ==> 0 <= ad.adTextureId < texCount
    ensures var r := TextureStep(ad, texCount, env);
            r.ad.isTextureReady ==> 0 <= r.ad.adTextureId < texCount + |r.added|
  {
  }

  /** Writing a run's ad back into the catalog keeps it well formed and keeps every ready ad
      indexing a texture of the grown list. */
  lemma StepKeepsCatalog(data: seq<FileData>, ref: AdRef, texCount: nat, env: TextureEnv)
    requires ValidRef(data, ref)
    ensures var r := TextureStep(AdAt(data, ref), texCount, env);
            var data' := SetAd(data, ref, r.ad);
            (WellFormed(data) ==> WellFormed(data'))
            && (TexturesIndexed(data, texCount) ==> TexturesIndexed(data', texCount + |r.added|))
  {
    var r := TextureStep(AdAt(data, ref), texCount, env);
    var data' := SetAd(data, ref, r.ad);
    var f := ref.fileId;
    var slot := data[f].slotInts[ref.slotIndex];
    var slot' := data'[f].slotInts[ref.slotIndex];
    assert slot' == slot.(advert := slot.advert[ref.adIndex := r.ad]);
    if WellFormed(data) {
      assert WellFormedFile(data[f]);
      assert WellFormedSlot(slot);
      forall k | 0 <= k < |data'[f].slotInts| ensures WellFormedSlot(data'[f].slotInts[k]) {
        assert WellFormedSlot(data[f].slotInts[k]);
        if k == ref.slotIndex {
          assert forall j :: 0 <= j < |slot'.advert| ==> slot'.advert[j].slotChar == slot.advert[j].slotChar;
        }
      }
      assert WellFormedFile(data'[f]);
    }
    if TexturesIndexed(data, texCount) {
      assert FileTexturesIndexed(data[f], texCount);
      StepKeepsIndex(AdAt(data, ref), texCount, env);
      forall g | 0 <= g < |data'| ensures FileTexturesIndexed(data'[g], texCount + |r.added|) {
        assert FileTexturesIndexed(data[g], texCount);
      }
    }
  }
}
