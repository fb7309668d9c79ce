/** What survives a session (SaveIASData and LoadIASData, IAS_Manager.cs): the catalog is
    stored as one PlayerPrefs string, and on load every texture index is dropped because the
    texture list itself is not stored. */
module Session {
  import opened Results
  import opened Catalog
  import Rotation
  import ImageCache

  /** The "IASAdvertData" preference: nothing stored, the encoding of a catalog, the encoding
      of a null list, or a string that is not an encoding (bad Base64 or a failed
      deserialization). */
  datatype Blob = Empty | Encoded(catalog: seq<FileData>) | EncodedNull | Garbage

  /** The catalog after LoadIASData, and whether cached data was loaded. */
  datatype Loaded = Loaded(data: seq<FileData>, cachedLoaded: bool)

  /** One ad with its session-only fields reset. */
  function ResetAd(ad: AdData): AdData
  {
    ad.(adTextureId := -1, isTextureReady := false)
  }

  function ResetSlot(slot: SlotData): (r: SlotData)
  {
    slot.(advert := seq(|slot.advert|, j requires 0 <= j < |slot.advert| => ResetAd(slot.advert[j])))
  }

  function ResetFile(file: FileData): (r: FileData)
  {
    FileData(seq(|file.slotInts|, k requires 0 <= k < |file.slotInts| => ResetSlot(file.slotInts[k])))
  }

  /** The three nested loops of LoadIASData: every ad loses its texture. */
  function ResetVolatile(data: seq<FileData>): (r: seq<FileData>)
    ensures SameCatalogKeys(r, data)
    ensures forall ref :: ValidRef(r, ref) <==> ValidRef(data, ref)
    ensures forall ref :: ValidRef(data, ref) ==> AdAt(r, ref) == ResetAd(AdAt(data, ref))
    ensures forall f, k :: 0 <= f < |data| && 0 <= k < |data[f].slotInts|
              ==> r[f].slotInts[k].lastSlotId == data[f].slotInts[k].lastSlotId
  {
    seq(|data|, f requires 0 <= f < |data| => ResetFile(data[f]))
  }

  /** LoadIASData. An absent preference keeps the current catalog; a null list throws in the
      first loop, so its null check never decides anything; a malformed string throws in
      DecodeIASData. */
  function Load(stored: Blob, current: seq<FileData>): (r: Result<Loaded, Fault>)
    ensures r.Success? && !r.value.cachedLoaded <==> stored == Empty
    ensures r.Success? && !r.value.cachedLoaded ==> r.value.data == current
    ensures r.Success? && r.value.cachedLoaded ==> stored.Encoded? && r.value.data == ResetVolatile(stored.catalog)
    ensures r.Success? <==> stored.Empty? || stored.Encoded?
    ensures r.Failure? ==> r.error == (if stored.EncodedNull? then NullReference else BadFormat)
  {
    match stored
    case Empty => Success(Loaded(current, false))
    case Encoded(catalog) => Success(Loaded(ResetVolatile(catalog), true))
    case EncodedNull => Failure(NullReference)
    case Garbage => Failure(BadFormat)
  }

  /** Resetting twice is resetting once. */
  lemma ResetIdempotent(data: seq<FileData>)
    ensures ResetVolatile(ResetVolatile(data)) == ResetVolatile(data)
  {
    var once := ResetVolatile(data);
    var twice := ResetVolatile(once);
    forall f | 0 <= f < |data|
      ensures twice[f] == once[f]
    {
      forall k | 0 <= k < |data[f].slotInts|
        ensures twice[f].slotInts[k] == once[f].slotInts[k]
      {
        assert twice[f].slotInts[k].advert == once[f].slotInts[k].advert;
      }
      assert twice[f].slotInts == once[f].slotInts;
    }
  }

  /** After the reset no ad claims a texture, so the (empty) texture list of a new session
      covers every ready ad. */
  lemma ResetClearsTextures(data: seq<FileData>)
    ensures ImageCache.TexturesIndexed(ResetVolatile(data), 0)
    ensures forall ref :: ValidRef(data, ref) ==> !AdAt(ResetVolatile(data), ref).isTextureReady
  {
  }

  /** The reset keeps the catalog well-formed. */
  lemma ResetKeepsWellFormed(data: seq<FileData>)
    requires WellFormed(data)
    ensures WellFormed(ResetVolatile(data))
  {
    var r := ResetVolatile(data);
    forall f | 0 <= f < |r|
      ensures WellFormedFile(r[f])
    {
      forall k | 0 <= k < |r[f].slotInts|
        ensures WellFormedSlot(r[f].slotInts[k])
      {
        assert WellFormedSlot(data[f].slotInts[k]);
      }
    }
  }

  /** Two ad lists that agree, position by position, on all the rotation walk looks at:
      the letters and the self, active and installed flags. */
  predicate SameChoices(a: seq<AdData>, b: seq<AdData>)
  {
    |a| == |b|
    && forall j :: 0 <= j < |a| ==>
         a[j].slotChar == b[j].slotChar && a[j].isSelf == b[j].isSelf
         && a[j].isActive == b[j].isActive && a[j].isInstalled == b[j].isInstalled
  }

  /** The walk of IncSlotChar makes the same choice on two such lists. */
  lemma {:induction false} SameChoicesSelectFrom(a: seq<AdData>, b: seq<AdData>, cursor: int32, i: nat)
    requires SameChoices(a, b)
    ensures Rotation.SelectFrom(a, cursor, i) == Rotation.SelectFrom(b, cursor, i)
    decreases 2 * |a| - i
  {
    if i < 2 * |a| {
      var c := Rotation.NextCursor(cursor, |a|);
      SameLettersAdIndex(a, b, SlotLetter(c), 0);
      SameChoicesSelectFrom(a, b, c, i + 1);
    }
  }

  /** The reset changes only texture fields, so IncSlotChar selects the same ad, leaves
      the same cursor and faults alike. */
  lemma ResetKeepsRotation(data: seq<FileData>, f: int, s: int)
    ensures Rotation.IncSlot(ResetVolatile(data), f, s).result == Rotation.IncSlot(data, f, s).result
    ensures GetSlotChar(Rotation.IncSlot(ResetVolatile(data), f, s).data, f, s)
            == GetSlotChar(Rotation.IncSlot(data, f, s).data, f, s)
  {
    var r := ResetVolatile(data);
    SameKeysLookups(r, data, f, s, 0);
    var si := GetSlotIndex(data, f, s);
    if si >= 0 {
      var slot := data[f].slotInts[si];
      assert r[f].slotInts[si] == ResetSlot(slot);
      assert SameChoices(ResetSlot(slot).advert, slot.advert);
      SameChoicesSelectFrom(ResetSlot(slot).advert, slot.advert, slot.lastSlotId, 0);
    }
  }
}
