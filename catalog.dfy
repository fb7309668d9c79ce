/** The ad catalog of the manager (IAS_Manager.cs, AdJsonFileData / AdSlotData / AdData):
    one entry per manifest file, holding slots keyed by their number, each holding ads keyed
    by their letter; and the first-match linear lookups the manager runs over it. */
module Catalog {
  import opened Results

  /** C# `int`: the rotation cursor lastSlotId is one, and `+ 1` on it wraps. */
  type int32 = x: int | -0x8000_0000 <= x < 0x8000_0000

  /** Unchecked two's-complement reduction of an integer to 32 bits. */
  function Wrap32(x: int): (r: int32)
    ensures -0x8000_0000 <= x < 0x8000_0000 ==> r == x
    ensures (r - x) % 0x1_0000_0000 == 0
  {
    (x + 0x8000_0000) % 0x1_0000_0000 - 0x8000_0000
  }

  /** C# `char`: a UTF-16 code unit. */
  type char16 = x: int | 0 <= x < 0x1_0000

  /** The cast `(char)x` keeps the low 16 bits of `x`. */
  function ToChar16(x: int): char16
  {
    x % 0x1_0000
  }

  /** slotIdDecimalOffset: cursor 0 stands for the letter 'a'. */
  const SlotIdDecimalOffset: int := 97

  /** The letter that cursor value `cursor` selects: (char)(cursor + 97). */
  function SlotLetter(cursor: int): (r: char16)
    ensures -97 <= cursor < 0x1_0000 - 97 ==> r == cursor + SlotIdDecimalOffset
  {
    ToChar16(cursor + SlotIdDecimalOffset)
  }

  /** One ad of a slot. adTextureId indexes the manager's texture list (-1: none);
      isTextureReady and adTextureId are only meaningful within one session. */
  datatype AdData = AdData(
    slotChar: char16,
    fileName: string,
    isTextureFileCached: bool,
    isTextureReady: bool,
    isInstalled: bool,
    isSelf: bool,
    isActive: bool,
    lastUpdated: int,
    newUpdateTime: int,
    imgUrl: string,
    adUrl: string,
    packageName: string,
    adTextureId: int)

  /** A slot (placement) with its ads in manifest order and the rotation cursor. */
  datatype SlotData = SlotData(slotInt: int, advert: seq<AdData>, lastSlotId: int32)

  /** The slots read from one manifest file. */
  datatype FileData = FileData(slotInts: seq<SlotData>)

  /** `new AdData(slotChar)`: string fields are null in C#, here empty. */
  function NewAd(slotChar: char16): AdData
  {
    AdData(slotChar, "", false, false, false, false, false, 0, 0, "", "", "", -1)
  }

  /** `new AdSlotData(slotInt, new List<AdData>())`. */
  function NewSlot(slotInt: int): SlotData
  {
    SlotData(slotInt, [], 0)
  }

  /** Where one ad object lives in the catalog: file, slot position, ad position. */
  datatype AdRef = AdRef(fileId: nat, slotIndex: nat, adIndex: nat)

  /** Runtime exceptions the manager raises where it does not guard against them. */
  datatype Fault = NullReference | ArgumentOutOfRange | BadFormat

  predicate IsFirstSlot(slots: seq<SlotData>, k: int, slotInt: int)
  {
    0 <= k < |slots| && slots[k].slotInt == slotInt
    && forall j :: 0 <= j < k ==> slots[j].slotInt != slotInt
  }

  function SlotIndexFrom(slots: seq<SlotData>, slotInt: int, from: nat): (r: int)
    requires from <= |slots|
    ensures r == -1 || (from <= r < |slots| && slots[r].slotInt == slotInt)
    ensures forall j :: from <= j < |slots| && (r == -1 || j < r) ==> slots[j].slotInt != slotInt
    decreases |slots| - from
  {
    if from == |slots| then -1
    else if slots[from].slotInt == slotInt then from
    else SlotIndexFrom(slots, slotInt, from + 1)
  }

  /** Position of the first slot numbered `slotInt`, or -1 when there is none. */
  function SlotIndex(slots: seq<SlotData>, slotInt: int): (r: int)
    ensures r == -1 || IsFirstSlot(slots, r, slotInt)
    ensures r == -1 <==> forall j :: 0 <= j < |slots| ==> slots[j].slotInt != slotInt
  {
    SlotIndexFrom(slots, slotInt, 0)
  }

  predicate IsFirstAd(ads: seq<AdData>, k: int, ch: char16)
  {
    0 <= k < |ads| && ads[k].slotChar == ch
    && forall j :: 0 <= j < k ==> ads[j].slotChar != ch
  }

  function AdIndexFrom(ads: seq<AdData>, ch: char16, from: nat): (r: int)
    requires from <= |ads|
    ensures r == -1 || (from <= r < |ads| && ads[r].slotChar == ch)
    ensures forall j :: from <= j < |ads| && (r == -1 || j < r) ==> ads[j].slotChar != ch
    decreases |ads| - from
  {
    if from == |ads| then -1
    else if ads[from].slotChar == ch then from
    else AdIndexFrom(ads, ch, from + 1)
  }

  /** Position of the first ad lettered `ch`, or -1 when there is none. */
  function AdIndex(ads: seq<AdData>, ch: char16): (r: int)
    ensures r == -1 || IsFirstAd(ads, r, ch)
    ensures r == -1 <==> forall j :: 0 <= j < |ads| ==> ads[j].slotChar != ch
  {
    AdIndexFrom(ads, ch, 0)
  }

  /** A first match is unique. */
  lemma FirstMatchUnique(slots: seq<SlotData>, ads: seq<AdData>, s: int, ch: char16)
    ensures forall k :: IsFirstSlot(slots, k, s) ==> k == SlotIndex(slots, s)
    ensures forall k :: IsFirstAd(ads, k, ch) ==> k == AdIndex(ads, ch)
  {
  }

  // ---- The manager's private lookups over the whole catalog (advertData). ----

  /** DoesSlotFileIdExist, corrected: `jsonFileId` indexes an existing manifest file. The
      source's own test admits negative ids; see DoesSlotFileIdExistAsWritten. */
  predicate DoesSlotFileIdExist(data: seq<FileData>, jsonFileId: int)
  {
    0 <= jsonFileId < |data|
  }

  /** DoesSlotFileIdExist as written: `jsonFileId >= advertData.Count ? false : true`. */
  predicate DoesSlotFileIdExistAsWritten(data: seq<FileData>, jsonFileId: int)
  {
    !(jsonFileId >= |data|)
  }

  /** GetSlotIndex as written: once the file test passes it indexes advertData[jsonFileId],
      which throws for a negative id. */
  function GetSlotIndexAsWritten(data: seq<FileData>, jsonFileId: int, slotInt: int): Result<int, Fault>
  {
    if !DoesSlotFileIdExistAsWritten(data, jsonFileId) then Success(-1)
    else if jsonFileId < 0 then Failure(ArgumentOutOfRange)
    else Success(SlotIndex(data[jsonFileId].slotInts, slotInt))
  }

  /** A negative file id (-1) passes the source's existence test and then makes every lookup
      throw; the corrected test answers "no such slot" instead. */
  lemma NegativeFileIdThrows(data: seq<FileData>, slotInt: int)
    ensures DoesSlotFileIdExistAsWritten(data, -1) && !DoesSlotFileIdExist(data, -1)
    ensures GetSlotIndexAsWritten(data, -1, slotInt) == Failure(ArgumentOutOfRange)
    ensures GetSlotIndex(data, -1, slotInt) == -1
  {
  }

  /** GetSlotIndex: position of the first slot numbered `slotInt` in file `jsonFileId`, or -1. */
  function GetSlotIndex(data: seq<FileData>, jsonFileId: int, slotInt: int): (r: int)
    ensures r == -1 || (DoesSlotFileIdExist(data, jsonFileId)
                        && IsFirstSlot(data[jsonFileId].slotInts, r, slotInt))
    ensures r == -1 <==> !DoesSlotFileIdExist(data, jsonFileId)
                         || forall j :: 0 <= j < |data[jsonFileId].slotInts|
                                       ==> data[jsonFileId].slotInts[j].slotInt != slotInt
  {
    if DoesSlotFileIdExist(data, jsonFileId) then SlotIndex(data[jsonFileId].slotInts, slotInt)
    else -1
  }

  /** The corrected lookup never fails and agrees with the source wherever the source does
      not throw. */
  lemma GetSlotIndexAgrees(data: seq<FileData>, jsonFileId: int, slotInt: int)
    ensures GetSlotIndexAsWritten(data, jsonFileId, slotInt).Success?
            ==> GetSlotIndexAsWritten(data, jsonFileId, slotInt).value == GetSlotIndex(data, jsonFileId, slotInt)
    ensures GetSlotIndexAsWritten(data, jsonFileId, slotInt).Failure? <==> jsonFileId < 0
  {
  }

  /** GetAdSlotData: the first slot numbered `slotInt` in file `jsonFileId`, or null. */
  function GetAdSlotData(data: seq<FileData>, jsonFileId: int, slotInt: int): (r: Option<SlotData>)
    ensures r.Some? <==> GetSlotIndex(data, jsonFileId, slotInt) >= 0
    ensures r.Some? ==> r.value.slotInt == slotInt
                        && r.value == data[jsonFileId].slotInts[GetSlotIndex(data, jsonFileId, slotInt)]
  {
    var k := GetSlotIndex(data, jsonFileId, slotInt);
    if k < 0 then None else Some(data[jsonFileId].slotInts[k])
  }

  /** DoesSlotIntExist: some slot of file `jsonFileId` is numbered `slotInt`. */
  predicate DoesSlotIntExist(data: seq<FileData>, jsonFileId: int, slotInt: int)
  {
    GetAdSlotData(data, jsonFileId, slotInt).Some?
  }

  /** GetAdIndex: position of the first ad lettered `ch` in the slot, or -1. The source
      dereferences the slot without a null check, so a missing slot throws. */
  function GetAdIndex(data: seq<FileData>, jsonFileId: int, slotInt: int, ch: char16): (r: Result<int, Fault>)
    ensures r.Failure? <==> !DoesSlotIntExist(data, jsonFileId, slotInt)
    ensures r.Success? ==> r.value == -1 || IsFirstAd(GetAdSlotData(data, jsonFileId, slotInt).value.advert, r.value, ch)
    ensures r.Success? && r.value == -1 ==>
              forall j :: 0 <= j < |GetAdSlotData(data, jsonFileId, slotInt).value.advert|
                          ==> GetAdSlotData(data, jsonFileId, slotInt).value.advert[j].slotChar != ch
  {
    match GetAdSlotData(data, jsonFileId, slotInt)
    case None => Failure(NullReference)
    case Some(slot) => Success(AdIndex(slot.advert, ch))
  }

  /** GetAdData(jsonFileId, slotInt, ch): the first ad lettered `ch` in the first slot
      numbered `slotInt`, or null when either is missing. */
  function GetAdData(data: seq<FileData>, jsonFileId: int, slotInt: int, ch: char16): (r: Option<AdData>)
    ensures r.Some? <==> GetAdIndex(data, jsonFileId, slotInt, ch).Success?
                         && GetAdIndex(data, jsonFileId, slotInt, ch).value >= 0
    ensures r.Some? ==> r.value.slotChar == ch
                        && r.value == GetAdSlotData(data, jsonFileId, slotInt).value.advert[GetAdIndex(data, jsonFileId, slotInt, ch).value]
  {
    match GetAdSlotData(data, jsonFileId, slotInt)
    case None => None
    case Some(slot) =>
      var k := AdIndex(slot.advert, ch);
      if k < 0 then None else Some(slot.advert[k])
  }

  /** DoesSlotCharExist: the slot exists and holds an ad lettered `ch`. */
  predicate DoesSlotCharExist(data: seq<FileData>, jsonFileId: int, slotInt: int, ch: char16)
  {
    GetAdData(data, jsonFileId, slotInt, ch).Some?
  }

  /** GetSlotChar: the letter the slot's cursor points at, or default(char) without a slot. */
  function GetSlotChar(data: seq<FileData>, jsonFileId: int, slotInt: int): (r: char16)
    ensures !DoesSlotIntExist(data, jsonFileId, slotInt) ==> r == 0
    ensures DoesSlotIntExist(data, jsonFileId, slotInt)
            ==> r == SlotLetter(GetAdSlotData(data, jsonFileId, slotInt).value.lastSlotId)
  {
    match GetAdSlotData(data, jsonFileId, slotInt)
    case None => 0
    case Some(slot) => SlotLetter(slot.lastSlotId)
  }

  /** GetAdData(jsonFileId, slotInt): the slot's current ad. */
  function GetCurrentAd(data: seq<FileData>, jsonFileId: int, slotInt: int): Option<AdData>
  {
    GetAdData(data, jsonFileId, slotInt, GetSlotChar(data, jsonFileId, slotInt))
  }

  /** Ad `ai` of slot `si` is what file `f`, slot number `s` currently shows: `si` is the
      first slot numbered `s` and `ai` the first of its ads lettered 'a' + cursor. */
  ghost predicate ShowsAd(data: seq<FileData>, f: int, s: int, si: int, ai: int)
  {
    0 <= f < |data| && IsFirstSlot(data[f].slotInts, si, s)
    && IsFirstAd(data[f].slotInts[si].advert, ai, SlotLetter(data[f].slotInts[si].lastSlotId))
  }

  /** The current ad is exactly the shown one; when no slot or no lettered ad matches there is
      none. */
  lemma CurrentAdIsShown(data: seq<FileData>, f: int, s: int)
    ensures GetCurrentAd(data, f, s).Some? <==> exists si, ai :: ShowsAd(data, f, s, si, ai)
    ensures forall si, ai :: ShowsAd(data, f, s, si, ai)
              ==> GetCurrentAd(data, f, s) == Some(data[f].slotInts[si].advert[ai])
  {
    forall si, ai | ShowsAd(data, f, s, si, ai)
      ensures GetCurrentAd(data, f, s) == Some(data[f].slotInts[si].advert[ai])
    {
      FirstMatchUnique(data[f].slotInts, data[f].slotInts[si].advert, s, SlotLetter(data[f].slotInts[si].lastSlotId));
    }
    if GetCurrentAd(data, f, s).Some? {
      var si := GetSlotIndex(data, f, s);
      var ai := GetAdIndex(data, f, s, GetSlotChar(data, f, s)).value;
      assert ShowsAd(data, f, s, si, ai);
    }
  }

  // ---- Well-formedness the merge establishes and every operation keeps. ----

  predicate UniqueSlotInts(slots: seq<SlotData>)
  {
    forall i, j :: 0 <= i < j < |slots| ==> slots[i].slotInt != slots[j].slotInt
  }

  predicate UniqueLetters(ads: seq<AdData>)
  {
    forall i, j :: 0 <= i < j < |ads| ==> ads[i].slotChar != ads[j].slotChar
  }

  /** The slot has an ad and its cursor is a position among them. */
  predicate CursorInRange(slot: SlotData)
  {
    0 <= slot.lastSlotId < |slot.advert|
  }

  /** Slot letters come from a slot id's a-z characters. */
  predicate LettersInRange(ads: seq<AdData>)
  {
    forall k :: 0 <= k < |ads| ==> 'a' as int <= ads[k].slotChar <= 'z' as int
  }

  predicate WellFormedSlot(slot: SlotData)
  {
    UniqueLetters(slot.advert) && LettersInRange(slot.advert) && CursorInRange(slot)
  }

  /** What every file the merge builds satisfies: slot numbers unique, and in each slot
      letters unique and in a-z and the cursor among the ads. */
  predicate WellFormedFile(file: FileData)
  {
    UniqueSlotInts(file.slotInts)
    && forall k :: 0 <= k < |file.slotInts| ==> WellFormedSlot(file.slotInts[k])
  }

  predicate WellFormed(data: seq<FileData>)
  {
    forall f :: 0 <= f < |data| ==> WellFormedFile(data[f])
  }

  lemma {:induction false} LetterSetSize(ads: seq<AdData>)
    requires UniqueLetters(ads)
    ensures |set k | 0 <= k < |ads| :: ads[k].slotChar as int| == |ads|
    decreases |ads|
  {
    if ads != [] {
      var init := ads[..|ads| - 1];
      LetterSetSize(init);
      var a := set k | 0 <= k < |init| :: init[k].slotChar as int;
      var b := set k | 0 <= k < |ads| :: ads[k].slotChar as int;
      assert b == a + {ads[|ads| - 1].slotChar as int};
      assert ads[|ads| - 1].slotChar as int !in a;
    }
  }

  lemma {:induction false} SetInRange(xs: set<int>, lo: int, hi: int)
    requires forall x :: x in xs ==> lo <= x < hi
    ensures |xs| <= if hi < lo then 0 else hi - lo
    decreases hi - lo
  {
    if hi <= lo {
      assert xs == {};
    } else {
      SetInRange(xs - {hi - 1}, lo, hi - 1);
    }
  }

  /** Letters are unique and in a-z, so a slot holds at most 26 ads. */
  lemma AtMost26Ads(ads: seq<AdData>)
    requires UniqueLetters(ads) && LettersInRange(ads)
    ensures |ads| <= 26
  {
    LetterSetSize(ads);
    var letters: set<int> := set k | 0 <= k < |ads| :: ads[k].slotChar as int;
    SetInRange(letters, 'a' as int, 'z' as int + 1);
  }

  /** Lookup keys are the same: slot numbers and ad letters, position by position. */
  predicate SameKeys(a: seq<SlotData>, b: seq<SlotData>)
  {
    |a| == |b|
    && forall k :: 0 <= k < |a| ==>
         a[k].slotInt == b[k].slotInt && |a[k].advert| == |b[k].advert|
         && forall j :: 0 <= j < |a[k].advert| ==> a[k].advert[j].slotChar == b[k].advert[j].slotChar
  }

  lemma {:induction false} SameKeysSlotIndex(a: seq<SlotData>, b: seq<SlotData>, s: int, from: nat)
    requires SameKeys(a, b) && from <= |a|
    ensures SlotIndexFrom(a, s, from) == SlotIndexFrom(b, s, from)
    decreases |a| - from
  {
    if from < |a| { SameKeysSlotIndex(a, b, s, from + 1); }
  }

  lemma {:induction false} SameLettersAdIndex(a: seq<AdData>, b: seq<AdData>, ch: char16, from: nat)
    requires |a| == |b| && from <= |a|
    requires forall j :: 0 <= j < |a| ==> a[j].slotChar == b[j].slotChar
    ensures AdIndexFrom(a, ch, from) == AdIndexFrom(b, ch, from)
    decreases |a| - from
  {
    if from < |a| { SameLettersAdIndex(a, b, ch, from + 1); }
  }

  /** Two catalogs with the same files, slots and ad letters, position by position. */
  predicate SameCatalogKeys(a: seq<FileData>, b: seq<FileData>)
  {
    |a| == |b| && forall f :: 0 <= f < |a| ==> SameKeys(a[f].slotInts, b[f].slotInts)
  }

  /** Every lookup depends on the keys only. */
  lemma SameKeysLookups(a: seq<FileData>, b: seq<FileData>, f: int, s: int, ch: char16)
    requires SameCatalogKeys(a, b)
    ensures GetSlotIndex(a, f, s) == GetSlotIndex(b, f, s)
    ensures DoesSlotIntExist(a, f, s) == DoesSlotIntExist(b, f, s)
    ensures GetAdIndex(a, f, s, ch) == GetAdIndex(b, f, s, ch)
  {
    if 0 <= f < |a| {
      SameKeysSlotIndex(a[f].slotInts, b[f].slotInts, s, 0);
      var k := GetSlotIndex(a, f, s);
      if k >= 0 {
        SameLettersAdIndex(a[f].slotInts[k].advert, b[f].slotInts[k].advert, ch, 0);
      }
    }
  }

  /** The catalog with every cursor set to 0. */
  function Uncursored(data: seq<FileData>): (r: seq<FileData>)
    ensures |r| == |data|
    ensures forall f :: 0 <= f < |data| ==> |r[f].slotInts| == |data[f].slotInts|
  {
    seq(|data|, f requires 0 <= f < |data| =>
      FileData(seq(|data[f].slotInts|, k requires 0 <= k < |data[f].slotInts| =>
        data[f].slotInts[k].(lastSlotId := 0))))
  }

  /** The catalogs differ at most in slot cursors. */
  predicate OnlyCursorsDiffer(a: seq<FileData>, b: seq<FileData>)
  {
    Uncursored(a) == Uncursored(b)
  }

  lemma OnlyCursorsDifferKeys(a: seq<FileData>, b: seq<FileData>)
    requires OnlyCursorsDiffer(a, b)
    ensures SameCatalogKeys(a, b)
    ensures forall ref :: ValidRef(a, ref) ==> ValidRef(b, ref) && AdAt(a, ref) == AdAt(b, ref)
  {
    forall f, k | 0 <= f < |a| && 0 <= k < |a[f].slotInts|
      ensures a[f].slotInts[k].slotInt == b[f].slotInts[k].slotInt
      ensures a[f].slotInts[k].advert == b[f].slotInts[k].advert
    {
      assert Uncursored(a)[f].slotInts[k] == Uncursored(b)[f].slotInts[k];
    }
  }

  lemma OnlyCursorsDifferAt(a: seq<FileData>, b: seq<FileData>, ref: AdRef)
    requires OnlyCursorsDiffer(a, b) && ValidRef(a, ref)
    ensures ValidRef(b, ref) && AdAt(a, ref) == AdAt(b, ref)
  {
    OnlyCursorsDifferKeys(a, b);
  }

  /** Replaces the cursor of slot `si` of file `f`. */
  function SetCursor(data: seq<FileData>, f: nat, si: nat, cursor: int32): (r: seq<FileData>)
    requires f < |data| && si < |data[f].slotInts|
    ensures SameCatalogKeys(r, data) && OnlyCursorsDiffer(r, data)
    ensures forall g :: 0 <= g < |data| && g != f ==> r[g] == data[g]
    ensures forall k :: 0 <= k < |data[f].slotInts| && k != si ==> r[f].slotInts[k] == data[f].slotInts[k]
    ensures r[f].slotInts[si] == data[f].slotInts[si].(lastSlotId := cursor)
  {
    var slots := data[f].slotInts;
    var r := data[f := FileData(slots[si := slots[si].(lastSlotId := cursor)])];
    assert Uncursored(r)[f] == Uncursored(data)[f] by {
      assert Uncursored(r)[f].slotInts == Uncursored(data)[f].slotInts;
    }
    assert Uncursored(r) == Uncursored(data);
    r
  }

  /** `b` keeps every slot and ad of `a` at its position, with its number and letter. */
  predicate FileExtends(a: FileData, b: FileData)
  {
    |a.slotInts| <= |b.slotInts|
    && forall k :: 0 <= k < |a.slotInts| ==>
         b.slotInts[k].slotInt == a.slotInts[k].slotInt
         && |a.slotInts[k].advert| <= |b.slotInts[k].advert|
         && forall j :: 0 <= j < |a.slotInts[k].advert| ==>
              b.slotInts[k].advert[j].slotChar == a.slotInts[k].advert[j].slotChar
  }

  lemma FileExtendsTransitive(a: FileData, b: FileData, c: FileData)
    requires FileExtends(a, b) && FileExtends(b, c)
    ensures FileExtends(a, c)
  {
  }

  /** Replaces the ad at `ref`: the catalog keeps its shape (the same references, slot
      numbers and cursors, and the same letters when `ad` keeps its letter), `ref` now holds
      `ad`, and every other ad is where it was. */
  function SetAd(data: seq<FileData>, ref: AdRef, ad: AdData): (r: seq<FileData>)
    requires ValidRef(data, ref)
    ensures |r| == |data| && |r[ref.fileId].slotInts| == |data[ref.fileId].slotInts|
    ensures ValidRef(r, ref) && AdAt(r, ref) == ad
    ensures forall o :: ValidRef(data, o) <==> ValidRef(r, o)
    ensures forall o :: ValidRef(data, o) && o != ref ==> AdAt(r, o) == AdAt(data, o)
    ensures forall g :: 0 <= g < |data| && g != ref.fileId ==> r[g] == data[g]
    ensures forall k :: 0 <= k < |data[ref.fileId].slotInts| ==>
              r[ref.fileId].slotInts[k].slotInt == data[ref.fileId].slotInts[k].slotInt
              && r[ref.fileId].slotInts[k].lastSlotId == data[ref.fileId].slotInts[k].lastSlotId
    ensures ad.slotChar == AdAt(data, ref).slotChar ==> SameCatalogKeys(r, data)
  {
    var slots := data[ref.fileId].slotInts;
    var slot := slots[ref.slotIndex];
    data[ref.fileId := FileData(slots[ref.slotIndex := slot.(advert := slot.advert[ref.adIndex := ad])])]
  }

  predicate ValidRef(data: seq<FileData>, ref: AdRef)
  {
    ref.fileId < |data| && ref.slotIndex < |data[ref.fileId].slotInts|
    && ref.adIndex < |data[ref.fileId].slotInts[ref.slotIndex].advert|
  }

  function AdAt(data: seq<FileData>, ref: AdRef): AdData
    requires ValidRef(data, ref)
  {
    data[ref.fileId].slotInts[ref.slotIndex].advert[ref.adIndex]
  }
}
