/** What DownloadIASData (IAS_Manager.cs) makes of one manifest record: the slot id split
    into a slot number and a letter, the package name read from the ad URL, the installed-app
    test, and the update of one catalog file with the record. */
module Manifest {
  import opened Results
  import opened Text
  import opened Catalog

  /** One entry of a manifest file's `slots` list, already decoded from JSON. */
  datatype JsonSlotData = JsonSlotData(slotid: string, updatetime: int, active: bool, adurl: string, imgurl: string)

  /** The build target, which decides how a package name is read from an ad URL. */
  datatype Platform = Android | IOS | OtherPlatform

  /** Why a record ends the download of its manifest (the routine's `yield break`). */
  datatype MergeError = BadSlotInt | BadSlotChar

  /** A slot id such as "1a": slot number 1, letter 'a'. */
  datatype SlotId = SlotId(slotInt: int, slotChar: char16)

  const MaxInt32: int := 0x7FFF_FFFF

  // ---- Slot ids. ----

  /** int.TryParse of the id with everything but the ASCII digits removed: no digits, or a
      value above int.MaxValue, fails. */
  function ParseSlotInt(slotid: string): (r: Option<int>)
    ensures r.Some? ==> 0 <= r.value <= MaxInt32
    ensures KeepDigits(slotid) == [] ==> r.None?
    ensures KeepDigits(slotid) != [] ==>
              (r.None? <==> DecimalValue(KeepDigits(slotid)) > MaxInt32)
              && (r.Some? ==> r.value == DecimalValue(KeepDigits(slotid)))
  {
    var digits := KeepDigits(slotid);
    if digits == [] || DecimalValue(digits) > MaxInt32 then None else Some(DecimalValue(digits))
  }

  /** char.TryParse of the id with everything but a-z removed: exactly one letter parses. */
  function ParseSlotChar(slotid: string): (r: Option<char16>)
    ensures r.Some? <==> |KeepLowerLetters(slotid)| == 1
    ensures r.Some? ==> 'a' as int <= r.value <= 'z' as int
    ensures r.Some? ==> r.value == KeepLowerLetters(slotid)[0] as int
  {
    var letters := KeepLowerLetters(slotid);
    if |letters| == 1 then Some(letters[0] as int) else None
  }

  /** The slot number is parsed first, so an id bad in both ways reports the number. */
  function ParseSlotId(slotid: string): (r: Result<SlotId, MergeError>)
    ensures r.Success? <==> ParseSlotInt(slotid).Some? && ParseSlotChar(slotid).Some?
    ensures r.Failure? ==> (r.error == BadSlotInt <==> ParseSlotInt(slotid).None?)
    ensures r.Success? ==> 0 <= r.value.slotInt <= MaxInt32
                           && 'a' as int <= r.value.slotChar <= 'z' as int
  {
    match ParseSlotInt(slotid)
    case None => Failure(BadSlotInt)
    case Some(n) =>
      match ParseSlotChar(slotid)
      case None => Failure(BadSlotChar)
      case Some(c) => Success(SlotId(n, c))
  }

  /** A slot id written as the number followed by the letter reads back as that number and
      letter. */
  lemma SlotIdRoundTrip(n: nat, c: char)
    requires n <= MaxInt32 && 'a' <= c <= 'z'
    ensures ParseSlotId(DecimalString(n) + [c]) == Success(SlotId(n, c as int))
  {
    var ds := DecimalString(n);
    KeepDistributes(ds, [c]);
    DecimalRoundTrip(n);
    assert KeepDigits([c]) == [];
    assert KeepLowerLetters([c]) == [c];
    assert KeepDigits(ds) == ds;
    NoLettersInDigits(ds);
    assert KeepDigits(ds + [c]) == ds;
    assert KeepLowerLetters(ds + [c]) == [c];
    assert ParseSlotInt(ds + [c]) == Some(n);
    assert ParseSlotChar(ds + [c]) == Some(c as int);
  }

  lemma {:induction false} NoLettersInDigits(ds: string)
    requires forall i :: 0 <= i < |ds| ==> IsDigit(ds[i])
    ensures KeepLowerLetters(ds) == []
    decreases |ds|
  {
    if ds != [] {
      KeepDistributes([ds[0]], ds[1..]);
      assert ds == [ds[0]] + ds[1..];
      NoLettersInDigits(ds[1..]);
    }
  }

  /** Whatever surrounds them, digits that spell `n` after leading zeros ("01a", "a0012")
      parse as `n` when it fits an `int` and fail otherwise ("2147483648a"). */
  lemma SlotIntOfDigits(slotid: string, zeros: string, n: nat)
    requires forall i :: 0 <= i < |zeros| ==> zeros[i] == '0'
    requires KeepDigits(slotid) == zeros + DecimalString(n)
    ensures ParseSlotInt(slotid) == if n <= MaxInt32 then Some(n) else None
  {
    LeadingZerosValue(zeros, DecimalString(n));
    DecimalRoundTrip(n);
  }

  /** Ids with two letters ("1ab") or none ("12") stop the merge. */
  lemma SlotIdNeedsOneLetter(slotid: string)
    requires ParseSlotInt(slotid).Some? && |KeepLowerLetters(slotid)| != 1
    ensures ParseSlotId(slotid) == Failure(BadSlotChar)
  {
  }

  // ---- Package names. ----

  /** The Android stop characters: the package name runs up to '&', '?' or a line end. */
  const AndroidStops: set<char> := {'&', '?', '\n'}

  /** The package name of an ad, read from its URL as the build target does: on Android the
      text after the first "id=" up to '&', '?' or a line end; on iOS the text after the
      first '#' up to a line end; elsewhere the whole URL. No match gives "". */
  function ExtractPackageName(platform: Platform, url: string): (r: string)
    ensures platform == OtherPlatform ==> r == url
    ensures platform == Android ==> forall i :: 0 <= i < |r| ==> r[i] !in AndroidStops
    ensures platform == Android && !Contains(url, "id=") ==> r == []
    ensures platform == IOS ==> forall i :: 0 <= i < |r| ==> r[i] != '\n'
    ensures platform == IOS && '#' !in url ==> r == []
  {
    match platform
    case Android =>
      var i := IndexOfFrom(url, "id=", 0);
      if i < 0 then [] else SpanUntil(url[i + 3..], AndroidStops)
    case IOS =>
      var i := IndexOfChar(url, '#');
      if i == |url| then [] else SpanUntil(url[i + 1..], {'\n'})
    case OtherPlatform => url
  }

  lemma NoIdBefore(prefix: string, tail: string, i: int)
    requires '=' !in prefix && 0 <= i < |prefix|
    ensures !OccursAt(prefix + "id=" + tail, "id=", i)
  {
    var url := prefix + "id=" + tail;
    assert url[i..i + 3][2] == url[i + 2];
    assert i + 2 < |prefix| ==> url[i + 2] == prefix[i + 2];
    assert url[|prefix|] == 'i' && url[|prefix| + 1] == 'd';
  }

  lemma FirstIdAt(prefix: string, tail: string)
    requires '=' !in prefix
    ensures IndexOfFrom(prefix + "id=" + tail, "id=", 0) == |prefix|
  {
    var url := prefix + "id=" + tail;
    assert url[|prefix|..|prefix| + 3] == "id=";
    assert OccursAt(url, "id=", |prefix|);
    forall i | 0 <= i < |prefix| ensures !OccursAt(url, "id=", i) {
      NoIdBefore(prefix, tail, i);
    }
  }

  /** A store link `prefix` + "id=" + package, optionally followed by further parameters,
      gives back the package when `prefix` holds no '='. */
  lemma AndroidPackageOfStoreUrl(prefix: string, pkg: string, rest: string)
    requires '=' !in prefix
    requires forall i :: 0 <= i < |pkg| ==> pkg[i] !in AndroidStops
    requires rest == [] || rest[0] in AndroidStops
    ensures ExtractPackageName(Android, prefix + "id=" + pkg + rest) == pkg
  {
    var url := prefix + "id=" + pkg + rest;
    assert url == prefix + "id=" + (pkg + rest);
    FirstIdAt(prefix, pkg + rest);
    assert url[|prefix| + 3..] == pkg + rest;
    SpanPrefix(pkg, rest, AndroidStops);
  }

  /** An iOS link `prefix` + "#" + name gives back the name when `prefix` holds no '#'. */
  lemma IOSPackageOfUrl(prefix: string, name: string)
    requires '#' !in prefix && '\n' !in name
    ensures ExtractPackageName(IOS, prefix + "#" + name) == name
  {
    var url := prefix + "#" + name;
    assert forall i :: 0 <= i < |prefix| ==> url[i] == prefix[i] && prefix[i] != '#';
    assert url[|prefix|] == '#';
    assert IndexOfChar(url, '#') == |prefix|;
    assert url[|prefix| + 1..] == name;
    SpanPrefix(name, [], {'\n'});
    assert name + [] == name;
  }

  lemma {:induction false} SpanPrefix(a: string, b: string, stops: set<char>)
    requires forall i :: 0 <= i < |a| ==> a[i] !in stops
    requires b == [] || b[0] in stops
    ensures SpanUntil(a + b, stops) == a
    decreases |a|
  {
    if a != [] {
      assert (a + b)[1..] == a[1..] + b;
      SpanPrefix(a[1..], b, stops);
    } else {
      assert a + b == b;
    }
  }

  // ---- Installed apps. ----

  /** IsPackageInstalled: the lower-cased package name contains one of the installed-app
      entries. */
  function IsPackageInstalled(installed: seq<string>, pkg: string): (r: bool)
    ensures r <==> exists i :: 0 <= i < |installed| && Contains(ToLower(pkg), installed[i])
  {
    if installed == [] then false
    else Contains(ToLower(pkg), installed[0]) || IsPackageInstalled(installed[1..], pkg)
  }

  lemma ToLowerIdempotent(s: string)
    ensures ToLower(ToLower(s)) == ToLower(s)
  {
    ToLowerFacts(ToLower(s));
  }

  /** The test ignores the case of the package name. */
  lemma InstalledIgnoresCase(installed: seq<string>, pkg: string)
    ensures IsPackageInstalled(installed, ToLower(pkg)) == IsPackageInstalled(installed, pkg)
  {
    ToLowerIdempotent(pkg);
  }

  /** An empty entry is contained in every name, so it marks every app installed. */
  lemma EmptyEntryMatchesAll(installed: seq<string>, pkg: string)
    requires [] in installed
    ensures IsPackageInstalled(installed, pkg)
  {
    var i :| 0 <= i < |installed| && installed[i] == [];
    assert OccursAt(ToLower(pkg), installed[i], 0);
  }

  /** Each entry trimmed and lower-cased, as UpdateInstalledPackages adds them. */
  function CleanEntries(parts: seq<string>): (r: seq<string>)
    ensures |r| == |parts|
    ensures forall k :: 0 <= k < |parts| ==> r[k] == ToLower(Trim(parts[k]))
  {
    if parts == [] then [] else [ToLower(Trim(parts[0]))] + CleanEntries(parts[1..])
  }

  /** The entries that are not blank, in order. */
  function NonBlank(entries: seq<string>): (r: seq<string>)
    ensures |r| <= |entries|
  {
    if entries == [] then []
    else if entries[0] == [] then NonBlank(entries[1..])
    else [entries[0]] + NonBlank(entries[1..])
  }

  /** Each entry trimmed and lower-cased, leaving out the entries that were only white
      space. */
  function CleanNonBlankEntries(parts: seq<string>): (r: seq<string>)
    ensures |r| <= |parts|
  {
    NonBlank(CleanEntries(parts))
  }

  /** One pass of UpdateInstalledPackages' loop: the `i`-th piece is added, cleaned, unless it
      was blank, to the entries `acc` of the pieces before it. */
  lemma CleanNonBlankStep(acc: seq<string>, parts: seq<string>, i: int)
    requires 0 <= i < |parts|
    ensures var entry := ToLower(Trim(parts[i]));
            acc + CleanNonBlankEntries(parts[i..])
            == (if entry != [] then acc + [entry] else acc) + CleanNonBlankEntries(parts[i + 1..])
  {
    var rest := parts[i..];
    assert rest[0] == parts[i] && rest[1..] == parts[i + 1..];
    var cleaned := CleanEntries(rest);
    assert cleaned[0] == ToLower(Trim(parts[i])) && cleaned[1..] == CleanEntries(parts[i + 1..]);
    NonBlankStep(acc, cleaned);
  }

  lemma NonBlankStep(acc: seq<string>, entries: seq<string>)
    requires entries != []
    ensures acc + NonBlank(entries) == (if entries[0] != [] then acc + [entries[0]] else acc) + NonBlank(entries[1..])
  {
    if entries[0] != [] {
      AppendAssoc(acc, [entries[0]], NonBlank(entries[1..]));
    }
  }

  lemma AppendAssoc(a: seq<string>, b: seq<string>, c: seq<string>)
    ensures a + (b + c) == (a + b) + c
  {
  }

  /** The piece that entry `k` of the non-blank list came from, which is not blank; the order
      is kept (NonBlankSourceOrdered). */
  function NonBlankSource(entries: seq<string>, k: nat): (j: nat)
    requires k < |NonBlank(entries)|
    ensures j < |entries| && NonBlank(entries)[k] == entries[j] != []
    decreases |entries|
  {
    if entries[0] == [] then 1 + NonBlankSource(entries[1..], k)
    else if k == 0 then 0
    else 1 + NonBlankSource(entries[1..], k - 1)
  }

  /** Later entries of the non-blank list come from later pieces. */
  lemma {:induction false} NonBlankSourceOrdered(entries: seq<string>, k1: nat, k2: nat)
    requires k1 < k2 < |NonBlank(entries)|
    ensures NonBlankSource(entries, k1) < NonBlankSource(entries, k2)
    decreases |entries|
  {
    if entries[0] == [] {
      NonBlankSourceOrdered(entries[1..], k1, k2);
    } else if k1 > 0 {
      NonBlankSourceOrdered(entries[1..], k1 - 1, k2 - 1);
    }
  }

  lemma CleanNonBlankAreEntries(parts: seq<string>)
    requires forall k :: 0 <= k < |parts| ==> ',' !in parts[k]
    ensures forall k :: 0 <= k < |CleanNonBlankEntries(parts)| ==> IsAppEntry(CleanNonBlankEntries(parts)[k])
  {
    forall k | 0 <= k < |CleanNonBlankEntries(parts)| ensures IsAppEntry(CleanNonBlankEntries(parts)[k]) {
      var j := NonBlankSource(CleanEntries(parts), k);
      CleanEntryFacts(parts[j]);
    }
  }

  /** UpdateInstalledPackages as written: an empty list gives no entries; otherwise the list
      is trimmed, its last character (the trailing comma) removed, split on ',' with empty
      pieces dropped, and each piece trimmed and lower-cased. A list of only white space
      trims to "" and Remove(-1) throws. */
  function CleanPackageListAsWritten(raw: string): (r: Result<seq<string>, Fault>)
    ensures raw == [] ==> r == Success([])
    ensures r.Failure? <==> raw != [] && forall i :: 0 <= i < |raw| ==> IsWhiteSpace(raw[i])
  {
    if raw == [] then Success([])
    else
      var t := Trim(raw);
      if t == [] then Failure(ArgumentOutOfRange)
      else Success(CleanEntries(SplitRemoveEmpty(t[..|t| - 1], ',')))
  }

  lemma SplitExample()
    ensures SplitRemoveEmpty("a, ", ',') == ["a", " "]
  {
    var body := "a, ";
    assert IndexOfChar(body, ',') == 1;
    assert body[..1] == "a" && body[2..] == " ";
    assert IndexOfChar(" ", ',') == 1;
    assert " "[..1] == " ";
    assert SplitRemoveEmpty(" ", ',') == [" "];
  }

  lemma TrimExample()
    ensures Trim("a, ,") == "a, ," && Trim(" ") == [] && Trim("a") == "a"
  {
    assert IsWhiteSpace(' ');
    assert !IsWhiteSpace('a') && !IsWhiteSpace(',');
    TrimFixpoint("a, ,");
    TrimFixpoint("a");
  }

  /** The example list "a, ," trims to itself and splits, without its last comma, into "a"
      and " ". */
  lemma ExamplePieces()
    ensures var t := Trim("a, ,");
            t == "a, ," && SplitRemoveEmpty(t[..|t| - 1], ',') == ["a", " "]
  {
    TrimExample();
    SplitExample();
    assert "a, ,"[..3] == "a, ";
  }

  lemma CleanEntriesExample()
    ensures CleanEntries(["a", " "]) == ["a", ""]
  {
    TrimExample();
    assert ToLower("a") == "a" && ToLower([]) == [];
    assert ["a", " "][1..] == [" "];
    assert CleanEntries([" "]) == [""];
  }

  lemma CleanNonBlankExample()
    ensures CleanNonBlankEntries(["a", " "]) == ["a"]
  {
    CleanEntriesExample();
    var e: seq<string> := ["a", ""];
    assert e[1..][1..] == [];
    assert NonBlank(e[1..]) == [];
  }

  /** A list with a blank entry between commas keeps that entry as "", so every app then
      counts as installed. */
  lemma BlankEntryAsWritten(pkg: string)
    ensures CleanPackageListAsWritten("a, ,") == Success(["a", ""])
    ensures IsPackageInstalled(["a", ""], pkg)
  {
    BlankEntryKeptAsWritten();
    EmptyEntryMatchesAll(["a", ""], pkg);
  }

  lemma BlankEntryKeptAsWritten()
    ensures CleanPackageListAsWritten("a, ,") == Success(["a", ""])
  {
    ExamplePieces();
    CleanEntriesExample();
  }

  /** With blank entries left out, the same list gives just the one app. */
  lemma BlankEntryCorrected()
    ensures CleanPackageList("a, ,") == Success(["a"])
  {
    ExamplePieces();
    CleanNonBlankExample();
  }

  /** UpdateInstalledPackages, with blank entries left out (what the trimming is for). */
  function CleanPackageList(raw: string): (r: Result<seq<string>, Fault>)
    ensures raw == [] ==> r == Success([])
    ensures r.Failure? <==> raw != [] && forall i :: 0 <= i < |raw| ==> IsWhiteSpace(raw[i])
  {
    if raw == [] then Success([])
    else
      var t := Trim(raw);
      if t == [] then Failure(ArgumentOutOfRange)
      else Success(CleanNonBlankEntries(SplitRemoveEmpty(t[..|t| - 1], ',')))
  }

  /** An installed-app entry: non-empty, lower case, trimmed, without commas. */
  predicate IsAppEntry(e: string)
  {
    e != [] && IsLower(e) && IsTrimmed(e) && ',' !in e
  }

  lemma CleanEntryFacts(part: string)
    requires ',' !in part && ToLower(Trim(part)) != []
    ensures IsAppEntry(ToLower(Trim(part)))
  {
    ToLowerFacts(Trim(part));
    if ',' in Trim(part) {
      TrimChars(part, ',');
    }
  }

  /** Every entry of the cleaned list is a proper app entry. */
  lemma CleanPackageListEntries(raw: string)
    ensures CleanPackageList(raw).Success? ==>
              forall k :: 0 <= k < |CleanPackageList(raw).value| ==> IsAppEntry(CleanPackageList(raw).value[k])
  {
    if raw != [] && Trim(raw) != [] {
      var t := Trim(raw);
      CleanNonBlankAreEntries(SplitRemoveEmpty(t[..|t| - 1], ','));
    }
  }

  lemma CleanNonBlankOfEntries(parts: seq<string>)
    requires forall k :: 0 <= k < |parts| ==> IsAppEntry(parts[k])
    ensures CleanNonBlankEntries(parts) == parts
  {
    var cleaned := CleanEntries(parts);
    forall k | 0 <= k < |parts| ensures cleaned[k] == parts[k] {
      TrimFixpoint(parts[k]);
      ToLowerFacts(parts[k]);
    }
    assert cleaned == parts;
    NonBlankOfNonBlank(parts);
  }

  lemma {:induction false} NonBlankOfNonBlank(entries: seq<string>)
    requires forall k :: 0 <= k < |entries| ==> entries[k] != []
    ensures NonBlank(entries) == entries
    decreases |entries|
  {
    if entries != [] {
      NonBlankOfNonBlank(entries[1..]);
    }
  }

  /** The list format the device reports, every package followed by a comma, reads back as
      the packages. */
  lemma PackageListRoundTrip(apps: seq<string>)
    requires apps != [] && forall k :: 0 <= k < |apps| ==> IsAppEntry(apps[k])
    ensures CleanPackageList(Join(apps, ',') + ",") == Success(apps)
  {
    var joined := Join(apps, ',');
    var raw := joined + ",";
    JoinStartsWithFirst(apps, ',');
    assert raw[0] == apps[0][0];
    assert IsTrimmed(raw);
    TrimFixpoint(raw);
    assert raw[..|raw| - 1] == joined;
    SplitJoin(apps, ',');
    CleanNonBlankOfEntries(apps);
  }

  lemma {:induction false} JoinStartsWithFirst(parts: seq<string>, sep: char)
    requires parts != [] && parts[0] != []
    ensures Join(parts, sep) != [] && Join(parts, sep)[0] == parts[0][0]
  {
  }

  // ---- One record merged into one catalog file. ----

  /** What the merge needs besides the record: this app's bundle id, the installed-app
      entries, the build target, and the match of the image URL against the
      image-extension regular expression (left uninterpreted). */
  datatype MergeEnv = MergeEnv(bundleId: string, installed: seq<string>, platform: Platform, imageFileType: string -> string)

  /** The file after one record; whether the record added an ad (the slots of the file are
      then re-randomized); whether its timestamp asks for the file's slots to be refreshed. */
  datatype RecordMerge = RecordMerge(file: FileData, newAd: bool, reload: bool)

  /** The fields of an ad that only the texture download writes, and its letter. */
  predicate SameCacheState(a: AdData, b: AdData)
  {
    a.slotChar == b.slotChar && a.isTextureFileCached == b.isTextureFileCached
    && a.isTextureReady == b.isTextureReady && a.lastUpdated == b.lastUpdated
    && a.adTextureId == b.adTextureId
  }

  /** The manifest's fields written onto the record's ad: the cache file name, the package
      name and what it implies, the URLs, the active flag and the new timestamp. */
  function Refreshed(ad: AdData, rec: JsonSlotData, env: MergeEnv): (r: AdData)
    ensures SameCacheState(r, ad)
    ensures r.packageName == ExtractPackageName(env.platform, rec.adurl)
    ensures r.isSelf <==> Contains(r.packageName, env.bundleId)
    ensures r.isInstalled <==> IsPackageInstalled(env.installed, r.packageName)
    ensures r.adUrl == rec.adurl && r.imgUrl == rec.imgurl && r.isActive == rec.active
    ensures r.newUpdateTime == rec.updatetime
    ensures r.fileName == rec.slotid + env.imageFileType(rec.imgurl)
  {
    var pkg := ExtractPackageName(env.platform, rec.adurl);
    ad.(fileName := rec.slotid + env.imageFileType(rec.imgurl),
        isSelf := Contains(pkg, env.bundleId),
        isActive := rec.active,
        isInstalled := IsPackageInstalled(env.installed, pkg),
        adUrl := rec.adurl,
        packageName := pkg,
        imgUrl := rec.imgurl,
        newUpdateTime := rec.updatetime)
  }

  /** What an ad looks like after the record depends on the record alone, apart from its
      cache state. */
  lemma RefreshedIdempotent(ad: AdData, rec: JsonSlotData, env: MergeEnv)
    ensures Refreshed(Refreshed(ad, rec, env), rec, env) == Refreshed(ad, rec, env)
  {
  }

  /** The slots with one for number `n` appended when there is none. */
  function UpsertSlot(slots: seq<SlotData>, n: int): (r: seq<SlotData>)
    ensures SlotIndex(slots, n) >= 0 ==> r == slots
    ensures SlotIndex(slots, n) < 0 ==> r == slots + [NewSlot(n)]
    ensures SlotIndex(r, n) >= 0
  {
    if SlotIndex(slots, n) >= 0 then slots
    else
      var r := slots + [NewSlot(n)];
      assert r[|slots|].slotInt == n;
      r
  }

  /** The ads with one lettered `c` appended when there is none. */
  function UpsertAd(ads: seq<AdData>, c: char16): (r: seq<AdData>)
    ensures AdIndex(ads, c) >= 0 ==> r == ads
    ensures AdIndex(ads, c) < 0 ==> r == ads + [NewAd(c)]
    ensures AdIndex(r, c) >= 0
  {
    if AdIndex(ads, c) >= 0 then ads
    else
      var r := ads + [NewAd(c)];
      assert r[|ads|].slotChar == c;
      r
  }

  /** One loop pass of DownloadIASData over a record, on the file the manifest belongs to.
      A bad slot id stops the merge. Otherwise the slot and the ad are created when missing,
      then the ad takes the record's fields; a reload is asked for when the ad's stored
      timestamp is older than the record's or still 0. The source's checks that the slot and
      the ad were found after creating them cannot fail (UpsertSlot, UpsertAd). */
  function MergeRecord(file: FileData, rec: JsonSlotData, env: MergeEnv): (r: Result<RecordMerge, MergeError>)
    ensures r.Failure? <==> ParseSlotId(rec.slotid).Failure?
    ensures r.Failure? ==> r.error == ParseSlotId(rec.slotid).error
  {
    match ParseSlotId(rec.slotid)
    case Failure(e) => Failure(e)
    case Success(id) =>
      var slots := UpsertSlot(file.slotInts, id.slotInt);
      var si := SlotIndex(slots, id.slotInt);
      var ads := UpsertAd(slots[si].advert, id.slotChar);
      var ai := AdIndex(ads, id.slotChar);
      var ad := ads[ai];
      var reload := ad.newUpdateTime < rec.updatetime || ad.newUpdateTime == 0;
      Success(RecordMerge(FileData(slots[si := slots[si].(advert := ads[ai := Refreshed(ad, rec, env)])]),
                          AdIndex(slots[si].advert, id.slotChar) < 0, reload))
  }

  /** The ad for slot number `s` and letter `c` in a file: the first ad with the letter in the
      first slot with the number, or none when either is missing. */
  function FindAd(file: FileData, s: int, c: char16): (r: Option<AdData>)
    ensures r.Some? ==> r.value.slotChar == c
    ensures r.None? <==> SlotIndex(file.slotInts, s) < 0
                         || AdIndex(file.slotInts[SlotIndex(file.slotInts, s)].advert, c) < 0
    ensures r.Some? ==> r.value == file.slotInts[SlotIndex(file.slotInts, s)].advert[AdIndex(file.slotInts[SlotIndex(file.slotInts, s)].advert, c)]
  {
    var si := SlotIndex(file.slotInts, s);
    if si < 0 then None
    else
      var ai := AdIndex(file.slotInts[si].advert, c);
      if ai < 0 then None else Some(file.slotInts[si].advert[ai])
  }

  /** FindAd on file `f` is the manager's GetAdData. */
  lemma FindAdIsGetAdData(data: seq<FileData>, f: nat, s: int, c: char16)
    requires f < |data|
    ensures FindAd(data[f], s, c) == GetAdData(data, f, s, c)
  {
  }

  lemma SlotIndexUpsert(slots: seq<SlotData>, n: int, s: int)
    ensures SlotIndex(UpsertSlot(slots, n), s)
            == if SlotIndex(slots, s) >= 0 then SlotIndex(slots, s) else if s == n then |slots| else -1
  {
    var r := UpsertSlot(slots, n);
    FirstMatchUnique(r, [], s, 0);
    if SlotIndex(slots, s) >= 0 {
      assert IsFirstSlot(r, SlotIndex(slots, s), s);
    } else if s == n {
      assert IsFirstSlot(r, |slots|, s);
    }
  }

  lemma SlotIndexSetSameKey(slots: seq<SlotData>, k: int, x: SlotData, s: int)
    requires 0 <= k < |slots| && x.slotInt == slots[k].slotInt
    ensures SlotIndex(slots[k := x], s) == SlotIndex(slots, s)
  {
    var r := slots[k := x];
    FirstMatchUnique(r, [], s, 0);
    if SlotIndex(slots, s) >= 0 {
      assert IsFirstSlot(r, SlotIndex(slots, s), s);
    }
  }

  lemma AdIndexUpsert(ads: seq<AdData>, c: char16, d: char16)
    ensures AdIndex(UpsertAd(ads, c), d)
            == if AdIndex(ads, d) >= 0 then AdIndex(ads, d) else if d == c then |ads| else -1
  {
    var r := UpsertAd(ads, c);
    FirstMatchUnique([], r, 0, d);
    if AdIndex(ads, d) >= 0 {
      assert IsFirstAd(r, AdIndex(ads, d), d);
    } else if d == c {
      assert IsFirstAd(r, |ads|, d);
    }
  }

  lemma AdIndexSetSameKey(ads: seq<AdData>, k: int, x: AdData, d: char16)
    requires 0 <= k < |ads| && x.slotChar == ads[k].slotChar
    ensures AdIndex(ads[k := x], d) == AdIndex(ads, d)
  {
    var r := ads[k := x];
    FirstMatchUnique([], r, 0, d);
    if AdIndex(ads, d) >= 0 {
      assert IsFirstAd(r, AdIndex(ads, d), d);
    }
  }

  /** The ad a record is about before the merge: the existing one, or a fresh one. */
  function PriorAd(file: FileData, id: SlotId): AdData
  {
    var found := FindAd(file, id.slotInt, id.slotChar);
    if found.Some? then found.value else NewAd(id.slotChar)
  }

  /** After a record, its slot and ad exist and hold the record's fields on top of the
      ad's earlier cache state; the record added an ad exactly when there was none; it asks
      for a reload exactly when the stored timestamp was older or 0. */
  lemma MergeRecordOwnKey(file: FileData, rec: JsonSlotData, env: MergeEnv)
    requires MergeRecord(file, rec, env).Success?
    ensures var id := ParseSlotId(rec.slotid).value;
            var m := MergeRecord(file, rec, env).value;
            var prior := PriorAd(file, id);
            FindAd(m.file, id.slotInt, id.slotChar) == Some(Refreshed(prior, rec, env))
            && (m.newAd <==> FindAd(file, id.slotInt, id.slotChar).None?)
            && (m.reload <==> prior.newUpdateTime < rec.updatetime || prior.newUpdateTime == 0)
  {
    var id := ParseSlotId(rec.slotid).value;
    var slots := UpsertSlot(file.slotInts, id.slotInt);
    var si := SlotIndex(slots, id.slotInt);
    var ads := UpsertAd(slots[si].advert, id.slotChar);
    var ai := AdIndex(ads, id.slotChar);
    var slot' := slots[si].(advert := ads[ai := Refreshed(ads[ai], rec, env)]);
    SlotIndexSetSameKey(slots, si, slot', id.slotInt);
    AdIndexSetSameKey(ads, ai, Refreshed(ads[ai], rec, env), id.slotChar);
    if SlotIndex(file.slotInts, id.slotInt) >= 0 {
      assert slots == file.slotInts;
      AdIndexUpsert(slots[si].advert, id.slotChar, id.slotChar);
    } else {
      SlotIndexUpsert(file.slotInts, id.slotInt, id.slotInt);
      assert slots[si] == NewSlot(id.slotInt);
    }
  }

  /** A record leaves what every other slot number and letter finds as it was. */
  lemma MergeRecordOtherKeys(file: FileData, rec: JsonSlotData, env: MergeEnv, s: int, c: char16)
    requires MergeRecord(file, rec, env).Success?
    requires (s, c) != (ParseSlotId(rec.slotid).value.slotInt, ParseSlotId(rec.slotid).value.slotChar)
    ensures FindAd(MergeRecord(file, rec, env).value.file, s, c) == FindAd(file, s, c)
  {
    var id := ParseSlotId(rec.slotid).value;
    var slots := UpsertSlot(file.slotInts, id.slotInt);
    var si := SlotIndex(slots, id.slotInt);
    var ads := UpsertAd(slots[si].advert, id.slotChar);
    var ai := AdIndex(ads, id.slotChar);
    var slot' := slots[si].(advert := ads[ai := Refreshed(ads[ai], rec, env)]);
    SlotIndexUpsert(file.slotInts, id.slotInt, s);
    SlotIndexSetSameKey(slots, si, slot', s);
    if s == id.slotInt {
      AdIndexUpsert(slots[si].advert, id.slotChar, c);
      AdIndexSetSameKey(ads, ai, Refreshed(ads[ai], rec, env), c);
      if SlotIndex(file.slotInts, id.slotInt) >= 0 {
        assert slots == file.slotInts;
      } else {
        assert slots[si] == NewSlot(id.slotInt);
      }
    }
  }

  /** Merging the same record again adds nothing and leaves the file as it is; it asks for
      a reload only for a record stamped 0. */
  lemma MergeRecordIdempotent(file: FileData, rec: JsonSlotData, env: MergeEnv)
    requires MergeRecord(file, rec, env).Success?
    ensures var m := MergeRecord(file, rec, env).value;
            MergeRecord(m.file, rec, env) == Success(RecordMerge(m.file, false, rec.updatetime == 0))
  {
    var id := ParseSlotId(rec.slotid).value;
    var m := MergeRecord(file, rec, env).value;
    var slots := UpsertSlot(file.slotInts, id.slotInt);
    var si := SlotIndex(slots, id.slotInt);
    var ads := UpsertAd(slots[si].advert, id.slotChar);
    var ai := AdIndex(ads, id.slotChar);
    var slot' := slots[si].(advert := ads[ai := Refreshed(ads[ai], rec, env)]);
    SlotIndexSetSameKey(slots, si, slot', id.slotInt);
    AdIndexSetSameKey(ads, ai, Refreshed(ads[ai], rec, env), id.slotChar);
    assert SlotIndex(m.file.slotInts, id.slotInt) == si;
    assert m.file.slotInts[si] == slot';
    assert AdIndex(slot'.advert, id.slotChar) == ai;
    RefreshedIdempotent(ads[ai], rec, env);
    assert slot'.advert[ai := Refreshed(slot'.advert[ai], rec, env)] == slot'.advert;
    assert m.file.slotInts[si := slot'.(advert := slot'.advert)] == m.file.slotInts;
  }

  /** A record only appends slots and ads and moves none. */
  lemma MergeRecordExtends(file: FileData, rec: JsonSlotData, env: MergeEnv)
    requires MergeRecord(file, rec, env).Success?
    ensures FileExtends(file, MergeRecord(file, rec, env).value.file)
    ensures KeepsCursors(file, MergeRecord(file, rec, env).value.file)
  {
  }

  /** Every slot of `a` has the same cursor in `b`. */
  predicate KeepsCursors(a: FileData, b: FileData)
  {
    |a.slotInts| <= |b.slotInts|
    && forall k :: 0 <= k < |a.slotInts| ==> b.slotInts[k].lastSlotId == a.slotInts[k].lastSlotId
  }

  /** A record keeps the file well formed. */
  lemma MergeRecordKeepsWellFormed(file: FileData, rec: JsonSlotData, env: MergeEnv)
    requires WellFormedFile(file) && MergeRecord(file, rec, env).Success?
    ensures WellFormedFile(MergeRecord(file, rec, env).value.file)
  {
    var id := ParseSlotId(rec.slotid).value;
    var slots := UpsertSlot(file.slotInts, id.slotInt);
    var si := SlotIndex(slots, id.slotInt);
    var ads := UpsertAd(slots[si].advert, id.slotChar);
    var ai := AdIndex(ads, id.slotChar);
    var slot' := slots[si].(advert := ads[ai := Refreshed(ads[ai], rec, env)]);
    UpsertSlotWellFormed(file.slotInts, id.slotInt);
    UpsertAdWellFormed(slots[si], id.slotChar, Refreshed(ads[ai], rec, env));
    SetSlotWellFormed(slots, si, slot');
  }

  /** Adding slot `n` if missing keeps slot numbers unique; every slot is well formed or new. */
  lemma UpsertSlotWellFormed(slots: seq<SlotData>, n: int)
    requires WellFormedFile(FileData(slots))
    ensures var r := UpsertSlot(slots, n);
            UniqueSlotInts(r) && forall k :: 0 <= k < |r| ==> WellFormedSlot(r[k]) || r[k] == NewSlot(n)
  {
  }

  /** Refreshing the ad of letter `c`, added if missing, keeps a slot well formed. */
  lemma UpsertAdWellFormed(slot: SlotData, c: char16, ad: AdData)
    requires WellFormedSlot(slot) || slot == NewSlot(slot.slotInt)
    requires 'a' as int <= c <= 'z' as int
    requires ad.slotChar == UpsertAd(slot.advert, c)[AdIndex(UpsertAd(slot.advert, c), c)].slotChar
    ensures var ads := UpsertAd(slot.advert, c);
            WellFormedSlot(slot.(advert := ads[AdIndex(ads, c) := ad]))
  {
  }

  /** Replacing one well-formed slot by another of the same number keeps the file well formed. */
  lemma SetSlotWellFormed(slots: seq<SlotData>, si: int, slot: SlotData)
    requires 0 <= si < |slots| && slot.slotInt == slots[si].slotInt && WellFormedSlot(slot)
    requires UniqueSlotInts(slots) && forall k :: 0 <= k < |slots| && k != si ==> WellFormedSlot(slots[k])
    ensures WellFormedFile(FileData(slots[si := slot]))
  {
  }

  /** How the records of one manifest end: all merged, with the reload and randomize flags
      they set; or stopped by a bad slot id, with the file as the earlier records left it. */
  datatype FileMerge =
    | Completed(file: FileData, reload: bool, randomize: bool)
    | Aborted(file: FileData, error: MergeError)

  /** The record loop of DownloadIASData over one manifest. */
  function MergeRecords(file: FileData, recs: seq<JsonSlotData>, env: MergeEnv, reload: bool, randomize: bool): (r: FileMerge)
    ensures r.Completed? ==> (reload ==> r.reload) && (randomize ==> r.randomize)
    decreases |recs|
  {
    if recs == [] then Completed(file, reload, randomize)
    else
      match MergeRecord(file, recs[0], env)
      case Failure(e) => Aborted(file, e)
      case Success(m) => MergeRecords(m.file, recs[1..], env, reload || m.reload, randomize || m.newAd)
  }

  /** The record loop with `merge` as its body in place of MergeRecord. */
  function RecordsWith(merge: (FileData, JsonSlotData) -> Result<RecordMerge, MergeError>, file: FileData,
                       recs: seq<JsonSlotData>, reload: bool, randomize: bool): FileMerge
    decreases |recs|
  {
    if recs == [] then Completed(file, reload, randomize)
    else
      var one := merge(file, recs[0]);
      if one.Failure? then Aborted(file, one.error)
      else RecordsWith(merge, one.value.file, recs[1..], reload || one.value.reload, randomize || one.value.newAd)
  }

  /** `merge` merges every record as MergeRecord does. */
  ghost predicate MergeIs(merge: (FileData, JsonSlotData) -> Result<RecordMerge, MergeError>, env: MergeEnv)
  {
    forall file: FileData, rec: JsonSlotData {:trigger MergeRecord(file, rec, env)} :: merge(file, rec) == MergeRecord(file, rec, env)
  }

  lemma MergeIsMerge(env: MergeEnv)
    ensures MergeIs((file: FileData, rec: JsonSlotData) => MergeRecord(file, rec, env), env)
  {
  }

  /** With such a body the loop is the record loop. */
  lemma {:induction false} RecordsWithIs(merge: (FileData, JsonSlotData) -> Result<RecordMerge, MergeError>, env: MergeEnv,
                                         file: FileData, recs: seq<JsonSlotData>, reload: bool, randomize: bool)
    requires MergeIs(merge, env)
    ensures RecordsWith(merge, file, recs, reload, randomize) == MergeRecords(file, recs, env, reload, randomize)
    decreases |recs|
  {
    if recs != [] {
      var one := MergeRecord(file, recs[0], env);
      assert merge(file, recs[0]) == one;
      if one.Success? {
        RecordsWithIs(merge, env, one.value.file, recs[1..], reload || one.value.reload, randomize || one.value.newAd);
      }
    }
  }

  /** The loop at record `i` when `merge` stops there. */
  lemma RecordsWithStops(target: FileMerge, merge: (FileData, JsonSlotData) -> Result<RecordMerge, MergeError>, file: FileData,
                         recs: seq<JsonSlotData>, i: int, reload: bool, randomize: bool, one: Result<RecordMerge, MergeError>)
    requires 0 <= i < |recs| && RecordsWith(merge, file, recs[i..], reload, randomize) == target
    requires one == merge(file, recs[i]) && one.Failure?
    ensures target == Aborted(file, one.error)
  {
    assert recs[i..][0] == recs[i];
  }

  /** The loop at record `i` when `merge` merges it. */
  lemma RecordsWithGoesOn(target: FileMerge, merge: (FileData, JsonSlotData) -> Result<RecordMerge, MergeError>, file: FileData,
                          recs: seq<JsonSlotData>, i: int, reload: bool, randomize: bool, one: Result<RecordMerge, MergeError>)
    requires 0 <= i < |recs| && RecordsWith(merge, file, recs[i..], reload, randomize) == target
    requires one == merge(file, recs[i]) && one.Success?
    ensures RecordsWith(merge, one.value.file, recs[i + 1..], reload || one.value.reload, randomize || one.value.newAd) == target
  {
    assert recs[i..][0] == recs[i] && recs[i..][1..] == recs[i + 1..];
  }

  /** The loop after the last record. */
  lemma RecordsWithDone(target: FileMerge, merge: (FileData, JsonSlotData) -> Result<RecordMerge, MergeError>, file: FileData,
                        recs: seq<JsonSlotData>, reload: bool, randomize: bool)
    requires RecordsWith(merge, file, recs[|recs|..], reload, randomize) == target
    ensures target == Completed(file, reload, randomize)
  {
    assert recs[|recs|..] == [];
  }

  /** The records keep the file well formed, wherever they stop. */
  lemma {:induction false} MergeRecordsKeepsWellFormed(file: FileData, recs: seq<JsonSlotData>, env: MergeEnv, reload: bool, randomize: bool)
    requires WellFormedFile(file)
    ensures WellFormedFile(MergeRecords(file, recs, env, reload, randomize).file)
    decreases |recs|
  {
    if recs != [] && MergeRecord(file, recs[0], env).Success? {
      var m := MergeRecord(file, recs[0], env).value;
      MergeRecordKeepsWellFormed(file, recs[0], env);
      MergeRecordsKeepsWellFormed(m.file, recs[1..], env, reload || m.reload, randomize || m.newAd);
    }
  }

  /** The records only append to the file: ads are never removed or moved, and no slot's
      cursor moves, wherever the loop stops. */
  lemma {:induction false} MergeRecordsExtends(file: FileData, recs: seq<JsonSlotData>, env: MergeEnv, reload: bool, randomize: bool)
    ensures FileExtends(file, MergeRecords(file, recs, env, reload, randomize).file)
    ensures KeepsCursors(file, MergeRecords(file, recs, env, reload, randomize).file)
    decreases |recs|
  {
    if recs != [] && MergeRecord(file, recs[0], env).Success? {
      var m := MergeRecord(file, recs[0], env).value;
      MergeRecordExtends(file, recs[0], env);
      MergeRecordsExtends(m.file, recs[1..], env, reload || m.reload, randomize || m.newAd);
      FileExtendsTransitive(file, m.file, MergeRecords(m.file, recs[1..], env, reload || m.reload, randomize || m.newAd).file);
    }
  }

  /** The key a record is about. */
  function KeyOf(rec: JsonSlotData): Option<SlotId>
  {
    match ParseSlotId(rec.slotid)
    case Success(id) => Some(id)
    case Failure(_) => None
  }

  /** The file has an ad for this record's slot id. */
  predicate HasRecord(file: FileData, rec: JsonSlotData)
  {
    KeyOf(rec).Some? && FindAd(file, KeyOf(rec).value.slotInt, KeyOf(rec).value.slotChar).Some?
  }

  lemma MergeRecordKeepsRecords(file: FileData, rec: JsonSlotData, env: MergeEnv, other: JsonSlotData)
    requires MergeRecord(file, rec, env).Success?
    ensures HasRecord(MergeRecord(file, rec, env).value.file, rec)
    ensures HasRecord(file, other) ==> HasRecord(MergeRecord(file, rec, env).value.file, other)
  {
    MergeRecordOwnKey(file, rec, env);
    var id := ParseSlotId(rec.slotid).value;
    if KeyOf(other).Some? && KeyOf(other).value != id {
      MergeRecordOtherKeys(file, rec, env, KeyOf(other).value.slotInt, KeyOf(other).value.slotChar);
    }
  }

  /** When every record is merged, every record's slot id has its ad in the file, and
      whatever the file held before is still there. */
  lemma {:induction false} MergeRecordsAllPresent(file: FileData, recs: seq<JsonSlotData>, env: MergeEnv, reload: bool, randomize: bool, earlier: seq<JsonSlotData>)
    requires forall k :: 0 <= k < |earlier| ==> HasRecord(file, earlier[k])
    requires MergeRecords(file, recs, env, reload, randomize).Completed?
    ensures forall k :: 0 <= k < |recs| ==> HasRecord(MergeRecords(file, recs, env, reload, randomize).file, recs[k])
    ensures forall k :: 0 <= k < |earlier| ==> HasRecord(MergeRecords(file, recs, env, reload, randomize).file, earlier[k])
    decreases |recs|
  {
    if recs != [] {
      var m := MergeRecord(file, recs[0], env).value;
      forall k | 0 <= k < |earlier| ensures HasRecord(m.file, earlier[k]) {
        MergeRecordKeepsRecords(file, recs[0], env, earlier[k]);
      }
      MergeRecordKeepsRecords(file, recs[0], env, recs[0]);
      var earlier' := earlier + [recs[0]];
      assert forall k :: 0 <= k < |earlier'| ==> HasRecord(m.file, earlier'[k]);
      MergeRecordsAllPresent(m.file, recs[1..], env, reload || m.reload, randomize || m.newAd, earlier');
      var r := MergeRecords(file, recs, env, reload, randomize);
      assert r == MergeRecords(m.file, recs[1..], env, reload || m.reload, randomize || m.newAd);
      forall k | 0 <= k < |recs| ensures HasRecord(r.file, recs[k]) {
        if k == 0 {
          assert earlier'[|earlier|] == recs[0];
        } else {
          assert recs[k] == recs[1..][k - 1];
        }
      }
      forall k | 0 <= k < |earlier| ensures HasRecord(r.file, earlier[k]) {
        assert earlier'[k] == earlier[k];
      }
    }
  }

  /** A manifest whose every slot id is already in the file adds no ad, so the slots are
      not re-randomized. */
  lemma {:induction false} KnownRecordsDoNotRandomize(file: FileData, recs: seq<JsonSlotData>, env: MergeEnv, reload: bool)
    requires forall k :: 0 <= k < |recs| ==> HasRecord(file, recs[k])
    ensures MergeRecords(file, recs, env, reload, false).Completed?
    ensures !MergeRecords(file, recs, env, reload, false).randomize
    decreases |recs|
  {
    if recs != [] {
      assert HasRecord(file, recs[0]);
      var m := MergeRecord(file, recs[0], env).value;
      MergeRecordOwnKey(file, recs[0], env);
      forall k | 0 <= k < |recs[1..]| ensures HasRecord(m.file, recs[1..][k]) {
        assert recs[1..][k] == recs[k + 1];
        MergeRecordKeepsRecords(file, recs[0], env, recs[k + 1]);
      }
      KnownRecordsDoNotRandomize(m.file, recs[1..], env, reload || m.reload);
    }
  }

  /** Some record, merged into the file as the records before it left it, finds on its ad a
      timestamp older than its own or 0 (an ad it creates has 0). */
  predicate AnyReload(file: FileData, recs: seq<JsonSlotData>, env: MergeEnv)
    decreases |recs|
  {
    recs != [] && KeyOf(recs[0]).Some?
    && var prior := PriorAd(file, KeyOf(recs[0]).value);
       (prior.newUpdateTime < recs[0].updatetime || prior.newUpdateTime == 0
        || AnyReload(MergeRecord(file, recs[0], env).value.file, recs[1..], env))
  }

  /** Some record, merged into the file as the records before it left it, finds no ad for
      its slot id. */
  predicate AnyNewAd(file: FileData, recs: seq<JsonSlotData>, env: MergeEnv)
    decreases |recs|
  {
    recs != [] && KeyOf(recs[0]).Some?
    && var id := KeyOf(recs[0]).value;
       (FindAd(file, id.slotInt, id.slotChar).None?
        || AnyNewAd(MergeRecord(file, recs[0], env).value.file, recs[1..], env))
  }

  /** A completed loop asks for a reload exactly when it was asked to start with or some
      record found an older or zero timestamp, and for a re-randomization exactly when it
      was asked to start with or some record created an ad. */
  lemma {:induction false} MergeRecordsFlags(file: FileData, recs: seq<JsonSlotData>, env: MergeEnv, reload: bool, randomize: bool)
    requires MergeRecords(file, recs, env, reload, randomize).Completed?
    ensures MergeRecords(file, recs, env, reload, randomize).reload <==> reload || AnyReload(file, recs, env)
    ensures MergeRecords(file, recs, env, reload, randomize).randomize <==> randomize || AnyNewAd(file, recs, env)
    decreases |recs|
  {
    if recs != [] {
      var m := MergeRecord(file, recs[0], env).value;
      MergeRecordOwnKey(file, recs[0], env);
      MergeRecordsFlags(m.file, recs[1..], env, reload || m.reload, randomize || m.newAd);
    }
  }

  /** Position of the first record with a bad slot id, or the number of records. */
  function FirstBadId(recs: seq<JsonSlotData>): (k: nat)
    ensures k <= |recs| && (k < |recs| ==> KeyOf(recs[k]).None?)
    ensures forall j :: 0 <= j < k ==> KeyOf(recs[j]).Some?
  {
    if recs == [] then 0
    else if KeyOf(recs[0]).None? then 0
    else 1 + FirstBadId(recs[1..])
  }

  /** The loop stops exactly when some record has a bad slot id, at the first one: the
      file is then what the records before it made of it, and the error is that record's. */
  lemma MergeRecordsAbortsAtFirstBadId(file: FileData, recs: seq<JsonSlotData>, env: MergeEnv, reload: bool, randomize: bool)
    ensures var r := MergeRecords(file, recs, env, reload, randomize);
            var k := FirstBadId(recs);
            (r.Aborted? <==> k < |recs|)
            && (r.Aborted? ==> ParseSlotId(recs[k].slotid) == Failure(r.error)
                               && MergeRecords(file, recs[..k], env, reload, randomize).file == r.file)
  {
    var merge := (f: FileData, rec: JsonSlotData) => MergeRecord(f, rec, env);
    MergeIsMerge(env);
    MergeRejectsBadIds(merge, env);
    RecordsWithIs(merge, env, file, recs, reload, randomize);
    RecordsWithStopsAtFirstBadId(merge, file, recs, reload, randomize);
    if FirstBadId(recs) < |recs| {
      RecordsWithIs(merge, env, file, recs[..FirstBadId(recs)], reload, randomize);
      RecordsWithAbortedFile(merge, file, recs, reload, randomize);
    }
  }

  /** `one` is what merging `rec` gives when it fails exactly on a bad slot id. */
  predicate RejectsBadId(one: Result<RecordMerge, MergeError>, rec: JsonSlotData)
  {
    (one.Failure? <==> ParseSlotId(rec.slotid).Failure?)
    && (one.Failure? ==> one.error == ParseSlotId(rec.slotid).error)
  }

  /** `merge` fails on a record exactly when its slot id is bad, as MergeRecord does. */
  ghost predicate RejectsBadIds(merge: (FileData, JsonSlotData) -> Result<RecordMerge, MergeError>)
  {
    forall file: FileData, rec: JsonSlotData :: RejectsBadId(merge(file, rec), rec)
  }

  lemma MergeRejectsBadIds(merge: (FileData, JsonSlotData) -> Result<RecordMerge, MergeError>, env: MergeEnv)
    requires MergeIs(merge, env)
    ensures RejectsBadIds(merge)
  {
    forall file: FileData, rec: JsonSlotData ensures RejectsBadId(merge(file, rec), rec) {
      assert merge(file, rec) == MergeRecord(file, rec, env);
    }
  }

  lemma {:induction false} RecordsWithStopsAtFirstBadId(merge: (FileData, JsonSlotData) -> Result<RecordMerge, MergeError>,
                                                        file: FileData, recs: seq<JsonSlotData>, reload: bool, randomize: bool)
    requires RejectsBadIds(merge)
    ensures var r := RecordsWith(merge, file, recs, reload, randomize);
            var k := FirstBadId(recs);
            (r.Aborted? <==> k < |recs|) && (r.Aborted? ==> ParseSlotId(recs[k].slotid) == Failure(r.error))
    decreases |recs|
  {
    if recs != [] {
      var one := merge(file, recs[0]);
      assert RejectsBadId(one, recs[0]);
      if one.Success? {
        RecordsWithStopsAtFirstBadId(merge, one.value.file, recs[1..], reload || one.value.reload, randomize || one.value.newAd);
        var k := FirstBadId(recs[1..]);
        assert FirstBadId(recs) == k + 1;
        if k < |recs[1..]| {
          assert recs[k + 1] == recs[1..][k];
        }
      }
    }
  }

  lemma {:induction false} RecordsWithAbortedFile(merge: (FileData, JsonSlotData) -> Result<RecordMerge, MergeError>,
                                                  file: FileData, recs: seq<JsonSlotData>, reload: bool, randomize: bool)
    requires RejectsBadIds(merge) && FirstBadId(recs) < |recs|
    ensures RecordsWith(merge, file, recs[..FirstBadId(recs)], reload, randomize).file
            == RecordsWith(merge, file, recs, reload, randomize).file
    decreases |recs|
  {
    var k := FirstBadId(recs);
    var one := merge(file, recs[0]);
    assert RejectsBadId(one, recs[0]);
    if one.Failure? {
      assert recs[..k] == [];
    } else {
      var prefix := recs[..k];
      assert k == FirstBadId(recs[1..]) + 1;
      assert prefix[0] == recs[0] && prefix[1..] == recs[1..][..k - 1];
      RecordsWithAbortedFile(merge, one.value.file, recs[1..], reload || one.value.reload, randomize || one.value.newAd);
    }
  }
}
