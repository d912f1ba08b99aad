/**
 The decision logic of the DICOM scanner: the magic-byte detector, the StudyInstanceUID
 check with its fallback keys, and the scan that counts DICOM files and collects those
 missing the attribute. The file system and the dcmjs parser are parameters.
 */
module ScanDicomFiles {
  import opened Utf8
  import opened JsValues
  import opened Sequences

  type Path = string
  type Bytes = seq<byte>

  datatype Option<T> = None | Some(value: T)

  /**
   How a JavaScript call ends: with a value, or by throwing an error object, whose
   `message` the `catch` reads. Throwing `null` or `undefined` is not modelled.
   */
  datatype Completion<T> = Normal(value: T) | Thrown(message: string)

  /** What `fs.readFileSync` gives for each path: the file's bytes, or the error it throws. */
  type FileSystem = Path -> Completion<Bytes>

  // ---------------------------------------------------------------------------
  // Detector (isDicomFile)
  // ---------------------------------------------------------------------------

  /** The DICOM File Meta Information starts with a 128-byte preamble and the prefix "DICM" (section 7.1 of DICOM PS3.10). */
  const PreambleLength: nat := 128
  const DicomPrefix: string := "DICM"
  const MinimumDicomLength: nat := PreambleLength + |DicomPrefix|

  /**
   A buffer is DICOM when it holds at least 132 bytes and bytes 128..131, decoded as
   UTF-8, read "DICM"; which is exactly when they are the ASCII bytes 'D', 'I', 'C', 'M'.
   */
  function IsDicomFile(buffer: Bytes): (r: bool)
    ensures |buffer| < 132 ==> !r
    ensures |buffer| >= 132 ==>
      (r <==> buffer[128] == 0x44 && buffer[129] == 0x49 && buffer[130] == 0x43 && buffer[131] == 0x4D)
  {
    if |buffer| < MinimumDicomLength then false
    else
      var window := buffer[PreambleLength..MinimumDicomLength];
      DecodeAscii(window, DicomPrefix);
      assert window == AsciiBytes(DicomPrefix) <==>
        window[0] == 0x44 && window[1] == 0x49 && window[2] == 0x43 && window[3] == 0x4D;
      Decode(window) == DicomPrefix
  }

  /** Only the length and bytes 128..131 matter: the preamble and the data after the prefix do not. */
  lemma DetectorIgnoresOtherBytes(a: Bytes, b: Bytes)
    requires (|a| < 132) == (|b| < 132)
    requires forall i :: 128 <= i < 132 && i < |a| && i < |b| ==> a[i] == b[i]
    ensures IsDicomFile(a) == IsDicomFile(b)
  {
  }

  /** The detector as the filter applies it to a path, for a file system that reads it. */
  function Detects(fs: FileSystem): Path -> bool {
    f => fs(f).Normal? && IsDicomFile(fs(f).value)
  }

  /** `allFiles.filter(isDicomFile)`: the DICOM files, or the first file whose read throws. */
  datatype Filtered = DicomFiles(files: seq<Path>) | Unreadable(path: Path)

  /**
   The filter keeps, in order, exactly the readable files the detector accepts; since
   `isDicomFile` reads outside any `try`, the first unreadable file ends the filter.
   */
  function DicomFilter(allFiles: seq<Path>, fs: FileSystem): (r: Filtered)
    ensures r.Unreadable? <==> exists i :: 0 <= i < |allFiles| && fs(allFiles[i]).Thrown?
    ensures r.Unreadable? ==>
      exists i :: 0 <= i < |allFiles| && allFiles[i] == r.path && fs(allFiles[i]).Thrown? &&
        forall j :: 0 <= j < i ==> fs(allFiles[j]).Normal?
    ensures r.DicomFiles? ==>
      IsSubsequence(r.files, allFiles) && All(r.files, Detects(fs)) &&
      |r.files| == Count(allFiles, Detects(fs))
    ensures r.DicomFiles? ==> r.files == Keep(allFiles, Detects(fs))
    decreases |allFiles|
  {
    if allFiles == [] then DicomFiles([])
    else
      var f := allFiles[0];
      match fs(f)
      case Thrown(_) =>
        assert fs(allFiles[0]).Thrown?;
        Unreadable(f)
      case Normal(buffer) =>
        var tail := allFiles[1..];
        var rest := DicomFilter(tail, fs);
        assert forall i :: 1 <= i < |allFiles| ==> allFiles[i] == tail[i - 1];
        match rest
        case Unreadable(p) =>
          ghost var i :| 0 <= i < |tail| && tail[i] == p && fs(tail[i]).Thrown? &&
            forall j :: 0 <= j < i ==> fs(tail[j]).Normal?;
          assert allFiles[i + 1] == p;
          Unreadable(p)
        case DicomFiles(files) =>
          if IsDicomFile(buffer) then
            assert ([f] + files)[1..] == files;
            DicomFiles([f] + files)
          else
            SubsequenceOfTail(files, allFiles);
            DicomFiles(files)
  }

  // ---------------------------------------------------------------------------
  // Attribute extractor (checkDicomForStudyInstanceUID)
  // ---------------------------------------------------------------------------

  /** What `DicomMessage.readFile` returns: an optional `dict` and the message object itself. */
  datatype DicomMessage<Raw> = DicomMessage(dict: Option<Raw>, whole: Raw)

  /** The dcmjs entry points the check calls: `DicomMessage.readFile` and `DicomMetaDictionary.naturalizeDataset`. */
  datatype DicomParser<!Raw> = DicomParser(
    readFile: Bytes -> Completion<DicomMessage<Raw>>,
    naturalizeDataset: Raw -> Completion<JsValue>)

  /**
   The naturalized dataset, or the first error thrown reading, parsing or naturalizing the
   file. Naturalization receives `dicomData.dict ?? dicomData`: the message's `dict` when it
   has one, otherwise the message itself.
   */
  function NaturalDataset<Raw>(file: Completion<Bytes>, parser: DicomParser<Raw>): (r: Completion<JsValue>)
    ensures file.Thrown? ==> r == Thrown(file.message)
    ensures file.Normal? && parser.readFile(file.value).Thrown? ==>
      r == Thrown(parser.readFile(file.value).message)
    ensures file.Normal? && parser.readFile(file.value).Normal? ==>
      var message := parser.readFile(file.value).value;
      && (message.dict.Some? ==> r == parser.naturalizeDataset(message.dict.value))
      && (message.dict.None? ==> r == parser.naturalizeDataset(message.whole))
    ensures r.Normal? ==> file.Normal? && parser.readFile(file.value).Normal?
  {
    match file
    case Thrown(e) => Thrown(e)
    case Normal(buffer) =>
      match parser.readFile(buffer)
      case Thrown(e) => Thrown(e)
      case Normal(message) =>
        match message.dict
        case Some(dict) => parser.naturalizeDataset(dict)
        case None => parser.naturalizeDataset(message.whole)
  }

  /** The keys tried, in order: the naturalized name, then two spellings of tag (0020,000D) of DICOM PS3.6. */
  const StudyInstanceUidKeys: seq<string> := ["StudyInstanceUID", "0020000D", "0020,000D"]

  /** Every key before the `i`-th holds a nullish value, so the `??` chain reaches key `i`. */
  predicate Reaches(ds: JsValue, i: nat)
    requires i < |StudyInstanceUidKeys|
  {
    forall j :: 0 <= j < i ==> IsNullish(OptionalMember(ds, StudyInstanceUidKeys[j]))
  }

  /**
   The `??` chain over the three keys: the value under the first key whose value is not
   nullish, or else the value under the last key.
   */
  function ResolveStudyInstanceUid(ds: JsValue): (uid: JsValue)
    ensures exists i ::
      && 0 <= i < |StudyInstanceUidKeys| && Reaches(ds, i)
      && uid == OptionalMember(ds, StudyInstanceUidKeys[i])
      && (i < |StudyInstanceUidKeys| - 1 ==> !IsNullish(uid))
  {
    var byName := OptionalMember(ds, "StudyInstanceUID");
    var byTag := OptionalMember(ds, "0020000D");
    var byTagWithComma := OptionalMember(ds, "0020,000D");
    var uid := Coalesce(Coalesce(byName, byTag), byTagWithComma);
    assert Reaches(ds, 0);
    assert IsNullish(byName) ==> Reaches(ds, 1);
    assert IsNullish(byName) && IsNullish(byTag) ==> Reaches(ds, 2);
    uid
  }

  /**
   `!studyInstanceUID` on the resolved value: missing exactly when every key the `??`
   chain reaches holds a falsy value.
   */
  function MissingStudyInstanceUid(ds: JsValue): (missing: bool)
    ensures missing <==>
      forall i :: 0 <= i < |StudyInstanceUidKeys| && Reaches(ds, i) ==>
        !Truthy(OptionalMember(ds, StudyInstanceUidKeys[i]))
  {
    var uid := ResolveStudyInstanceUid(ds);
    assert Reaches(ds, 0);
    assert Reaches(ds, 1) <==> IsNullish(OptionalMember(ds, StudyInstanceUidKeys[0]));
    assert Reaches(ds, 2) <==>
      IsNullish(OptionalMember(ds, StudyInstanceUidKeys[0])) && IsNullish(OptionalMember(ds, StudyInstanceUidKeys[1]));
    !Truthy(uid)
  }

  /**
   The whole check on a file: any error thrown while reading, parsing or naturalizing
   counts as missing; otherwise the file is present exactly when some key the `??`
   chain reaches holds a truthy value.
   */
  function CheckDicomForStudyInstanceUID<Raw>(file: Completion<Bytes>, parser: DicomParser<Raw>): (missing: bool)
    ensures NaturalDataset(file, parser).Thrown? ==> missing
    ensures !missing <==>
      NaturalDataset(file, parser).Normal? &&
      exists i :: 0 <= i < |StudyInstanceUidKeys| && Reaches(NaturalDataset(file, parser).value, i) &&
        Truthy(OptionalMember(NaturalDataset(file, parser).value, StudyInstanceUidKeys[i]))
  {
    match NaturalDataset(file, parser)
    case Thrown(_) => true
    case Normal(ds) => MissingStudyInstanceUid(ds)
  }

  /** An empty string under `StudyInstanceUID` stops the `??` chain, so the tag keys are never consulted. */
  lemma EmptyNameShadowsTags(ds: JsValue)
    requires OptionalMember(ds, "StudyInstanceUID") == Str("")
    ensures ResolveStudyInstanceUid(ds) == Str("")
    ensures MissingStudyInstanceUid(ds)
  {
  }

  /** With none of the three keys present, the file is missing the attribute. */
  lemma AbsentKeysAreMissing(ds: JsValue)
    requires forall k :: k in StudyInstanceUidKeys ==> OptionalMember(ds, k) == Undefined
    ensures MissingStudyInstanceUid(ds)
  {
    assert StudyInstanceUidKeys[0] in StudyInstanceUidKeys;
    assert StudyInstanceUidKeys[1] in StudyInstanceUidKeys;
    assert StudyInstanceUidKeys[2] in StudyInstanceUidKeys;
  }

  /** A non-empty string resolved by the chain means the attribute is present. */
  lemma NonEmptyStringIsPresent(ds: JsValue)
    requires ResolveStudyInstanceUid(ds).Str? && ResolveStudyInstanceUid(ds).s != ""
    ensures !MissingStudyInstanceUid(ds)
  {
  }

  /** A value made only of spaces is truthy, so the check does not treat a blank UID as missing. */
  lemma BlankUidIsPresent(ds: JsValue)
    requires OptionalMember(ds, "StudyInstanceUID") == Str(" ")
    ensures !MissingStudyInstanceUid(ds)
  {
  }

  /** The check as the scan applies it to a path. */
  function MissingIn<Raw>(fs: FileSystem, parser: DicomParser<Raw>): Path -> bool {
    f => CheckDicomForStudyInstanceUID(fs(f), parser)
  }

  // ---------------------------------------------------------------------------
  // Scan (scanDicomDirectory)
  // ---------------------------------------------------------------------------

  /** The scan either throws from the filter or reports the DICOM count and the files missing the attribute, in order. */
  datatype ScanOutcome = Aborted(unreadable: Path) | Completed(dicomCount: nat, missing: seq<Path>)

  /**
   Filters the enumerated files with the detector, then checks each DICOM file in turn
   and appends to `missingUIDFiles` the ones the check flags.
   */
  method ScanDicomDirectory<Raw>(allFiles: seq<Path>, fs: FileSystem, parser: DicomParser<Raw>)
    returns (r: ScanOutcome)
    ensures r.Aborted? <==> exists i :: 0 <= i < |allFiles| && fs(allFiles[i]).Thrown?
    ensures r.Aborted? ==> DicomFilter(allFiles, fs) == Unreadable(r.unreadable)
    ensures r.Completed? ==> r.dicomCount == Count(allFiles, Detects(fs))
    ensures r.Completed? ==>
      r.missing == Keep(DicomFilter(allFiles, fs).files, MissingIn(fs, parser))
    ensures r.Completed? ==>
      SelectsExactly(r.missing, DicomFilter(allFiles, fs).files, MissingIn(fs, parser)) &&
      |r.missing| <= r.dicomCount
  {
    var filtered := DicomFilter(allFiles, fs);
    if filtered.Unreadable? {
      return Aborted(filtered.path);
    }
    var dicomFiles := filtered.files;
    var missingUIDFiles: seq<Path> := [];
    for i := 0 to |dicomFiles|
      invariant missingUIDFiles == Keep(dicomFiles[..i], MissingIn(fs, parser))
    {
      var file := dicomFiles[i];
      var isMissing := CheckDicomForStudyInstanceUID(fs(file), parser);
      KeepAppend(dicomFiles[..i], file, MissingIn(fs, parser));
      PrefixExtend(dicomFiles, i);
      if isMissing {
        missingUIDFiles := missingUIDFiles + [file];
      }
    }
    assert dicomFiles[..|dicomFiles|] == dicomFiles;
    KeepSelectsExactly(dicomFiles, MissingIn(fs, parser));
    r := Completed(|dicomFiles|, missingUIDFiles);
  }
}
