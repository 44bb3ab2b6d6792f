/**
 * The store that binds one in-memory Version to a key-value file: it loads
 * the file (or writes a 0.0.0 default), and every transition replaces the
 * in-memory value and then overwrites the file with all four keys.
 */
module VersionStore {
  import opened Wrappers
  import opened Text
  import opened Versions

  /** Property keys of the version file. */
  const KeyMajor: string := "major"
  const KeyMinor: string := "minor"
  const KeyPatch: string := "patch"
  const KeyRC: string := "releaseCandidate"

  /** The keys in the order the store reads them. */
  function KeyAt(k: nat): string
    requires k < 4
  {
    match k
    case 0 => KeyMajor
    case 1 => KeyMinor
    case 2 => KeyPatch
    case _ => KeyRC
  }

  /** The file's content at key-value level. */
  type Properties = map<string, string>

  /**
   * ReadFailed and WriteFailed are the two IllegalStateExceptions; an
   * InvalidInteger is the IllegalArgumentException naming the key and its
   * trimmed value.
   */
  datatype Error = ReadFailed | WriteFailed | InvalidInteger(key: string, value: string)

  /** `Properties.getProperty(key, default)`. */
  function GetProperty(p: Properties, key: string, default: string): (v: string)
    ensures key in p ==> v == p[key]
    ensures key !in p ==> v == default
  {
    if key in p then p[key] else default
  }

  /** The content written the first time the store opens a missing file. */
  const DefaultProperties: Properties :=
    map[KeyMajor := "0", KeyMinor := "0", KeyPatch := "0", KeyRC := "0"]

  /**
   * Reads one field: the value of `key`, "0" when absent, trimmed and
   * parsed as a Java int; a value that is not one is an error that names
   * the key and the trimmed text.
   */
  function ParseField(p: Properties, key: string): (r: Result<int, Error>)
    ensures r.Ok? ==> InInt32(r.value)
    ensures r.Err? ==> r.error.InvalidInteger? && r.error.key == key
  {
    var value := Trim(GetProperty(p, key, "0"));
    match ParseInt(value)
    case Some(n) => Ok(n)
    case None => Err(InvalidInteger(key, value))
  }

  /** An absent key reads as "0", which trims to itself and parses as 0. */
  lemma ZeroText()
    ensures Trim("0") == "0" && ParseInt("0") == Some(0)
  {
    assert IntToString(0) == "0";
    TrimIntToString(0);
    ParseIntOfIntToString(0);
  }

  /** A missing key is read as if it held "0". */
  lemma MissingKeyReadsAsZero(p: Properties, key: string)
    requires key !in p
    ensures ParseField(p, key) == Ok(0)
  {
    ZeroText();
  }

  /**
   * The Version a file's properties describe, reading major, minor, patch
   * and releaseCandidate in that order; the first key whose value is not an
   * int is the error.
   */
  function Decode(p: Properties): (r: Result<Version, Error>)
    ensures r.Ok? <==>
      ParseField(p, KeyMajor).Ok? && ParseField(p, KeyMinor).Ok? &&
      ParseField(p, KeyPatch).Ok? && ParseField(p, KeyRC).Ok?
    ensures r.Ok? ==> r.value.InInt32Fields()
    ensures r.Ok? ==> r.value == Version(ParseField(p, KeyMajor).value, ParseField(p, KeyMinor).value,
                                         ParseField(p, KeyPatch).value, ParseField(p, KeyRC).value)
    ensures r.Err? ==> r.error.InvalidInteger? && r.error.key in {KeyMajor, KeyMinor, KeyPatch, KeyRC}
  {
    match ParseField(p, KeyMajor)
    case Err(e) => Err(e)
    case Ok(major) =>
      match ParseField(p, KeyMinor)
      case Err(e) => Err(e)
      case Ok(minor) =>
        match ParseField(p, KeyPatch)
        case Err(e) => Err(e)
        case Ok(patch) =>
          match ParseField(p, KeyRC)
          case Err(e) => Err(e)
          case Ok(rc) => Ok(Version(major, minor, patch, rc))
  }

  /** What `save` writes: all four keys, each the decimal text of its field. */
  function Encode(v: Version): (p: Properties)
    ensures p.Keys == {KeyMajor, KeyMinor, KeyPatch, KeyRC}
  {
    map[KeyMajor := IntToString(v.major), KeyMinor := IntToString(v.minor),
        KeyPatch := IntToString(v.patch), KeyRC := IntToString(v.releaseCandidate)]
  }

  /** Reading one field back from what `save` wrote gives the int that was written. */
  lemma ParseFieldOfWritten(p: Properties, key: string, n: int)
    requires InInt32(n) && key in p && p[key] == IntToString(n)
    ensures ParseField(p, key) == Ok(n)
  {
    TrimIntToString(n);
    ParseIntOfIntToString(n);
  }

  /** Round trip: decoding what `save` wrote gives back the version that was saved. */
  lemma DecodeEncode(v: Version)
    requires v.InInt32Fields()
    ensures Decode(Encode(v)) == Ok(v)
  {
    var p := Encode(v);
    ParseFieldOfWritten(p, KeyMajor, v.major);
    ParseFieldOfWritten(p, KeyMinor, v.minor);
    ParseFieldOfWritten(p, KeyPatch, v.patch);
    ParseFieldOfWritten(p, KeyRC, v.releaseCandidate);
  }

  /** The default content of a new file is the encoding of 0.0.0, and reads back as it. */
  lemma DefaultIsZero()
    ensures DefaultProperties == Encode(Version(0, 0, 0, 0))
    ensures Decode(DefaultProperties) == Ok(Version(0, 0, 0, 0))
  {
    IntToStringOfDigit(0);
    assert DigitChar(0) == '0';
    DecodeEncode(Version(0, 0, 0, 0));
  }

  /** A file without any of the four keys reads as 0.0.0. */
  lemma EmptyFileReadsAsZero()
    ensures Decode(map[]) == Ok(Version(0, 0, 0, 0))
  {
    MissingKeyReadsAsZero(map[], KeyMajor);
    MissingKeyReadsAsZero(map[], KeyMinor);
    MissingKeyReadsAsZero(map[], KeyPatch);
    MissingKeyReadsAsZero(map[], KeyRC);
  }

  /** Padding around a number is trimmed away before it is parsed. */
  lemma PaddedValueReadsAsNumber(p: Properties, key: string, before: string, n: int, after: string)
    requires AllTrimmable(before) && AllTrimmable(after) && InInt32(n)
    ensures ParseField(p[key := before + IntToString(n) + after], key) == Ok(n)
  {
    var s := IntToString(n);
    IntToStringChars(n);
    assert !IsTrimmable(s[0]) && !IsTrimmable(s[|s| - 1]);
    TrimPadded(before, s, after);
    ParseIntOfIntToString(n);
  }

  /**
   * A value that is not an integer is an error naming the key and the
   * value, never a default of 0.
   */
  lemma NonNumericMajorRejected(p: Properties)
    requires p == map[KeyMajor := "abc"]
    ensures Decode(p) == Err(InvalidInteger(KeyMajor, "abc"))
  {
    assert "abc" == [] + "abc" + [];
    TrimPadded([], "abc", []);
    assert !IsDigit('a');
    assert ParseInt("abc") == None;
  }

  /** The error is reported for the first key, in reading order, whose value is not an int. */
  lemma DecodeReportsFirstInvalidKey(p: Properties, k: nat)
    requires k < 4 && ParseField(p, KeyAt(k)).Err?
    requires forall j :: 0 <= j < k ==> ParseField(p, KeyAt(j)).Ok?
    ensures Decode(p) == Err(ParseField(p, KeyAt(k)).error)
  {
    var key := KeyAt(k);
    if k > 0 {
      assert KeyAt(0) == KeyMajor && ParseField(p, KeyAt(0)).Ok?;
    }
    if k > 1 {
      assert KeyAt(1) == KeyMinor && ParseField(p, KeyAt(1)).Ok?;
    }
    if k > 2 {
      assert KeyAt(2) == KeyPatch && ParseField(p, KeyAt(2)).Ok?;
    }
    assert key == KeyMajor || key == KeyMinor || key == KeyPatch || key == KeyRC;
  }

  /**
   * The version file as the store sees it: whether it exists, its
   * properties, and whether reading or writing it fails.
   */
  class VersionFile {
    var present: bool
    var props: Properties
    const readFails: bool
    const writeFails: bool

    constructor (present: bool, props: Properties, readFails: bool, writeFails: bool)
      ensures this.present == present && this.props == props
      ensures this.readFails == readFails && this.writeFails == writeFails
    {
      this.present := present;
      this.props := props;
      this.readFails := readFails;
      this.writeFails := writeFails;
    }

    /** Reads all properties; a missing or unreadable file gives None. */
    method Read() returns (r: Option<Properties>)
      ensures r == if present && !readFails then Some(props) else None
    {
      if present && !readFails {
        r := Some(props);
      } else {
        r := None;
      }
    }

    /** Replaces the whole content with `p`; a failed write leaves the file as it was. */
    method Write(p: Properties) returns (ok: bool)
      modifies this
      ensures ok == !writeFails
      ensures ok ==> present && props == p
      ensures !ok ==> unchanged(this)
    {
      ok := !writeFails;
      if ok {
        present, props := true, p;
      }
    }
  }

  /**
   * Persists `p` as the whole content of `file`; a failed write is the
   * WriteFailed error.
   */
  method SaveProps(file: VersionFile, p: Properties) returns (o: Outcome<Error>)
    modifies file
    ensures o == if file.writeFails then Fail(WriteFailed) else Pass
    ensures o.Pass? ==> file.present && file.props == p
    ensures o.Fail? ==> unchanged(file)
  {
    var ok := file.Write(p);
    o := if ok then Pass else Fail(WriteFailed);
  }

  /**
   * Reads the version a file holds.  An existing file is read and decoded
   * as it is and not written; a missing one is first given the 0.0.0
   * default, which is what is then decoded.
   */
  method Load(file: VersionFile) returns (r: Result<Version, Error>)
    modifies file
    ensures old(file.present) ==> unchanged(file)
    ensures old(file.present) ==>
      r == if file.readFails then Err(ReadFailed) else Decode(file.props)
    ensures !old(file.present) && file.writeFails ==> r == Err(WriteFailed) && unchanged(file)
    ensures !old(file.present) && !file.writeFails ==>
      r == Ok(Version(0, 0, 0, 0)) && file.present && file.props == DefaultProperties
    ensures r.Ok? ==> r.value.InInt32Fields() && file.present && Decode(file.props) == r
  {
    var p: Properties;
    if file.present {
      var read := file.Read();
      if read.None? {
        return Err(ReadFailed);
      }
      p := read.value;
    } else {
      p := DefaultProperties;
      var saved := SaveProps(file, p);
      if saved.Fail? {
        return Err(saved.error);
      }
      DefaultIsZero();
    }
    r := Decode(p);
  }

  /** The store: the version file it is bound to and the version it holds in memory. */
  class VersionManager {
    const file: VersionFile
    var current: Version

    /** Every field of the held version fits in a Java int. */
    ghost predicate Valid()
      reads this
    {
      current.InInt32Fields()
    }

    /** Memory and disk agree: the file present and reads back as `current`. */
    ghost predicate Synced()
      reads this, file
    {
      file.present && Decode(file.props) == Ok(current)
    }

    constructor (file: VersionFile, loaded: Version)
      requires loaded.InInt32Fields()
      ensures this.file == file && current == loaded && Valid()
    {
      this.file := file;
      current := loaded;
    }

    /**
     * Opens the store on `file`: loads the version it holds, or writes the
     * 0.0.0 default when it does not exist.  Reading failures, values that
     * are not ints and a failed default write are errors, and no store is
     * made.
     */
    static method Open(file: VersionFile) returns (r: Result<VersionManager, Error>)
      modifies file
      ensures old(file.present) ==> unchanged(file)
      ensures old(file.present) && file.readFails ==> r == Err(ReadFailed)
      ensures old(file.present) && !file.readFails && Decode(file.props).Err? ==>
        r == Err(Decode(file.props).error)
      ensures old(file.present) && !file.readFails && Decode(file.props).Ok? ==>
        r.Ok? && r.value.current == Decode(file.props).value
      ensures !old(file.present) && file.writeFails ==> r == Err(WriteFailed) && unchanged(file)
      ensures !old(file.present) && !file.writeFails ==>
        r.Ok? && r.value.current == Version(0, 0, 0, 0) && file.props == DefaultProperties
      ensures r.Ok? ==> fresh(r.value) && r.value.file == file && r.value.Valid() && r.value.Synced()
    {
      var loaded := Load(file);
      match loaded
      case Err(e) =>
        r := Err(e);
      case Ok(v) =>
        var m := new VersionManager(file, v);
        r := Ok(m);
    }

    /** The version held in memory; reads neither the file nor changes anything. */
    method GetCurrent() returns (v: Version)
      ensures v == current
    {
      v := current;
    }

    /**
     * Writes all four fields of `current` over the file.  On success memory
     * and disk agree; on failure the file is as it was.
     */
    method Save() returns (o: Outcome<Error>)
      requires Valid()
      modifies file
      ensures o == if file.writeFails then Fail(WriteFailed) else Pass
      ensures o.Pass? ==> file.props == Encode(current) && Synced()
      ensures o.Fail? ==> unchanged(file)
    {
      o := SaveProps(file, Encode(current));
      DecodeEncode(current);
    }

    /**
     * Replaces `current` by its major bump and saves it.  The new value is
     * kept in memory even when the write fails.
     */
    method BumpMajor() returns (o: Outcome<Error>)
      requires Valid() && current.major < MaxInt
      modifies this`current, file
      ensures Valid() && current == old(current).BumpMajor()
      ensures o == if file.writeFails then Fail(WriteFailed) else Pass
      ensures o.Pass? ==> file.props == Encode(current) && Synced()
      ensures o.Fail? ==> unchanged(file)
    {
      var v := GetCurrent();
      current := v.BumpMajor();
      o := Save();
    }

    /** Replaces `current` by its minor bump and saves it. */
    method BumpMinor() returns (o: Outcome<Error>)
      requires Valid() && current.minor < MaxInt
      modifies this`current, file
      ensures Valid() && current == old(current).BumpMinor()
      ensures o == if file.writeFails then Fail(WriteFailed) else Pass
      ensures o.Pass? ==> file.props == Encode(current) && Synced()
      ensures o.Fail? ==> unchanged(file)
    {
      var v := GetCurrent();
      current := v.BumpMinor();
      o := Save();
    }

    /** Replaces `current` by its patch bump and saves it. */
    method BumpPatch() returns (o: Outcome<Error>)
      requires Valid() && current.patch < MaxInt
      modifies this`current, file
      ensures Valid() && current == old(current).BumpPatch()
      ensures o == if file.writeFails then Fail(WriteFailed) else Pass
      ensures o.Pass? ==> file.props == Encode(current) && Synced()
      ensures o.Fail? ==> unchanged(file)
    {
      var v := GetCurrent();
      current := v.BumpPatch();
      o := Save();
    }

    /** Replaces `current` by its release-candidate bump and saves it. */
    method BumpRC() returns (o: Outcome<Error>)
      requires Valid() && current.releaseCandidate < MaxInt
      modifies this`current, file
      ensures Valid() && current == old(current).BumpRC()
      ensures o == if file.writeFails then Fail(WriteFailed) else Pass
      ensures o.Pass? ==> file.props == Encode(current) && Synced()
      ensures o.Fail? ==> unchanged(file)
    {
      var v := GetCurrent();
      current := v.BumpRC();
      o := Save();
    }

    /** Drops the release candidate of `current` and saves it. */
    method ResetRC() returns (o: Outcome<Error>)
      requires Valid()
      modifies this`current, file
      ensures Valid() && current == old(current).ResetRC()
      ensures o == if file.writeFails then Fail(WriteFailed) else Pass
      ensures o.Pass? ==> file.props == Encode(current) && Synced()
      ensures o.Fail? ==> unchanged(file)
    {
      var v := GetCurrent();
      current := v.ResetRC();
      o := Save();
    }
  }

  /** A store reopened on a file it left in sync holds the same version. */
  method Reopen(m: VersionManager) returns (r: Result<VersionManager, Error>)
    requires m.Synced() && !m.file.readFails
    modifies m.file
    ensures r.Ok? && r.value.current == m.current && r.value.file == m.file
  {
    r := VersionManager.Open(m.file);
  }

  /** A store opened on a file that does not exist yet and that can be written. */
  method OpenNew() returns (m: VersionManager)
    ensures fresh(m) && fresh(m.file)
    ensures m.Valid() && m.current == Version(0, 0, 0, 0) && !m.file.readFails && !m.file.writeFails
  {
    var file := new VersionFile(false, map[], false, false);
    var open := VersionManager.Open(file);
    m := open.value;
  }

  /**
   * Opening a missing file, bumping the release candidate three times and
   * then releasing: RC 3 in memory, then 0.0.0 in memory and "0" on disk.
   */
  method ReleaseScenario() returns (candidate: Version, released: Version, storedRC: string)
    ensures candidate == Version(0, 0, 0, 3) && released == Version(0, 0, 0, 0) && storedRC == "0"
  {
    var m := OpenNew();
    var _ := m.BumpRC();
    var _ := m.BumpRC();
    var _ := m.BumpRC();
    candidate := m.GetCurrent();
    var _ := m.ResetRC();
    released := m.GetCurrent();
    DefaultIsZero();
    storedRC := m.file.props[KeyRC];
  }

  /**
   * Persistence survives a restart: after a successful patch bump, a store
   * opened afresh on the same file holds the bumped version.
   */
  method RestartAfterBumpPatch(m: VersionManager) returns (bumped: Version, reopened: Version)
    requires m.Valid() && m.current.patch < MaxInt && !m.file.readFails && !m.file.writeFails
    modifies m, m.file
    ensures bumped == old(m.current).BumpPatch() && reopened == bumped
  {
    var _ := m.BumpPatch();
    bumped := m.GetCurrent();
    var again := Reopen(m);
    reopened := again.value.current;
  }
}
