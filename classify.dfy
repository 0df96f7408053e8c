/** `process_single_file`: one image file becomes the key of a light frame,
    or nothing. */
module Classifier {
  import opened Text
  import opened Patterns
  import opened Filters

  newtype byte = x: int | 0 <= x < 256

  /** How many bytes of a file are read to find its header. */
  const HeaderChunkSize: nat := 50000

  /** What opening and reading a file gives: it does not exist, reading it
      raises, or its bytes. */
  datatype FileRead = Missing | Unreadable | Read(data: seq<byte>)

  /** The two numeric conversions, kept abstract: `f"{float(v):.2f}"` and
      `str(int(float(v)))`, each `None` where Python raises. */
  datatype Numerics = Numerics(exposureText: string -> Option<string>, gainText: string -> Option<string>)

  /** The grouping key of a light frame: date, filter, exposure, binning, gain. */
  datatype FrameKey = FrameKey(date: string, filter: FilterId, exposure: string, binning: string, gain: string)

  /** The six raw values `extract_val` found in a header. */
  datatype Fields = Fields(
    imageType: Option<string>, filter: Option<string>, exposure: Option<string>,
    date: Option<string>, gain: Option<string>, binning: Option<string>)

  function Min(a: nat, b: nat): nat {
    if a < b then a else b
  }

  /** `f.read(50000).decode('latin-1')`: at most the first 50000 bytes, each
      byte becoming the character with the same code. */
  function HeaderText(data: seq<byte>): (h: string)
    ensures |h| == Min(|data|, HeaderChunkSize)
    ensures forall k :: 0 <= k < |h| ==> h[k] as int == data[k] as int
  {
    seq(Min(|data|, HeaderChunkSize), k requires 0 <= k < Min(|data|, HeaderChunkSize) => data[k] as int as char)
  }

  /** `file_path.lower().endswith('.xisf')` picks the tag patterns; every other
      path is read with the keyword-record patterns. */
  function DialectOf(path: string): Dialect {
    if |path| >= 5 && CiPrefixAt(path, |path| - 5, ".xisf") then Xisf else Fits
  }

  /** Python truthiness of an `extract_val` result: a value that is there and
      not empty. */
  predicate Present(v: Option<string>) {
    v.Some? && v.value != []
  }

  /** The type gate: a present value whose upper-cased form contains `LIGHT`. */
  predicate IsLight(v: Option<string>) {
    Present(v) && Contains(Upper(v.value), "LIGHT")
  }

  function ReadFields(d: Dialect, header: string): Fields {
    Fields(Lookup(d, TypeField, header), Lookup(d, FilterField, header),
           Lookup(d, ExposureField, header), Lookup(d, DateField, header),
           Lookup(d, GainField, header), Lookup(d, BinningField, header))
  }

  /** `value if value else default` for the plain text fields. */
  function OrDefault(v: Option<string>, default: string): string {
    if Present(v) then v.value else default
  }

  /** A numeric field: its conversion when present (`None` when the conversion
      raises), `default` when absent. */
  function Converted(v: Option<string>, convert: string -> Option<string>, default: string): Option<string> {
    if Present(v) then convert(v.value) else Some(default)
  }

  /** The body of `process_single_file` after the header is read: the type gate,
      then the defaults, the date cut at its first `T`, the two conversions and
      the filter lookup. */
  function Normalize(fs: Fields, nums: Numerics): Option<FrameKey> {
    if !IsLight(fs.imageType) then None
    else
      var rawFilter := OrDefault(fs.filter, "Unknown");
      var exposure := Converted(fs.exposure, nums.exposureText, "0");
      var date := if Present(fs.date) then Before(fs.date.value, 'T') else "Unknown";
      var gain := Converted(fs.gain, nums.gainText, "0");
      var binning := OrDefault(fs.binning, "1");
      if exposure.None? || gain.None? then None
      else Some(FrameKey(date, NormalizeFilter(rawFilter), exposure.value, binning, gain.value))
  }

  /** `process_single_file(path)`, given what reading the file gives. */
  function Classify(path: string, file: FileRead, nums: Numerics): (r: Option<FrameKey>)
    ensures !file.Read? ==> r.None?
  {
    match file
    case Missing => None
    case Unreadable => None
    case Read(data) => Normalize(ReadFields(DialectOf(path), HeaderText(data)), nums)
  }

  // ---------------------------------------------------------------------------
  // What classification promises.
  // ---------------------------------------------------------------------------

  /** The dialect depends only on the last five characters, compared without
      regard to ASCII case. */
  lemma XisfSuffix(path: string)
    ensures DialectOf(path) == Xisf <==> |path| >= 5 && Upper(path[|path| - 5..]) == ".XISF"
  {
    if |path| >= 5 {
      CiPrefixAtIff(path, |path| - 5, ".xisf");
      var t := path[|path| - 5..];
      assert forall j :: 0 <= j < 5 ==> t[j] == path[|path| - 5 + j];
      if Upper(t) == ".XISF" {
        assert forall j :: 0 <= j < 5 ==> UpperChar(path[|path| - 5 + j]) == UpperChar(".xisf"[j]) by {
          forall j | 0 <= j < 5 ensures UpperChar(path[|path| - 5 + j]) == UpperChar(".xisf"[j]) {
            assert Upper(t)[j] == ".XISF"[j];
          }
        }
      }
    }
  }

  /** Any name ending in `.xisf` or `.XISF` is read as XISF; `.fits` and `.fit`
      names are read as FITS. */
  lemma SuffixExamples(stem: string)
    ensures DialectOf(stem + ".xisf") == Xisf
    ensures DialectOf(stem + ".XISF") == Xisf
    ensures DialectOf(stem + ".fits") == Fits
    ensures DialectOf(stem + ".fit") == Fits
  {
    LastFive(stem, ".xisf");
    XisfSuffix(stem + ".xisf");
    LastFive(stem, ".XISF");
    XisfSuffix(stem + ".XISF");
    LastFive(stem, ".fits");
    XisfSuffix(stem + ".fits");
    XisfSuffix(stem + ".fit");
    var p := stem + ".fit";
    if |p| >= 5 {
      assert p[|p| - 5..][4] == p[|p| - 1] == 't';
    }
  }

  lemma LastFive(stem: string, suf: string)
    requires |suf| == 5
    ensures (stem + suf)[|stem + suf| - 5..] == suf
  {
  }

  /** A frame is accepted exactly when its type passes the gate and each present
      exposure and gain converts; a failed conversion rejects the frame
      instead of falling back to the default. */
  lemma Accepts(fs: Fields, nums: Numerics)
    ensures Normalize(fs, nums).Some? <==>
              IsLight(fs.imageType)
              && (!Present(fs.exposure) || nums.exposureText(fs.exposure.value).Some?)
              && (!Present(fs.gain) || nums.gainText(fs.gain.value).Some?)
  {
  }

  /** The gate is decided by the type value alone: when it fails, no other
      field can change the outcome. */
  lemma GateAlone(fs: Fields, other: Fields, nums: Numerics, nums2: Numerics)
    requires other.imageType == fs.imageType
    requires !IsLight(fs.imageType)
    ensures Normalize(fs, nums) == Normalize(other, nums2) == None
  {
  }

  /** Each field of an accepted frame: the value found, normalised, or its default. */
  lemma KeyFields(fs: Fields, nums: Numerics, k: FrameKey)
    requires Normalize(fs, nums) == Some(k)
    ensures Present(fs.filter) ==> k.filter == NormalizeFilter(fs.filter.value)
    ensures !Present(fs.filter) ==> k.filter == Raw("Unknown")
    ensures Present(fs.exposure) ==> Some(k.exposure) == nums.exposureText(fs.exposure.value)
    ensures !Present(fs.exposure) ==> k.exposure == "0"
    ensures Present(fs.date) ==> k.date <= fs.date.value
    ensures !Present(fs.date) ==> k.date == "Unknown"
    ensures Present(fs.gain) ==> Some(k.gain) == nums.gainText(fs.gain.value)
    ensures !Present(fs.gain) ==> k.gain == "0"
    ensures Present(fs.binning) ==> k.binning == fs.binning.value
    ensures !Present(fs.binning) ==> k.binning == "1"
  {
    if !Present(fs.filter) {
      assert "Unknown" !in FilterMap && ['U'] !in FilterMap;
    }
  }

  /** The date of an accepted frame never holds a `T`: it is the found value up
      to its first `T`, or the whole value when it has none. */
  lemma DateHasNoTime(fs: Fields, nums: Numerics, k: FrameKey)
    requires Normalize(fs, nums) == Some(k)
    ensures 'T' !in k.date
    ensures Present(fs.date) && 'T' !in fs.date.value ==> k.date == fs.date.value
    ensures Present(fs.date) && 'T' in fs.date.value ==> fs.date.value[|k.date|] == 'T'
  {
    if !Present(fs.date) {
      assert k.date == "Unknown";
    } else {
      var v := fs.date.value;
      if 'T' !in v && |k.date| < |v| {
        assert false;
      }
    }
  }

  /** A light frame with no other field gets every default. */
  lemma LightOnly(v: string, nums: Numerics)
    requires Contains(Upper(v), "LIGHT")
    ensures Normalize(Fields(Some(v), None, None, None, None, None), nums)
              == Some(FrameKey("Unknown", Raw("Unknown"), "0", "1", "0"))
  {
    assert v != [] by {
      if v == [] {
        ContainsAt(Upper(v), "LIGHT");
      }
    }
    assert "Unknown" !in FilterMap && ['U'] !in FilterMap;
  }

  /** The header text is what decoding the first 50000 bytes gives, whatever
      the file holds after them. */
  lemma HeaderPrefixOnly(data: seq<byte>, more: seq<byte>)
    requires |data| >= HeaderChunkSize
    ensures HeaderText(data + more) == HeaderText(data)
  {
    assert forall k :: 0 <= k < HeaderChunkSize ==> (data + more)[k] == data[k];
  }

  /** Two files whose searches find the same six values, whatever their
      dialects, are classified alike. */
  lemma FormatTransparent(p1: string, d1: seq<byte>, p2: string, d2: seq<byte>, nums: Numerics)
    requires forall f :: Lookup(DialectOf(p1), f, HeaderText(d1)) == Lookup(DialectOf(p2), f, HeaderText(d2))
    ensures Classify(p1, Read(d1), nums) == Classify(p2, Read(d2), nums)
  {
    var e1, e2 := DialectOf(p1), DialectOf(p2);
    var h1, h2 := HeaderText(d1), HeaderText(d2);
    assert Lookup(e1, TypeField, h1) == Lookup(e2, TypeField, h2);
    assert Lookup(e1, FilterField, h1) == Lookup(e2, FilterField, h2);
    assert Lookup(e1, ExposureField, h1) == Lookup(e2, ExposureField, h2);
    assert Lookup(e1, DateField, h1) == Lookup(e2, DateField, h2);
    assert Lookup(e1, GainField, h1) == Lookup(e2, GainField, h2);
    assert Lookup(e1, BinningField, h1) == Lookup(e2, BinningField, h2);
    assert ReadFields(e1, h1) == ReadFields(e2, h2);
  }
}
